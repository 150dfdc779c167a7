/** The JavaScript string and array operations that `createFilePath` chains together:
    `String.prototype.indexOf`, `String.prototype.split` with a string separator and no
    limit, `Array.prototype.filter` and `Array.prototype.join`. */
module JsString {

  datatype Option<+T> = None | Some(value: T)

  /** `sep` occurs in `s` starting at position `i`. */
  predicate OccursAt(s: string, sep: string, i: nat) {
    i + |sep| <= |s| && s[i..i + |sep|] == sep
  }

  /** `sep` occurs somewhere in `s`. */
  ghost predicate Contains(s: string, sep: string) {
    exists i: nat :: OccursAt(s, sep, i)
  }

  /** An occurrence in a suffix of `s` is an occurrence in `s`, shifted by where the suffix starts. */
  lemma OccursAtSuffix(s: string, sep: string, m: nat, k: nat)
    requires m <= |s|
    ensures OccursAt(s[m..], sep, k) <==> OccursAt(s, sep, m + k)
  {
    if m + k + |sep| <= |s| {
      assert s[m..][k..k + |sep|] == s[m + k..m + k + |sep|];
    }
  }

  /** An occurrence in a prefix of `s` is an occurrence in `s` at the same place. */
  lemma OccursAtPrefix(s: string, sep: string, m: nat, k: nat)
    requires m <= |s|
    requires OccursAt(s[..m], sep, k)
    ensures OccursAt(s, sep, k)
  {
    assert s[..m][k..k + |sep|] == s[k..k + |sep|];
  }

  /** Position of the first occurrence of `sep` in `s` at or after `from`, as `s.indexOf(sep, from)`
      does (with `None` for its -1). */
  function IndexOf(s: string, sep: string, from: nat): (r: Option<nat>)
    requires from <= |s|
    decreases |s| - from
    ensures r.Some? ==> from <= r.value && OccursAt(s, sep, r.value)
    ensures r.Some? ==> forall j :: from <= j < r.value ==> !OccursAt(s, sep, j)
    ensures r.None? ==> forall j :: from <= j ==> !OccursAt(s, sep, j)
  {
    if OccursAt(s, sep, from) then Some(from)
    else if from == |s| then None
    else IndexOf(s, sep, from + 1)
  }

  /** `[...s]` for a string: one single-character string per character. */
  function Chars(s: string): (r: seq<string>)
    ensures |r| == |s|
    ensures forall k :: 0 <= k < |r| ==> r[k] == [s[k]]
    ensures Join(r, "") == s
  {
    if s == "" then [] else [[s[0]]] + Chars(s[1..])
  }

  /** `s.split(sep)` for a non-empty separator: the pieces between successive non-overlapping
      occurrences of `sep`, scanning from the left. */
  function SplitOn(s: string, sep: string): (r: seq<string>)
    requires sep != ""
    decreases |s|
    ensures |r| >= 1
    ensures |r| >= 2 <==> Contains(s, sep)
    ensures forall k :: 0 <= k < |r| ==> !Contains(r[k], sep)
    ensures Join(r, sep) == s
  {
    match IndexOf(s, sep, 0)
    case None => [s]
    case Some(i) =>
      var head, rest := s[..i], s[i + |sep|..];
      assert !Contains(head, sep) by {
        forall k: nat | OccursAt(head, sep, k) ensures false {
          OccursAtPrefix(s, sep, i, k);
        }
      }
      assert s == head + sep + rest;
      [head] + SplitOn(rest, sep)
  }

  /** `s.split(sep)`: with an empty separator JavaScript splits into single characters. */
  function Split(s: string, sep: string): (r: seq<string>)
    ensures sep != "" ==> |r| >= 1 && (|r| >= 2 <==> Contains(s, sep))
    ensures sep != "" ==> forall k :: 0 <= k < |r| ==> !Contains(r[k], sep)
    ensures sep == "" ==> |r| == |s| && forall k :: 0 <= k < |r| ==> r[k] == [s[k]]
    ensures Join(r, sep) == s
  {
    if sep == "" then Chars(s) else SplitOn(s, sep)
  }

  /** The split at the first occurrence of `sep`: the piece before it, then the split of what follows. */
  lemma SplitAtFirst(s: string, sep: string, i: nat)
    requires sep != ""
    requires OccursAt(s, sep, i)
    requires forall j :: 0 <= j < i ==> !OccursAt(s, sep, j)
    ensures Split(s, sep) == [s[..i]] + Split(s[i + |sep|..], sep)
  {
    var r := IndexOf(s, sep, 0);
    assert r.Some? && r.value == i;
  }

  /** Splitting a string without an occurrence of `sep` gives back the whole string. */
  lemma SplitNoOccurrence(s: string, sep: string)
    requires sep != ""
    requires !Contains(s, sep)
    ensures Split(s, sep) == [s]
  {
  }

  /** `xs.join(sep)`: the pieces in order with `sep` between neighbours; the result starts
      with the first piece. */
  function Join(xs: seq<string>, sep: string): (r: string)
    ensures |xs| >= 1 ==> xs[0] <= r
  {
    if |xs| == 0 then ""
    else if |xs| == 1 then xs[0]
    else xs[0] + sep + Join(xs[1..], sep)
  }

  /** A join of two or more pieces holds the separator right after the first piece, and every
      non-empty join ends with the last piece. */
  lemma {:induction false} JoinShape(xs: seq<string>, sep: string)
    requires |xs| >= 1
    ensures |xs| >= 2 ==> OccursAt(Join(xs, sep), sep, |xs[0]|)
    ensures |xs[|xs| - 1]| <= |Join(xs, sep)|
    ensures Join(xs, sep)[|Join(xs, sep)| - |xs[|xs| - 1]|..] == xs[|xs| - 1]
  {
    if |xs| >= 2 {
      var r, tail := Join(xs, sep), Join(xs[1..], sep);
      JoinShape(xs[1..], sep);
      assert r == xs[0] + sep + tail;
      assert r[|xs[0]|..|xs[0]| + |sep|] == sep;
      assert r[|r| - |tail|..] == tail;
    }
  }

  /** With a one-character separator, a leading piece free of the separator splits off first. */
  lemma SplitAfterPiece(head: string, sep: string, rest: string)
    requires |sep| == 1
    requires !Contains(head, sep)
    ensures Split(head + sep + rest, sep) == [head] + Split(rest, sep)
  {
    var s := head + sep + rest;
    var n := |head|;
    assert OccursAt(s, sep, n) by {
      assert s[n..n + 1] == sep;
    }
    forall j | 0 <= j < n ensures !OccursAt(s, sep, j) {
      if OccursAt(s, sep, j) {
        assert head[j..j + 1] == s[j..j + 1];
        assert OccursAt(head, sep, j);
        assert false;
      }
    }
    SplitAtFirst(s, sep, n);
    assert s[..n] == head;
    assert s[n + 1..] == rest;
  }

  /** With a one-character separator, splitting undoes joining pieces that do not contain the separator. */
  lemma {:induction false} SplitJoin(xs: seq<string>, sep: string)
    requires |sep| == 1
    requires |xs| >= 1
    requires forall k :: 0 <= k < |xs| ==> !Contains(xs[k], sep)
    ensures Split(Join(xs, sep), sep) == xs
  {
    if |xs| == 1 {
      SplitNoOccurrence(xs[0], sep);
    } else {
      SplitAfterPiece(xs[0], sep, Join(xs[1..], sep));
      SplitJoin(xs[1..], sep);
      assert xs == [xs[0]] + xs[1..];
    }
  }

  /** `xs.filter((x, idx) => keep(x, idx))`: the elements whose callback returns true, in order;
      the walk starts at index `i`. */
  function FilterFrom<T>(xs: seq<T>, keep: (T, nat) -> bool, i: nat): (r: seq<T>)
    requires i <= |xs|
    decreases |xs| - i
    ensures |r| <= |xs| - i
  {
    if i == |xs| then []
    else (if keep(xs[i], i) then [xs[i]] else []) + FilterFrom(xs, keep, i + 1)
  }

  /** `xs.filter(keep)`, the callback seeing each element together with its index. */
  function Filter<T>(xs: seq<T>, keep: (T, nat) -> bool): (r: seq<T>)
    ensures |r| <= |xs|
  {
    FilterFrom(xs, keep, 0)
  }

  /** What the walk from index `i` keeps: every element at an index whose callback returns
      true, and nothing else. */
  lemma {:induction false} FilterFromMembers<T>(xs: seq<T>, keep: (T, nat) -> bool, i: nat)
    requires i <= |xs|
    decreases |xs| - i
    ensures forall k :: i <= k < |xs| && keep(xs[k], k) ==> xs[k] in FilterFrom(xs, keep, i)
    ensures forall y :: y in FilterFrom(xs, keep, i) ==> exists k :: i <= k < |xs| && xs[k] == y && keep(xs[k], k)
  {
    if i < |xs| {
      FilterFromMembers(xs, keep, i + 1);
      var later := FilterFrom(xs, keep, i + 1);
      assert FilterFrom(xs, keep, i) == (if keep(xs[i], i) then [xs[i]] else []) + later;
    }
  }

  /** An element is in `Filter(xs, keep)` exactly when it stands in `xs` at an index whose
      callback returns true. */
  lemma FilterMembers<T>(xs: seq<T>, keep: (T, nat) -> bool)
    ensures forall k :: 0 <= k < |xs| && keep(xs[k], k) ==> xs[k] in Filter(xs, keep)
    ensures forall y :: y in Filter(xs, keep) ==> exists k :: 0 <= k < |xs| && xs[k] == y && keep(xs[k], k)
  {
    FilterFromMembers(xs, keep, 0);
  }

  /** The elements of `xs` from index `n` on, or none when `xs` has at most `n` elements. */
  function Drop<T>(xs: seq<T>, n: nat): (r: seq<T>)
    ensures |r| == if |xs| <= n then 0 else |xs| - n
    ensures forall k :: 0 <= k < |r| ==> r[k] == xs[n + k]
  {
    if |xs| <= n then [] else xs[n..]
  }

  /** A filter whose callback keeps exactly the indices from `n` on drops the first `n` elements. */
  lemma {:induction false} FilterFromThreshold<T>(xs: seq<T>, keep: (T, nat) -> bool, n: nat, i: nat)
    requires i <= |xs|
    requires forall x, k: nat :: keep(x, k) <==> k >= n
    ensures FilterFrom(xs, keep, i) == Drop(xs, if i < n then n else i)
    decreases |xs| - i
  {
    if i < |xs| {
      FilterFromThreshold(xs, keep, n, i + 1);
      if i >= n {
        assert xs[i..] == [xs[i]] + xs[i + 1..];
      }
    }
  }

  /** `Filter` with an index threshold `n` is `Drop(_, n)`. */
  lemma FilterThreshold<T>(xs: seq<T>, keep: (T, nat) -> bool, n: nat)
    requires forall x, k: nat :: keep(x, k) <==> k >= n
    ensures Filter(xs, keep) == Drop(xs, n)
  {
    FilterFromThreshold(xs, keep, n, 0);
  }
}
