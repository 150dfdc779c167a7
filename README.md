# Test-path remapping of vscode-jest-generator, in Dafny

The editor extension generates a Jest test for the file open in the editor. Before it does,
`createFilePath` (in `extension.js`) computes where the test goes: it takes the text of the
file's path after the workspace root, splits it on `\`, throws away the segments at indices
0 and 1, and joins the rest under `<root>\tests\`. This project models that function and the
JavaScript operations it is built from, and proves what it does.

- `js_string.dfy`, module `JsString`: `String.prototype.split` with a string separator and no
  limit (including the empty separator, which splits into single characters), `indexOf`,
  `Array.prototype.filter` with a callback that sees the index, and `Array.prototype.join`.
- `test_path.dfy`, module `TestPath`: `CreateFilePath(root, filePath)`, the remainder
  `filePath.split(root)[1]`, the kept segments, and the lemmas about them.

The workspace root, which the extension reads from the editor host
(`vscode.workspace.workspaceFolders[0].uri._fsPath`), is the parameter `root`. The function
reads and writes nothing else, so, being a Dafny function, it gives the same result for the
same `(root, filePath)` every time.

Where `root` does not split `filePath` into two pieces, `split(root)[1]` is `undefined` and
the following `.split` throws a `TypeError`. The model returns `TypeError` in that case and
does not forbid it with a precondition. For a non-empty root this happens exactly when the
root does not occur in the path. For an empty root it happens when the path is shorter than
two characters.

Consequences of the code that the lemmas below pin down:
- `createFilePath` finds the root with `split`, not with a prefix test. A path that contains the
  root later on is not rejected, and a second occurrence of the root cuts the remainder short
  (`RemainderBetweenOccurrences`). The TypeScript variant of the command in src/extension.ts
  instead strips the root with `replace` and passes it, the source path and a test-file name to
  `createTestFileAbsolutePath` (src/extension.ts:103-108), whose body is not in the source.
- Paths are split and joined only on `\`.
- The remainder of a path such as `C:\proj\src\utils\math.ts` starts with `\`, so segment 0
  is empty and only one real directory is dropped. The result is `C:\proj\tests\utils\math.ts`
  (`DropsFirstDirectory`).
- For a path with at least one directory below the root, `root\dir\rest` becomes
  `root\tests\rest`: the first directory is replaced by `tests` and the file name is kept
  (`DropsFirstDirectory`). A file directly under the root, `root\name`, maps to `root\tests\`
  and its name is lost (`FileAtRoot`).
- A path that uses `/` between directories, as the editor reports on hosts other than Windows,
  maps to `root\tests\` whenever no `\` follows the root (`ForwardSlashPath`).

## Model

| member | source | states |
|---|---|---|
| JsString.IndexOf | extension.js:7 | The search inside `split`: the result is an occurrence of the separator at or after the start position, with none between the start and it. `None` means there is no occurrence from the start position on. |
| JsString.Split | extension.js:7 | JavaScript `split`: with a non-empty separator there is at least one piece, and two or more exactly when the separator occurs. No piece contains the separator, and joining the pieces with the separator gives the input back. With an empty separator you get one piece per character. The two cases are `SplitOn` (non-empty separator) and `Chars` (empty separator). Which pieces come out for a separator that overlaps itself is fixed by `SplitAtFirst` and `SplitNoOccurrence`. |
| JsString.SplitAtFirst | extension.js:7 | The split is leftmost and non-overlapping: at the first occurrence of the separator, the piece before it comes first, followed by the split of the text after the occurrence. |
| JsString.SplitNoOccurrence | extension.js:7 | A string without the separator splits into itself alone. |
| JsString.Join | extension.js:11 | `.join('\\')`: a non-empty join starts with its first piece. Its partner is `SplitJoin`. |
| JsString.JoinShape | extension.js:11 | A join of two or more pieces has the separator right after the first piece, and every non-empty join ends with its last piece. |
| JsString.SplitJoin | extension.js:7-11 | With a one-character separator, splitting the join of a non-empty list of separator-free pieces gives back exactly that list. |
| JsString.FilterThreshold | extension.js:8-11 | A `filter` whose index callback keeps exactly the indices from `n` on is the same as dropping the first `n` elements. |
| JsString.Filter | extension.js:8-11 | `filter` with a callback that sees the index: the result is never longer than the input. |
| JsString.FilterMembers | extension.js:8-11 | An element is in the filtered result exactly when it stands in the input at an index whose callback returns true. |
| TestPath.Remainder | extension.js:7 | `filePath.split(root)[1]`: for a non-empty root it is defined exactly when the root occurs in the path. For an empty root it is the second character, or undefined for a path shorter than two characters. |
| TestPath.KeptSegments | extension.js:7-11 | The `\`-split of the remainder filtered with `KeepSegment`, the `(path, idx) => idx > 1` callback. The segments kept from the remainder number two fewer than the `\` split gives, or none when it gives at most two. No kept segment contains `\`. |
| TestPath.KeptSegmentsAreTail | extension.js:8-11 | The segments that survive the `idx > 1` filter are exactly the split segments at indices 2 and up, in their original order. Indices 0 and 1 are discarded. |
| TestPath.CreateFilePath | extension.js:5-14 | Fails with `TypeError` exactly when the remainder is undefined. Otherwise the result is `root + "\tests\"` followed by the `\`-join of the remainder's segments from index 2 on. |
| TestPath.TestPathPrefix | extension.js:8 | Whenever the remainder is defined, that is on every successful call, the result begins with `root + "\tests\"`. |
| TestPath.RemainderAfterRoot | extension.js:7 | If `filePath` is `root + rest` and `rest` does not contain the root, the remainder is exactly `rest`. |
| TestPath.RemainderBetweenOccurrences | extension.js:7 | In general the remainder runs from the end of the first occurrence of the root to the start of the next occurrence, or to the end of the path when there is no next occurrence. |
| TestPath.TestPathRoundTrip | extension.js:7-11 | When the remainder splits into more than two segments, so that some segment is kept, splitting the part after `root + "\tests\"` on `\` gives back exactly the kept segments. That no kept segment contains `\` is `KeptSegments`' own contract. |
| TestPath.ShortRemainder | extension.js:8-11 | A remainder of at most two segments keeps nothing, and the result is exactly `root + "\tests\"`. |
| TestPath.FileAtRoot | extension.js:7-11 | A file directly under the root, `root\name`, maps to `root\tests\` itself. |
| TestPath.DropsFirstDirectory | extension.js:7-11 | `root\dir\sub` maps to `root\tests\sub`. Only the first directory is dropped, and the rest of the path, file name included, is kept. |
| TestPath.ForwardSlashPath | extension.js:7-11 | A `/`-separated path whose remainder holds no `\` maps to `root\tests\` whatever its directories and file name are. |
| TestPath.SrcExample | extension.js:7-11 | `root\src\a\b.ts` maps to `root\tests\a\b.ts`. |

## Left out

- `activate` and `deactivate` (extension.js:16-29): command registration, the directory check and creation on the computed path, the call into `jest-test-gen`, and opening the generated file. These are editor-host, file-system and foreign-library calls.
- Reading the root from the host (extension.js:6) is replaced by the parameter `root`. The `TypeError` thrown when the workspace has no folder is therefore not modelled.
- JavaScript strings are sequences of UTF-16 code units, but the model uses Dafny characters. Splitting on the empty separator therefore treats a character outside the Basic Multilingual Plane as one unit, where JavaScript would see two.
- src/extension.ts is not part of this model. It holds the CodeLens scan over the document text with a regular expression, and command handlers that call helpers from `./format` whose bodies are not in the source. It also writes files.
- src/format/index.ts is not part of this model. It holds only two template string constants and no logic.
- Test-file naming, template generation and the append-or-create file writer are not modelled, because no implementation of them appears in the source files.
