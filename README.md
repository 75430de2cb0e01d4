# Duplicate file finder: a verified model of its engine

The program (`main.cpp`) finds duplicate files under one or more directories.
It fingerprints each candidate file as a sequence of CRC-32 block hashes and
files every pair of paths with equal fingerprints into a group keyed by that
fingerprint. This project models that engine in Dafny over abstract inputs
instead of a real filesystem, and proves what the code promises.

- `types.dfy` holds the shared vocabulary: bytes, paths, the path-to-fingerprint
  table `allFiles`, file contents (`Unopenable` or `Bytes`) and the
  "Cannot open file" error.
- `fingerprint.dfy` models `readFile`. The specification function `Fingerprint`
  cuts the bytes into `blockSize` chunks, zero-pads a short last chunk and hashes
  each chunk in order. `Block` is the padded block `i`. `Read` models
  `istream::read` on a buffer that is reused between reads. The method
  `ReadFile` is the loop of the source, rewritten chunk by chunk on that buffer.
  CRC-32 is a function parameter `crc`, so every result holds for any
  deterministic hash.
- `grouping.dfy` models `compareHashes` and the pairwise loop of
  `findDuplicates`. `Groups(t)` is the reference: one group for each fingerprint
  held by two or more paths, holding every path with that fingerprint. The loop
  (`GroupDuplicates` with its inner loop `CompareWithLater`) is proved to build
  exactly `Groups(t)`.
- `filter.dfy` models `processFile`. `Qualifies` is its chain of rejections. The
  specification function `Record` is its effect on `allFiles`, or the exception it lets
  through. The method `ProcessFile` is the imperative chain itself.
- `scan.dfy` models the root loop of `findDuplicates`. `RecordAll` and
  `CollectAll` fold `processFile` over entries and over roots. `FindDuplicates`
  is the method with the two nested loops, followed by the grouping.
- `mask.dfy` models the mask rewrite in `main`. `MaskToRegex` applies the two
  `regex_replace` passes literally; `TranslateAll` is a one-pass reference.

The in/out reference parameter `allFiles` of `processFile` becomes a map value
that goes in and comes back out. The exception that `readFile` throws when a
file cannot be opened becomes an `Err` result. It ends the whole scan, as the
uncaught exception does in the program. A failing `ProcessFile` returns the
table unchanged together with the error.

## Model

| member | source | states |
|---|---|---|
| `Fingerprints.ReadFile` | main.cpp:28-45 | An unopenable file gives the error `CannotOpen(path)`. Otherwise the result is `Fingerprint(data)`: exactly ceil(n/blockSize) hashes, hash i being the CRC of block i zero-padded to blockSize. This is proved for the buffer-reusing read loop, which keeps going while the read succeeds or `gcount()` is positive. |
| `Fingerprints.Read` | main.cpp:35-36 | One `istream::read` into the reused buffer. It copies the next min(count, remaining) bytes over the front of the buffer, leaves the rest of the buffer as it was, advances the stream by gcount and fails a short read. A read on a failed stream reads nothing. |
| `Fingerprints.FingerprintStep` | main.cpp:35-43 | One loop iteration appends the hash of the next padded chunk and leaves the fingerprint of the remaining bytes still to be produced. When the chunk was the last one, the hashes are complete. |
| `Fingerprints.FingerprintLength` | main.cpp:34-44 | A fingerprint has exactly ceil(n / blockSize) hashes. |
| `Fingerprints.FingerprintOfWholeBlocks` | main.cpp:35-43 | A file of exactly m blocks gives m hashes, with no trailing hash for an empty block. An empty file gives the empty fingerprint. |
| `Fingerprints.FingerprintAt` | main.cpp:36-42 | Hash i is the CRC of bytes [i·B, min((i+1)·B, n)) right-padded with zeros to B bytes. |
| `Fingerprints.BlockShape` | main.cpp:37-40 | Every hashed block has exactly B bytes: its real bytes first, then only zero bytes. No bytes are left over from the previous block, because the buffer is truncated before it is padded. |
| `Fingerprints.BlockOfRest` | main.cpp:35-42 | Block i of the file is block i-1 of the bytes after the first block, which is how successive reads see it. |
| `Fingerprints.TrailingZeroCollision` | main.cpp:38-41 | Detection only: appending a zero byte inside a partial last block leaves the fingerprint unchanged. Two such files are therefore reported as duplicates. |
| `Fingerprints.ZeroBlockSizeNeverEnds` | main.cpp:34-35 | With block size 0, a read on a good stream returns the same good stream with gcount 0. So the loop condition holds again from an unchanged state. |
| `Grouping.CompareHashes` | main.cpp:48-54 | Returns true exactly when the two fingerprints are equal sequences. This is proved for the index loop with its early exits. |
| `Grouping.SameHashesIsEquality` | main.cpp:49-53 | "Same length and the same hash at every index" is the same as sequence equality, so the test is reflexive, symmetric and transitive. |
| `Grouping.EnumerateKeys` | main.cpp:96-97 | Visits every recorded path exactly once. |
| `Grouping.CompareWithLater` | main.cpp:97-104 | The inner loop compares path i with every later path and files both paths of each equal pair under their fingerprint. Afterwards all equal pairs (a, b) with a ≤ i are filed, every group has at least 2 paths, and every filed path has its group's fingerprint. |
| `Grouping.ComparePairStep` | main.cpp:98-103 | Comparing one pair, and inserting both paths into `duplicates[key]` when they are equal, keeps the loop invariant for the next pair. |
| `Grouping.NextRow` | main.cpp:96-97 | Finishing the inner loop for position i establishes the invariant at the start of position i+1. |
| `Grouping.AllPairsCompared` | main.cpp:96-105 | Once every pair has been compared, `duplicates` is exactly `Groups(allFiles)`. |
| `Grouping.GroupDuplicates` | main.cpp:96-105 | The nested pairwise loop produces exactly `Groups(allFiles)`, whatever order it visits the paths in. |
| `Grouping.GroupsInvariants` | main.cpp:96-105 | Every group has at least 2 paths. Every path in group k has fingerprint k. Two distinct paths with equal fingerprints are both in the group of that fingerprint, and a path is in no other group. A path with a unique fingerprint is in no group. |
| `Grouping.GroupsTransitive` | main.cpp:98-102 | If A≡B and B≡C, then A, B and C are all in one group, even though the loop finds them through separate pairs. |
| `Filter.ProcessFile` | main.cpp:60-74 | If any check of the chain fails (regular file, parent not exactly an exclusion, size ≥ minSize, name matches), the table is unchanged. If all pass but the file cannot be opened, the table is unchanged and the error is reported. Otherwise only key `entry.path` is set, overwriting any earlier value, to the file's fingerprint. No other key changes. |
| `Filter.RecordFrame` | main.cpp:71-72 | Recording an entry leaves every other path's presence and fingerprint unchanged. |
| `Scan.FindDuplicates` | main.cpp:77-105 | The result is the groups of the table built by the root loop. If a qualifying file cannot be opened, the result is that file's error. |
| `Scan.CollectIsRecordAll` | main.cpp:80-94 | The nested root and entry loops record what one pass over the concatenated entries of the scannable roots records. The scan level picks direct children (0) or the whole subtree. |
| `Scan.RecordAllAppend` | main.cpp:85-92 | Processing two runs of entries one after the other is processing their concatenation. The first exception stops the rest. |
| `Scan.InvalidRootSkipped` | main.cpp:80-84 | A root that does not exist or is not a directory contributes nothing. The scan with it equals the scan without it, and the remaining roots are still scanned. |
| `Scan.ScanRecordsQualifiedPaths` | main.cpp:79-94 | A successful scan records exactly the paths of the qualifying entries of the scannable roots. |
| `Scan.RecordAllKeys` | main.cpp:61-72 | After a successful pass, the recorded paths are the earlier ones plus those of the entries that pass the filter. |
| `Scan.RecordAllValues` | main.cpp:71-72 | Each recorded path holds the fingerprint of the last qualifying entry with that path. If no qualifying entry has that path, it keeps its earlier value. |
| `Scan.RecordAllReadable` | main.cpp:31-32 | After a successful pass, every entry that passes the filter could be opened. |
| `Scan.RecordAllFailure` | main.cpp:31-32 | A failed pass failed with the error of a qualifying entry that cannot be opened. |
| `Scan.QualifiedPathsCons` | main.cpp:61-70 | The qualifying paths of a sequence of entries are those of its tail, plus the head's path if the head qualifies. |
| `Mask.MaskTranslation` | main.cpp:147-151 | The rewritten mask is `^`, then each mask character translated in order (`*` to `.*`, `?` to `.`, anything else copied), then `$`. |
| `Mask.TwoPassesAreOnePass` | main.cpp:149-150 | Replacing `*` first and then `?` is the same as the one-pass per-character translation. The `.*` inserted first contains no `?`. |
| `Mask.ReplaceAllAppend` | main.cpp:149-150 | `regex_replace` of a one-character literal distributes over concatenation. |
| `Mask.MaskShape` | main.cpp:147-151 | The result starts with `^` and ends with `$`. Its length is the mask's length plus the number of `*` plus 2. |
| `Mask.TranslateAllLength` | main.cpp:149-150 | The translation is longer than the mask by the number of `*`. |
| `Mask.PlainMaskCopied` | main.cpp:147-151 | A mask without `*` or `?` is copied unescaped between the anchors. |
| `Mask.PlainTranslation` | main.cpp:149-150 | Characters other than `*` and `?` are translated to themselves. |
| `Mask.DotIsNotEscaped` | main.cpp:147-151 | `*.txt` becomes `^.*.txt$`. Its `.` stays a regex wildcard. |

The remaining functions have no contract of their own, so the lemmas above state what they mean:
- `Fingerprint` and `Block` model main.cpp:34-43.
- `Qualifies` and `Record` model main.cpp:61-72.
- `RecordAll`, `CollectAll` and `ScannedEntries` model main.cpp:80-94.
- `Holders`, `Shared` and `Groups` model main.cpp:96-105.
- `ReplaceAll` and `MaskToRegex` model main.cpp:147-151.

## Left out

- CRC-32 internals (main.cpp:18-22): boost's `crc_32_type` is a foreign library. It is the parameter `crc`, and only its determinism is used. So the model cannot show that two particular contents, such as "AAAA" and "AAAB", get different hashes.
- Regular-expression matching and case folding (main.cpp:68, main.cpp:154): `std::regex_match`, compiled case-insensitively, is the predicate `Config.mask`. A mask that fails to compile, which makes the `std::regex` constructor throw, is not modelled.
- Filesystem access: `fs::exists`, `is_directory`, `directory_iterator`, `recursive_directory_iterator`, `is_regular_file`, `file_size` and `ifstream` (main.cpp:30, 61, 65, 81, 86-92). They become the fields of `Root` and `Entry`. Errors that these calls can throw (for example on a directory that cannot be read) are not modelled. Only a file that cannot be opened is.
- Read errors after a successful open are not modelled. The stream delivers exactly the file's bytes.
- The warning printed for a skipped root (main.cpp:82) and the printing of the groups (main.cpp:107-112) are output only. The groups are returned as a map instead.
- Interactive input in `main` (main.cpp:118-145, 152-153). The model takes a `Config` directly. In the program, `minSize` is fixed at 1 (main.cpp:121). In the model it is a field.
- The grouping key: the program turns the fingerprint into a string of its raw bytes (main.cpp:99). That map is one-to-one, so the model keys groups by the fingerprint itself.
- std::map ordering: `allFiles` is visited in path order, but `EnumerateKeys` fixes no particular order. The result is proved to be `Groups(allFiles)` for every order, and the display order of the groups is not modelled.
- Integer widths: `size_t` positions and sizes are unbounded `nat`s; no realistic file reaches the wrap-around.
- Fingerprints.ReadFile: requires `blockSize > 0`. With 0 the source loop does not end normally (see Findings), and a plain value-level model cannot represent that.
- Filter.Record: requires `blockSize > 0` because it reaches `readFile`. With block size 0 the program still finishes normally when no entry qualifies, for example when every root is invalid, and it still throws `CannotOpen` when the first qualifying file cannot be opened. The model does not cover these runs.
- Filter.ProcessFile: requires `blockSize > 0` because it reaches `readFile`. With block size 0 the program still finishes normally when no entry qualifies, for example when every root is invalid, and it still throws `CannotOpen` when the first qualifying file cannot be opened. The model does not cover these runs.
- Scan.RecordAll: requires `blockSize > 0` because it reaches `readFile`. With block size 0 the program still finishes normally when no entry qualifies, for example when every root is invalid, and it still throws `CannotOpen` when the first qualifying file cannot be opened. The model does not cover these runs.
- Scan.CollectAll: requires `blockSize > 0` because it reaches `readFile`. With block size 0 the program still finishes normally when no entry qualifies, for example when every root is invalid, and it still throws `CannotOpen` when the first qualifying file cannot be opened. The model does not cover these runs.
- Scan.FindDuplicates: requires `blockSize > 0` because it reaches `readFile`. With block size 0 the program still finishes normally when no entry qualifies, for example when every root is invalid, and it still throws `CannotOpen` when the first qualifying file cannot be opened. The model does not cover these runs.
- Path comparison: paths are compared as strings, while `fs::path` compares them element by element, so `x//y` equals `x/y` in the program. This matters for the exclusion test (main.cpp:62), the `allFiles` keys (main.cpp:72, main.cpp:79) and the group sets (main.cpp:78). With roots `x/y` and `x//y` naming one directory, the program records each file once and the model records it under two paths, which then form a group. With an exclusion `x/y` and an entry whose parent is `x//y`, the program rejects the entry and the model accepts it. The model is faithful when every path is spelled in one canonical form.

## Findings

| source | as written | input that shows it | evidently intended | confidence | as-written member | corrected member |
|---|---|---|---|---|---|---|
| main.cpp:34-35 | The block size read at main.cpp:152-153 is never checked. With 0, `file.read(&buffer[0], 0)` succeeds without moving the stream, so `readFile` pushes a hash and tests the same condition again, from the same state. Each turn of the loop pushes one more hash, so the run only ends when memory runs out (`std::bad_alloc`). | Any readable qualifying file and block size 0. Since `minSize` is 1 (main.cpp:121), such a file has at least one byte. | A block size of at least 1, so the loop ends with ceil(n/B) hashes | not executed | `Fingerprints.ZeroBlockSizeNeverEnds` | `Fingerprints.ReadFile` |
