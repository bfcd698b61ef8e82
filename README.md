# diff-utils comparison engine in Dafny

This project models the comparison engine of `diff-utils` (the `dfu-core`
crate and the row formatter of the `diff-utils-dir-trees` command) and
proves properties of the model.

The engine has three parts:

- **File comparator** (`file_contents_equal`). It checks the two files'
  metadata lengths, then reads both byte streams in lockstep.
- **Subtree equality check** (`diff_dirs`). It walks two directories in
  full, pre-order and sorted by name, and compares the two flat listings
  entry by entry. Only names and file kinds are compared, plus contents
  for pairs of regular files. The verdict is `Equal`, `NotEqual` or an
  error.
- **Top-level merge** (`TreeDiffIter::next`). It joins two name-sorted
  one-level listings with one peeked item per side. It yields `Matches`,
  `Differs` or `Left` items, or errors.

Modules, one per source component:

| file | module | models |
|---|---|---|
| `results.dfy` | `Results` | bytes, one opaque error type, `Option`, `Result` |
| `names.dfy` | `Names` | the byte-wise name order behind `file_name_cmp` |
| `files.dfy` | `Files` | `file_contents_equal` |
| `directories.dfy` | `Directories` | entries, walks, `file_name_cmp`, `longest_identifier`, `diff_dirs` |
| `tree_diff.dfy` | `TreeDiffs` | `TreeDiff`, `diff_trees`, `TreeDiffIter::next`, runs of the iterator |
| `dir_trees_cli.dfy` | `DirTreesCli` | `display_tree_diff` |

Modelling choices:

- **Walks are inputs.** The file system is a value of type
  `Directories.FileSystem`. It holds two total functions: the full
  sorted walk of a path (its first item is the path itself), and the
  walk at one fixed depth. Sortedness is a hypothesis of the lemmas that
  need it (`StrictlySorted`). It is not a precondition of the operations,
  because the code does not rely on it to run.
- **Files are records.** Each file is a `Files.FileRecord`: the outcome of
  asking for its metadata length, and the outcome of opening it. A
  successful open gives the stream of byte-or-error items that `bytes()`
  yields. The two parts are independent, as they are on a live file
  system.
- **Each loop has a reference function.** `FileContentsEqual` and
  `DiffDirs` are methods with the source's loops. Each is proved equal
  to a recursive function (`ContentsVerdict`, `DirsVerdict`), and the
  lemmas are stated about those functions.
- **The iterator is a class.** `TreeDiffIter` holds the two listings and
  one cursor per side. `Next` changes only the cursors, exactly as the
  function `Step` says. `Run` is what a consumer sees when it pulls items
  until the end or the first error. Both consumers in the repository
  (the CLI's `main` and the crate's test) stop at the first error.
  `DriveUntilError` is that loop, proved to yield `Run`.

The code differs from the tool's own description of the merge in two
ways. The model follows the code in both:

- `diff_trees` builds both listings from the first root.
- An entry found only in the second listing is reported as `Left`, so
  `TreeDiff::Right` is never produced.

The documented merge is modelled next to the code's merge
(`IntendedStep`, `IntendedRun`, `IntendedDiffTrees`), and
`RunIsRelabelledIntendedRun` proves how the two relate: the code's run
is the documented run with every `Right` relabelled `Left`. A third
difference concerns `diff_dirs`: it never compares the depth of an
entry, so a file moved to another level of the subtree goes unnoticed.
See "## Findings".

## Model

| member | source | states |
|---|---|---|
| `Names.BytesCmp` | dfu-core/src/directories.rs:184-186 | names compare `Equal` exactly when they are the same byte string; the empty name sorts before any other |
| `Names.CmpAntisymmetric` | dfu-core/src/directories.rs:184-186 | swapping the two names reverses the order, so the `Less` and `Greater` arms are mirror images |
| `Names.CmpLessTransitive` | dfu-core/src/directories.rs:184-186 | `Less` is transitive, so a listing sorted pair by pair is sorted |
| `Directories.FileNameCmp` | dfu-core/src/directories.rs:184-186 | two entries compare `Equal` exactly when their final name components are equal |
| `Files.FileContentsEqual` | dfu-core/src/files.rs:7-47 | the method's size check, opens and lockstep loop return exactly the verdict `ContentsVerdict` |
| `Files.SizeMismatchNeverOpens` | dfu-core/src/files.rs:11-14 | different metadata lengths give `Ok(false)` whatever opening either file would give |
| `Files.MetadataOrOpenFailure` | dfu-core/src/files.rs:12-17 | a metadata or open failure is returned as `Err`, checked in the order file 1 metadata, file 2 metadata, file 1 open, file 2 open |
| `Files.VerdictFromFirstDisagreement` | dfu-core/src/files.rs:19-26 | positions where both streams yield the same byte do not affect the verdict |
| `Files.FirstDifferingByte` | dfu-core/src/files.rs:22-25 | the first differing byte pair gives `Ok(false)`, whatever follows it |
| `Files.OneStreamEndsFirst` | dfu-core/src/files.rs:28-33 | one stream ending while the other still yields a byte gives `Ok(false)` |
| `Files.ReadErrorPropagates` | dfu-core/src/files.rs:35-40 | a read error is returned; the first stream's error wins, and the second's is returned when the first yielded a byte or had ended |
| `Files.ErrorFreeStreamsVerdict` | dfu-core/src/files.rs:19-46 | without read errors the verdict is `Ok(true)` exactly when the two streams are equal byte sequences, and `Ok(false)` otherwise |
| `Files.SelfComparison` | dfu-core/src/files.rs:19-44 | comparing a file that reads without errors with itself gives `Ok(true)` |
| `Files.StreamsVerdictSymmetric` | dfu-core/src/files.rs:19-46 | swapping the two streams changes at most which error is reported |
| `Files.ContentsVerdictSymmetric` | dfu-core/src/files.rs:7-47 | swapping the two files changes at most which error is reported |
| `Directories.LongestFrom` | dfu-core/src/directories.rs:22-24 | the fold step by step: an upper bound on the running maximum and every path length, reached by one of them, or the first error item |
| `Directories.LongestIdentifier` | dfu-core/src/directories.rs:18-25 | the longest path length among the items (0 when there are none), or the first error item, with no error before it |
| `Directories.DiffDirs` | dfu-core/src/directories.rs:130-182 | the method's lockstep loop over the two full walks returns exactly the verdict `DirsVerdict` |
| `Directories.VerdictAfterAgreement` | dfu-core/src/directories.rs:145-157 | agreeing pairs (same name, same kind, equal file contents) do not affect the verdict |
| `Directories.EqualIffMatching` | dfu-core/src/directories.rs:140-181 | `Equal` exactly when both walks are error free, have the same length, agree in name and kind position by position, and hold equal contents for every pair of regular files |
| `Directories.EqualFromIffMatching` | dfu-core/src/directories.rs:140-181 | the same from any position reached through agreeing pairs |
| `Directories.NamesDifferAt` | dfu-core/src/directories.rs:158-161 | differing names at the first disagreement give `NotEqual` |
| `Directories.WalkEndsFirst` | dfu-core/src/directories.rs:167-168 | one walk ending while the other still yields an entry gives `NotEqual` |
| `Directories.KindsDifferAt` | dfu-core/src/directories.rs:149-151 | a matched name with differing file kinds gives `NotEqual` |
| `Directories.ContentsDecideAt` | dfu-core/src/directories.rs:152-154 | for a matched pair of regular files, the comparator's `Ok(false)` gives `NotEqual` and its error is the result |
| `Directories.NonFileContentsIgnored` | dfu-core/src/directories.rs:152 | the comparator is consulted only for regular files: what reading any other entry gives never changes the verdict |
| `Directories.WalkErrorAt` | dfu-core/src/directories.rs:171-176 | an error item ends the check with that error; the first walk is checked first |
| `Directories.DiffDirsReflexive` | dfu-core/src/directories.rs:140-179 | a walk without errors whose files read without errors compares `Equal` with itself |
| `Directories.DiffDirsSymmetric` | dfu-core/src/directories.rs:140-179 | swapping the two walks changes at most which error is reported |
| `Directories.IntendedEqualIffSameDepths` | dfu-core/src/directories.rs:146-156 | the corrected check reports `Equal` exactly when the code as written does and every compared pair lies at the same depth |
| `Directories.IntendedEqualIffMatching` | dfu-core/src/directories.rs:140-181 | the corrected check reports `Equal` exactly when both walks are error free and agree in name, kind, file contents and depth position by position |
| `Directories.MovedFileComparesEqual` | dfu-core/src/directories.rs:146-156 | `x/r` holding `a/f` and `y/r` holding `a` and `f` compare `Equal` as written and `NotEqual` under the corrected check |
| `TreeDiffs.Step` | dfu-core/src/directories.rs:73-121 | each cursor moves at most one place and stays in range; `None` exactly when both listings are exhausted; a non-error item always moves a cursor |
| `TreeDiffs.TreeDiffIter.constructor` | dfu-core/src/directories.rs:63-66 | the iterator starts with both cursors before the first item |
| `TreeDiffs.TreeDiffIter.Next` | dfu-core/src/directories.rs:73-121 | the yielded item and both new cursor positions are exactly those `Step` gives from the old positions |
| `TreeDiffs.TreeDiffIter.DriveUntilError` | dfu-core/src/directories.rs:195-206 | pulling until the end or the first error yields exactly `Run` from the starting cursors and leaves the cursors where `RunEnd` says: past both listings when no error was yielded |
| `TreeDiffs.DiffTrees` | dfu-core/src/directories.rs:35-54 | both listings are the one-level walk of `dir1`; `dir2` is never read |
| `TreeDiffs.StepEqualNames` | dfu-core/src/directories.rs:78-89 | equal names: `diff_dirs` on the two paths decides `Matches` or `Differs` and both cursors advance; its error is yielded and no cursor moves |
| `TreeDiffs.StepUnequalNames` | dfu-core/src/directories.rs:90-97 | unequal names: only the cursor holding the smaller name advances, and its entry is reported as `Left`, whichever side it is on |
| `TreeDiffs.StepOneSideExhausted` | dfu-core/src/directories.rs:101-108 | one listing exhausted: the other side's entry is reported as `Left` and only its cursor advances |
| `TreeDiffs.StepErrorItem` | dfu-core/src/directories.rs:110-116 | a peeked error item is yielded and only its side advances; the left side is checked first |
| `TreeDiffs.Run` | dfu-cli/src/bin/diff-utils-dir-trees.rs:62-73 | what the consumer's loop sees: reported items followed by at most one error, at most one item per entry plus that error, and nothing exactly when both listings are already exhausted |
| `TreeDiffs.RunEnd` | dfu-core/src/directories.rs:73-121 | the cursors after a run stay in range and lie past both listings when the run holds no error |
| `TreeDiffs.IdenticalListingsAllMatch` | dfu-core/src/directories.rs:40-51 | two identical error-free listings whose subtrees read without errors report every entry, in order, as `Matches` of its own path |
| `TreeDiffs.RunIsRelabelledIntendedRun` | dfu-core/src/directories.rs:91-108 | the code's run is the documented run with every `Right` relabelled `Left` |
| `TreeDiffs.RunNeverRight` | dfu-core/src/directories.rs:91-108 | the code never yields `TreeDiff::Right` |
| `TreeDiffs.RunCovers` | dfu-core/src/directories.rs:73-121 | a run that ends without an error names the path of every entry of both listings |
| `TreeDiffs.RunLeftSound` | dfu-core/src/directories.rs:91-108 | over sorted listings, every `Left` names an entry of one listing whose name the other listing lacks |
| `TreeDiffs.IntendedStep` | dfu-core/src/directories.rs:73-121 | the documented step: cursor progress as in `Step`, with `Right` for entries found only in the second listing |
| `TreeDiffs.AsWrittenKeepsMentioned` | dfu-core/src/directories.rs:91-108 | relabelling `Right` as `Left` keeps the named paths and the error items |
| `TreeDiffs.IntendedRunCovers` | dfu-core/src/directories.rs:73-121 | a documented run without errors names the path of every entry of both listings |
| `TreeDiffs.BelowSortedSuffix` | dfu-core/src/directories.rs:43-49 | in a listing sorted by name, a name below the entry at a position occurs nowhere from that position on |
| `TreeDiffs.IntendedStepSound` | dfu-core/src/directories.rs:78-108 | one documented step over sorted listings reports a sound item, and each entry it moves past is absent from the rest of the other listing |
| `TreeDiffs.WidenSound` | dfu-core/src/directories.rs:73-121 | a sound item stays sound when the cursors move back over entries the other listing lacks |
| `TreeDiffs.IntendedRunSound` | dfu-core/src/directories.rs:73-121 | over sorted listings the documented merge reports `Left` only for names missing from the second listing, `Right` only for names missing from the first, and `Matches`/`Differs` only for equal names, as `diff_dirs` decides |
| `TreeDiffs.IntendedDiffTrees` | dfu-core/src/directories.rs:35-54 | the documented `diff_trees`, one listing per root: every item is sound over sorted listings, and a run without errors names every entry of both roots |
| `TreeDiffs.SecondRootIgnored` | dfu-core/src/directories.rs:46 | with root `a` empty and root `b` holding the directory `only`, the code reports nothing, where the documented merge reports `Right(b/only)` |
| `TreeDiffs.RightOnlyReportedAsLeft` | dfu-core/src/directories.rs:91-108 | an entry found only in the second listing, before or after the first listing's entries, is reported as `Left` where the documented merge says `Right` |
| `DirTreesCli.PadRight` | dfu-cli/src/bin/diff-utils-dir-trees.rs:84 | `{:width$}`: the text, then spaces up to at least `width` characters, never truncated |
| `DirTreesCli.ColumnsOf` | dfu-cli/src/bin/diff-utils-dir-trees.rs:78-83 | every label has 11 characters |
| `DirTreesCli.DisplayTreeDiff` | dfu-cli/src/bin/diff-utils-dir-trees.rs:76-85 | a row starts with the left path, its 11-character label starts two characters after the padded left column, and its length is both padded columns plus 15 |
| `DirTreesCli.RowLayout` | dfu-cli/src/bin/diff-utils-dir-trees.rs:76-85 | a row is the left field padded to `width`, two spaces, the label, two spaces, then the right field padded to `width` |
| `DirTreesCli.RowLengthWhenPathsFit` | dfu-cli/src/bin/diff-utils-dir-trees.rs:79-84 | when both paths fit in `width`, a row has `2 * width + 15` characters |
| `DirTreesCli.MissingSideIsBlank` | dfu-cli/src/bin/diff-utils-dir-trees.rs:77-84 | `Left` is the left path, `"< ONLY IN  "` and `width` spaces; `Right` is `width` spaces, `"  ONLY IN >"` and the right path |
| `DirTreesCli.KindReadBack` | dfu-cli/src/bin/diff-utils-dir-trees.rs:79-84 | when the left path fits the column, the variant can be read back from the label at a fixed offset |
| `DirTreesCli.SampleLeftRow` | dfu-cli/src/bin/diff-utils-dir-trees.rs:95-96 | width 6, `Left("./test")` renders as the test table's first row |
| `DirTreesCli.SampleRightRow` | dfu-cli/src/bin/diff-utils-dir-trees.rs:99-100 | width 6, `Right("./test")` renders as the test table's second row |
| `DirTreesCli.SampleMatchesRow` | dfu-cli/src/bin/diff-utils-dir-trees.rs:103-104 | width 6, `Matches("./test", "./test")` renders as the test table's third row |
| `DirTreesCli.SampleDiffersRow` | dfu-cli/src/bin/diff-utils-dir-trees.rs:107-108 | width 6, `Differs("./test", "./test")` renders as the test table's fourth row |

## Left out

- The `walkdir` traversal itself is not modelled: sorting, depth limits, symbolic links and per-entry errors. Each walk is an input sequence of entries and errors. Its sortedness is a hypothesis of the lemmas that need it.
- Real file system calls (`metadata`, `File::open`, `bytes()`) are not modelled. A file is a record of their outcomes.
- The CLI's `main` is I/O: argument parsing with `clap`, the header line, `println!` output, the `expect` panics, and the column width taken as the larger of the two `longest_identifier` results.
- dfu-core/benches/file_contents_equal.rs is a timing benchmark over temporary files and is not part of this model. Its `unwrap` on comparing a file with itself is covered by `Files.SelfComparison`.
- The `thiserror` messages of `DirError` and its `From` conversions are not modelled. One opaque error type stands for `io::Error`, `walkdir::Error` and `DirError`.
- `OsStr` encoding is not modelled. Names are byte strings. Paths are the strings `Path::display` shows, and lossy conversion is not modelled.
- Directories.LongestIdentifier: counts the characters of the displayed path, where the source counts the bytes of the `OsStr` path. The two agree for ASCII paths.
- Concurrent changes to the directories during a scan are not modelled. Each walk is a fixed sequence, fixed when the walk is created.
- TreeDiffs.Run: stops at the first error, as both consumers in the repository do. In the model an iterator pulled again after a `diff_dirs` error yields the same error forever, because no cursor moves and each walk is a fixed sequence; the code walks the two subtrees again on every call, so a later call may see a different file system. `TreeDiffs.StepEqualNames` states that single step.
- Integer widths (`usize` lengths, `u64` file sizes) are unbounded `nat` values. Overflow cannot occur at realistic sizes.

## Findings

| source | as written | input that shows it | evidently intended | confidence | as-written member | corrected member |
|---|---|---|---|---|---|---|
| dfu-core/src/directories.rs:46 | `walker2` is built from `dir1`, so the second root is never listed | root `a` empty, root `b` holding `only`: `diff_trees(a, b, 1)` yields nothing | build `walker2` from `dir2`; the run is then `[Right(b/only)]` | high; not executed | `TreeDiffs.SecondRootIgnored` | `TreeDiffs.IntendedDiffTrees` |
| dfu-core/src/directories.rs:91-108 | the `Greater` arm and the "left exhausted" arm report `TreeDiff::Left` for an entry of the second listing | first listing `[a/z]`, second `[b/a]`: the first item is `Left(b/a)`; first listing empty, second `[b/z]`: the item is `Left(b/z)`. Through `diff_trees` as written both listings are the same, so these arms are reached only once line 46 is corrected | report `Right` for entries found only in the second listing | high; not executed | `TreeDiffs.RightOnlyReportedAsLeft` | `TreeDiffs.IntendedStep` |
| dfu-core/src/directories.rs:146-156 | `diff_dirs` compares the two flattened pre-order walks by final name and kind only, so the level an entry sits at is never compared | `x/r` holding `a/f` and `y/r` holding `a` and `f`, `f` empty in both: both walks list `r`, `a`, `f` as directory, directory, file, and `diff_dirs` gives `Equal` | two subtrees compare `Equal` only when they hold the same entries at the same places; comparing depths as well does this | medium; not executed | `Directories.MovedFileComparesEqual` | `Directories.IntendedDirsVerdict` |

The soundness of the corrected merge is proved by
`TreeDiffs.IntendedRunSound`, and its completeness by
`TreeDiffs.IntendedRunCovers`. The iterator class keeps the code's
behaviour. `TreeDiffs.RunIsRelabelledIntendedRun` ties the code's run to
the corrected one. The corrected subtree check `Directories.IntendedDirsVerdict` is characterised by
`Directories.IntendedEqualIffMatching`; the merges keep the check as
written, so that each corrected member differs from the code in one
respect only.
