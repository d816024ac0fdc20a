# massif-combine in Dafny

massif-combine merges several Valgrind Massif heap-profile files into one.
Its core is the class `MassifFile`. It reads each file through a
five-state line classifier. Header lines (`desc:`, `cmd:`, `time_unit:`) are
kept from one file only. Snapshot blocks (`#-----------` / `snapshot=N` /
`#-----------` followed by body lines) become snapshots timed by their
`time=` line. `write` then sorts all snapshots by time and emits the headers
followed by the snapshots, renumbered `0..N-1`.

The model has four modules:

- `MassifText` (text.dfy): the three regular expressions and the marker
  literal of the parser as explicit string predicates. It also holds the
  decimal conversions (`std::stoi` on the captured digits, `std::to_string`
  of the index).
- `MassifParse` (parse.dfy): one file's parse as a pure state machine.
  `Step` is one loop iteration, branch for branch. `Run` is the loop.
  `Parse` is the loop followed by the end-of-file close. The early error
  returns are the `Abort` outcome. The lemmas prove what the parser
  guarantees.
- `MassifWrite` (write.dfy): the output lines (`Render`), the sort, the
  output loop, and the proof that the output reads back as what was
  written.
- `MassifCombine` (massif_file.dfy): the class `MassifFile`, with
  `headers: seq<string>` and `snapshots: seq<Snapshot>` fields. Its methods
  `AppendFile`, `Add`, `AddAll` and `Write` update them in place. `AppendFile`
  keeps the source's `while` loop with its status variable and open-snapshot
  variable, and is proved equal to `Parse`. `AddOne`/`AddMany` specify
  `add`, and lemmas state what a merge keeps.

An input file is its sequence of lines, or `None` when it cannot be opened.
The output is the returned sequence of lines. `Write` takes a flag saying
whether the output file could be created.

Three properties of the code are worth stating up front:

- The malformed-input error returns are never taken on a real file. A
  marker line seen while a snapshot is open closes that snapshot first (and
  drops it when it is empty), so two marker/name/marker triples with no
  body between them do not trigger "a new snapshot opened while another is
  open". `ParseSucceeds` proves that reading an opened file always returns
  0. From an arbitrary state an error branch can be taken, and
  `AbortIsFinal` proves that it then ends the read.
- Every line before the first keyword line is dropped. A file without
  header lines therefore adds nothing (`NoKeywordFileIgnored`,
  `HeaderlessFileAddsNothing`). For the same reason, a combined output
  written without header lines does not read back
  (`HeaderlessRenderReadsEmpty`). With header lines it reads back exactly
  (`RenderRoundTrip`).
- The loop invariant is not "a snapshot is open exactly in
  `SNAPSHOT_CONTENT`". A keyword line inside a snapshot moves the state to
  `HEADER` and leaves the snapshot open. The next marker closes it, and the
  body lines in between are dropped. `Consistent` states the invariant that
  holds: a snapshot is always open in `SNAPSHOT_CONTENT`, may be open in
  `HEADER`, and is never open in the other three states (`RunConsistent`).

## Model

| member | source | states |
|---|---|---|
| MassifText.FindTagLeftmost | src/massif-combine.cpp:139-140 | the search result is the leftmost position where the tag is followed by a digit (where a `tag\d+` search matches); None exactly when there is no such position |
| MassifText.DigitRun | src/massif-combine.cpp:140 | the result is the maximal prefix made of digits (what greedy `\d+` captures) |
| MassifText.TimeMatchLeftmost | src/massif-combine.cpp:140 | a line has no time exactly when no `time=` in it is followed by a digit; otherwise the time is the value of the whole digit run after the leftmost such `time=` |
| MassifText.NatToString | src/massif-combine.cpp:120 | the index is rendered as its canonical decimal text: non-empty, digits only, no leading zero unless it is the single digit `0`, and the decimal value is the index |
| MassifParse.RunAppend | src/massif-combine.cpp:150-196 | reading `a + b` is reading `a` then `b` from where `a` stopped; an error stops the loop for good |
| MassifParse.AbortIsFinal | src/massif-combine.cpp:178-188 | once an error branch is taken on some line, the loop stops there: the run over the whole file is the run up to that line, which ends in that error |
| MassifParse.StepConsistent | src/massif-combine.cpp:150-196 | from a consistent state, every branch continues (neither `return 2` is taken) and leads to a consistent state |
| MassifParse.RunConsistent | src/massif-combine.cpp:146-196 | from the initial state, the loop never takes an error branch and keeps the state invariant (open snapshot only in HEADER or SNAPSHOT_CONTENT, always open in SNAPSHOT_CONTENT) |
| MassifParse.ParseSucceeds | src/massif-combine.cpp:160-202 | reading an opened file returns 0; every snapshot kept is non-empty, holds no keyword or marker line, and has the time of its last `time=` line (0 when there is none) |
| MassifParse.RunHeaders | src/massif-combine.cpp:151-157 | the header lines appended are the file's keyword lines in input order, or none when headers are ignored |
| MassifParse.ParseHeaders | src/massif-combine.cpp:151-157 | for a whole file: headers are exactly its keyword lines (none if ignored), and all of them are keyword lines |
| MassifParse.RunIgnoresHeaderFlag | src/massif-combine.cpp:153-157 | the state machine's status, open snapshot and kept snapshots do not depend on the ignore-header flag |
| MassifParse.ParseSnapshotsIgnoreHeaderFlag | src/massif-combine.cpp:153-157 | a file contributes the same snapshots whether or not its headers are kept |
| MassifParse.RunBeforeKeyword | src/massif-combine.cpp:144-196 | lines before the first keyword line, markers and `snapshot=` lines included, leave the parser in its initial state with nothing added |
| MassifParse.LeadingLinesIgnored | src/massif-combine.cpp:144-196 | prepending lines without a keyword line does not change what a file contributes |
| MassifParse.NoKeywordFileIgnored | src/massif-combine.cpp:144-202 | a file without keyword lines returns 0 and contributes no header and no snapshot |
| MassifParse.HeaderDropsLines | src/massif-combine.cpp:151-196 | in HEADER, lines that are neither keywords nor the marker are dropped and an open snapshot stays as it is |
| MassifParse.AddLineTime | src/massif-combine.cpp:190-193 | appending a body line keeps the snapshot's time equal to the value of its last `time=` line |
| MassifParse.StepBody | src/massif-combine.cpp:185-195 | one body line read in SNAPSHOT_CONTENT is appended to the open snapshot, whose time follows the last `time=` line |
| MassifParse.RunBody | src/massif-combine.cpp:185-195 | in SNAPSHOT_CONTENT, body lines are appended to the open snapshot in order, and its time becomes that of the last `time=` line |
| MassifWrite.EmitLines | src/massif-combine.cpp:97-104 | the output loop produces the header lines followed by one block per snapshot, block i named `snapshot=i` (equal to `Render`) |
| MassifWrite.SortByTime | src/massif-combine.cpp:87-91 | the result is sorted by ascending time and is a permutation of the input |
| MassifWrite.BlockAt | src/massif-combine.cpp:101-104 | the output block of snapshot i lies right after the blocks of snapshots 0..i-1 and is marker, `snapshot=i`, marker, then exactly that snapshot's body |
| MassifWrite.TagLineNumber | src/massif-combine.cpp:118-124 | dense numbering: the name line of block i reads back as the number i, between two marker lines |
| MassifWrite.TagLineRecognised | src/massif-combine.cpp:119-121 | the name line written is not a keyword line or the marker, and `snapshot=\d+` finds it |
| MassifWrite.RunBlock | src/massif-combine.cpp:118-124 | reading one written block closes the open snapshot and leaves exactly the written snapshot open |
| MassifWrite.RunBlocks | src/massif-combine.cpp:101-104 | reading the written blocks keeps every snapshot but the last, in order, and leaves the last one open |
| MassifWrite.RunHeaderBlock | src/massif-combine.cpp:97 | reading the written header lines keeps them all and ends in HEADER with nothing open |
| MassifWrite.RenderRoundTrip | src/massif-combine.cpp:81-124 | the output, read back with headers kept, gives code 0, exactly the same header lines and exactly the same snapshots in the same order |
| MassifWrite.BlocksNoKeyword | src/massif-combine.cpp:118-124 | no line of the written blocks is a keyword line |
| MassifWrite.HeaderlessRenderReadsEmpty | src/massif-combine.cpp:97-104 | an output written without header lines reads back as nothing |
| MassifCombine.AddManyCode | src/massif-combine.cpp:53-63 | adding a range returns 0 exactly when every file could be opened, 1 otherwise |
| MassifCombine.AddOneHeaders | src/massif-combine.cpp:71-73 | one `add` keeps the headers already held; with none held, the file's keyword lines become the headers |
| MassifCombine.AddManyHeaders | src/massif-combine.cpp:71-73 | header single capture: headers already held stay unchanged; otherwise they become the keyword lines of the first opened file that has any |
| MassifCombine.AddManySnapshots | src/massif-combine.cpp:53-73 | the snapshots become the old ones followed by every opened file's snapshots, file after file |
| MassifCombine.AppendSound | src/massif-combine.cpp:151-202 | pushing keyword header lines and retained snapshots keeps the accumulator holding only those |
| MassifCombine.AddOneSound | src/massif-combine.cpp:71-73 | adding a file keeps the accumulator holding only keyword header lines and non-empty snapshots |
| MassifCombine.RemergeReproduces | src/massif-combine.cpp:81-124 | merging a combined output alone gives back its headers and snapshots, with code 0 |
| MassifCombine.HeaderlessFileAddsNothing | src/massif-combine.cpp:144-202 | a file made only of snapshot blocks adds nothing and returns 0 |
| MassifCombine.PermutedWellFormed | src/massif-combine.cpp:87-91 | reordering the snapshots keeps each of them non-empty and well formed |
| MassifCombine.MassifFile.constructor | src/massif-combine.cpp:26-27 | a new accumulator is empty |
| MassifCombine.MassifFile.FromFiles | src/massif-combine.cpp:29-31 | constructing from paths leaves the state `add` over those paths gives |
| MassifCombine.MassifFile.AppendFile | src/massif-combine.cpp:127-203 | the loop's pushes into the fields equal `Parse`: headers and snapshots are extended by exactly what it says, and the code is its code; an unopenable file returns 1 and changes nothing |
| MassifCombine.MassifFile.Add | src/massif-combine.cpp:71-73 | ignores headers iff some are held; returns 0 for an opened file and 1 otherwise; headers become the file's keyword lines iff none were held |
| MassifCombine.MassifFile.AddAll | src/massif-combine.cpp:39-63 | every file is added even after a failure; the return is the last failing code, that is 0 iff all opened, else 1 |
| MassifCombine.MassifFile.Write | src/massif-combine.cpp:81-108 | with nothing held: -1, no output, no change; otherwise snapshots become a sorted permutation of themselves, headers stay, and the output is `Render` (1 and no output when the file cannot be created) |

## Left out

- Stream I/O: opening, reading, writing and closing files. An input file is
  given as its lines, or as `None` when it cannot be opened.
- MassifCombine.MassifFile.Write: the write and close failures (return
  codes 2 and 3) are not modelled. Only the open failure is a parameter.
- Line splitting by `std::getline`, including carriage-return handling:
  lines are taken as given.
- The `std::regex` engine: each pattern is replaced by the explicit string
  predicate it amounts to (`MassifText`).
- MassifText.TimeMatchLeftmost: `std::stoi` overflow is not modelled. The program
  throws an uncaught `out_of_range` for digit runs that do not fit an
  `int`; the model reads any digit run as a natural number.
- MassifWrite.SortByTime: `std::sort` is not stable, so the contract fixes
  no order among snapshots with equal times, only sortedness and
  permutation.
- The `shared_ptr` ownership of snapshots: snapshots are values.
- The command-line layer: `usage`, `fileExists`, `deleteFiles`, `listFile`
  (which runs `ls` through `popen`), `InputArgs` (`getopt`) and `main`. It
  is operating-system and process glue.
- Diagnostic messages on `std::cerr`/`std::cout`.
