# A verified model of the `shred` file and directory shredder

`shred` overwrites files with random data and fixed bit patterns. After every pass it
reads the file back and compares it with the random data that pass wrote last, and then
it removes the file, unless it was asked to keep it. Called on a
directory with `-r`, it walks the directory, shreds every regular file it finds, and
removes the directory once it is empty. This project models that core in Dafny and proves
what the program does at each level.

- **`overwrite.dfy` (module `Overwrite`): the byte level.**
  - It models one call of `overwriteWithRandomData` over a `FileStream`. The stream holds the file's bytes in an `array<bv8>` and keeps a ghost trace of every positioned write.
  - In plain mode, every block gets one random buffer. In secure mode, it gets the eight fixed patterns, a random buffer after each odd-indexed pattern, then 0x00, 0xFF and a final random buffer.
  - The offset loop, the nested pattern loop and the read-back loop are imperative methods with loop invariants. They are proved against spec functions: `PassWrites` gives the exact list of writes, and `PassContent` gives the bytes left behind.
  - `PassContentSurvives` proves that replaying a pass's writes over any prior content leaves exactly the last random buffer of every block.
- **`shredder.dfy` (module `Shredder`): the file system level.**
  - The file system is a map from paths to nodes (regular file, directory, symbolic link, other). Symbolic links are followed as `stat` does, up to 40 hops.
  - The pure function `ShredFileSpec` states `shredFile` completely:
    - the dry-run branch;
    - the empty-file branch;
    - the ten open attempts with one error per failure;
    - `max(0, n)` passes, each logged;
    - the removal, or a kept file.
  - The `Engine` class is the running program. Its fields are the file system, the message log, the printed output and counters for opens, removals and passes. It runs `shredFile`, the directory walk and `processPath` step by step. Its methods are proved equal to (or framed by) the spec functions.
  - `Shred` is `main` after the program name: it parses, asks for the `-i` confirmation, processes every path and logs the completion message.
- **`command_line.dfy` (module `CommandLine`): the argument loop of `main`.**
  - It handles grouped one-letter flags and both forms of `-n` (`-n5` and `-n 5`), where the value is read with `std::stoi`.
  - Exit codes are 2 for `-h` and 1 for an invalid flag, a missing count or no paths. An exception thrown by `std::stoi` becomes the `Aborted` outcome.
  - `ParseCommandLine` is the nested loop. It is proved equal to the recursive spec `Parse`, and lemmas about `Parse` state what the loop promises.
- **`logging.dfy` (module `Logging`): the filter of `logMessage`.** A message is printed when `-v` or `-i` is on, or when its level is not Info. `Visible` is the printed output of a log, and lemmas characterise it exactly.

What the model takes from outside is passed in as an `Environment`:

- the block size the platform reports;
- whether the k-th `open` and the k-th `std::remove`/`fs::remove` of the run succeed;
- what the random generator produces in each pass;
- which byte, if any, the device reads back wrong in each pass's read-back;
- how a command-line string names a path.

## Model

| member | source | states |
|---|---|---|
| Logging.ShouldPrint | shred.cpp:750 | the filter itself: a level is printed when -v or -i is on or the level is not Info; VisibleExactly and VisibleVerbose state what it lets through |
| Logging.Visible | shred.cpp:744-756 | the printed lines are among the logged ones, each of a level that passes the filter, and there are no more of them than logged lines |
| Logging.VisibleSnoc | shred.cpp:750-754 | logging one more message appends it to the output exactly when its level passes the filter |
| Logging.VisibleExactly | shred.cpp:750 | a message is printed if and only if it was logged and its level passes; without -v and -i this means exactly the messages that are not Info |
| Logging.VisibleVerbose | shred.cpp:750 | with -v or -i every logged message is printed, in order |
| Overwrite.Bytes | shred.cpp:885 | a filled buffer of length n holds, at each index, the byte its fill gives there |
| Overwrite.SecureBlockPlan | shred.cpp:891-922 | a block in secure mode receives exactly 15 writes: 00, FF, random, AA, 55, random, 3D, C2, random, 8E, 4E, random, 00, FF, random; in plain mode it receives one random buffer |
| Overwrite.BlockPlan | shred.cpp:884-922 | the fills one block receives, in order, as SecureBlockPlan, AllPatternFills and BlockPlanLast state |
| Overwrite.AllPatternFills | shred.cpp:891-905 | the nested pattern loop writes the eight patterns in order, with a fresh random buffer after each odd-indexed one |
| Overwrite.BlockPlanLast | shred.cpp:884-922 | the last write to every block is the block's last random buffer |
| Overwrite.Extents | shred.cpp:880-881 | the blocks the offset loop visits, from an offset on; ExtentsTile states how they tile the file |
| Overwrite.ExtentsTile | shred.cpp:880-881 | the offset loop's blocks start at multiples of the block size, each holds between 1 and bs bytes, they are contiguous, and the last one ends at the file size; there are none exactly when the file is empty |
| Overwrite.SpliceTwice | shred.cpp:887-888 | two writes of the same length at the same offset leave only the second one visible |
| Overwrite.ApplyAllAppend | shred.cpp:880-925 | replaying two lists of writes one after the other is replaying their concatenation |
| Overwrite.PlanLastWins | shred.cpp:891-922 | all the writes to one block leave it holding exactly the bytes of the last one |
| Overwrite.SurvivorsLength | shred.cpp:880-881 | the surviving bytes of a pass from an offset on cover exactly the rest of the file |
| Overwrite.PassLastWins | shred.cpp:880-925 | replaying a pass from an offset on leaves the prefix untouched and the rest holding each block's last random buffer |
| Overwrite.PassContentSurvives | shred.cpp:880-925 | whatever the file held before, replaying the whole pass leaves exactly PassContent |
| Overwrite.PassWrites | shred.cpp:880-925 | the positioned writes of one pass, block by block in order; OverwriteBlocks and OverwriteWithRandomData make exactly these |
| Overwrite.PassContent | shred.cpp:880-925 | the bytes a pass leaves: each block's last random buffer; PassContentSurvives proves replaying PassWrites over any content gives it |
| Overwrite.FileStream.WriteAt | shred.cpp:887-888 | seekp then write: the file's bytes at offset become the buffer's first n bytes, nothing else changes, and the write is appended to the trace |
| Overwrite.FileStream.ReadAt | shred.cpp:935 | the buffer's first n bytes become what the device returns for the file's bytes at offset: the stored bytes, except the one the read fault names, which reads back inverted; the rest of the buffer is unchanged |
| Overwrite.Observed | shred.cpp:935-938 | what the read-back returns has the file's length and differs from the stored bytes only at the faulty byte, and it differs at all exactly when the fault lies inside the file |
| Overwrite.FillConstant | shred.cpp:909 | every byte of the buffer becomes the given byte |
| Overwrite.FillNoise | shred.cpp:885 | the buffer holds the next buffer of the generator |
| Overwrite.VerifyReadBack | shred.cpp:927-946 | the check finds no mismatch if and only if what the device returns equals the saved copy; on a mismatch it stops at the first block that differs, after all earlier blocks matched |
| Overwrite.CompareBlock | shred.cpp:935-938 | one read compares equal if and only if the block the device returns equals the saved block |
| Overwrite.WritePattern | shred.cpp:892-904 | one iteration of the pattern loop appends the pattern write, and on odd passes a random write, to the trace, and uses one more random buffer exactly on odd passes |
| Overwrite.WritePatternPasses | shred.cpp:891-905 | the whole pattern loop appends exactly the pattern plan of the block to the trace and changes only that block |
| Overwrite.FinalWrites | shred.cpp:907-922 | the three writes after the pattern loop leave the block holding the final random buffer |
| Overwrite.OverwriteBlock | shred.cpp:884-924 | one block receives exactly its plan, plain or secure, and ends holding its last random buffer |
| Overwrite.CopyBlock | shred.cpp:886 | the block's bytes are copied into the saved copy at offset and nothing else in it changes |
| Overwrite.OffsetIteration | shred.cpp:880-924 | one iteration of the offset loop keeps its invariants: the remaining writes and surviving bytes step on by one block, and the saved copy agrees with the file on the finished prefix |
| Overwrite.OverwriteBlocks | shred.cpp:880-925 | the offset loop makes exactly the writes of PassWrites, leaves the file holding PassContent, and with verify on, leaves the saved copy equal to the file |
| Overwrite.OverwriteWithRandomData | shred.cpp:855-948 | one pass: the trace grows by exactly the pass's writes; the file then holds PassContent; the saved copy equals it when verify is on and is all zeros otherwise; the status is 1 exactly when verify is on and the read-back returns a wrong byte inside the file, and 0 otherwise |
| CommandLine.ValidFlagLetters | shred.cpp:735 | the letters the parser acts on are exactly those of "nrkvfsdchi" |
| CommandLine.Stoi | shred.cpp:1089-1090 | std::stoi as a value: skip white space, an optional sign, at least one digit, and a result that fits an int, with None for the exception; the Stoi lemmas below state what it reads |
| CommandLine.SkipSpacesSuffix | shred.cpp:1089-1090 | std::stoi's skip of leading white space leaves a suffix that does not start with white space |
| CommandLine.DigitPrefixOf | shred.cpp:1089-1090 | std::stoi reads the whole run of digits and stops at the first character that is not a digit |
| CommandLine.DecimalValue | shred.cpp:1089-1090 | the decimal spelling of n denotes n |
| CommandLine.StoiDigits | shred.cpp:1089-1090 | std::stoi on digits followed by a non-digit gives their value, or throws when that value does not fit an int |
| CommandLine.StoiNegative | shred.cpp:1089-1090 | std::stoi on a minus sign and digits gives the negated value, or throws when it does not fit |
| CommandLine.StoiDecimal | shred.cpp:1089-1090 | std::stoi reads back the decimal spelling of every int in range, positive or negative |
| CommandLine.StoiNeedsDigit | shred.cpp:1089-1090 | std::stoi throws on a string without a digit |
| CommandLine.ParseFrom | shred.cpp:1079-1115 | the outer argument loop from argument i on, as a recursive spec; the lemmas below state what it promises |
| CommandLine.ParseFlags | shred.cpp:1083-1104 | the inner loop over the letters of one flag group, from letter j on |
| CommandLine.Parse | shred.cpp:1079-1115 | the whole argument loop: an exit code, a std::stoi exception, or a run with its options and paths |
| CommandLine.ParseCommandLine | shred.cpp:1079-1115 | the nested argument loop computes exactly Parse(args) |
| CommandLine.FlagExits | shred.cpp:1087-1104 | -h exits with 2 and a letter outside the valid flags exits with 1 when the parse reaches that letter; a trailing -n with no argument after it exits with 1 |
| CommandLine.PlainArguments | shred.cpp:1106-1115 | arguments that are all paths are collected in order, with the default options |
| CommandLine.ParseOfPaths | shred.cpp:1106-1115 | a command line with no flags runs with the default options over exactly its arguments, and exits with 1 when it is empty |
| CommandLine.RunFilesFrom | shred.cpp:1106-1115 | a run gathered from argument i on has at least one path, and each path is an argument that is not a flag group |
| CommandLine.RunFiles | shred.cpp:1106-1115 | every run has at least one path, and each path is an argument that does not start with '-' |
| CommandLine.FromSuffix | shred.cpp:1079-1109 | what is parsed from argument i on depends only on the arguments from i on |
| CommandLine.CountSpellings | shred.cpp:1089-1090 | "-n" followed by v in the same argument parses like "-n" with v as the next argument |
| CommandLine.CountArgument | shred.cpp:1089-1090 | "-n" then v: on a value std::stoi accepts, parsing goes on after v with that count and the default options; on one it rejects, the run is Aborted |
| CommandLine.GroupedSwitches | shred.cpp:1083-1099 | two switches in one group act as they do in two separate groups |
| CommandLine.SwitchGroupFlags | shred.cpp:1083-1099 | a group of switch letters only sets options, one letter after the other, and parsing goes on with the next argument |
| CommandLine.SwitchesFrom | shred.cpp:1079-1109 | from argument i on, a command line whose flag groups are all switches exits with 1 when there are no paths at all, and otherwise runs with the options its switches set over exactly its paths, in order |
| CommandLine.SwitchesOnly | shred.cpp:1079-1115 | a command line of switches and paths exits with 1 exactly when it names no path, and otherwise runs with the options its switches set over exactly its paths |
| Shredder.Resolve | shred.cpp:1036-1062 | stat: follow links up to 40 hops, to a node, nothing, or too many links; ResolveFound states what it finds |
| Shredder.ResolveFound | shred.cpp:1040-1062 | what stat finds (fs::is_directory, fs::is_regular_file) is an existing node that is not a link, and it is the path itself when the path is not a link |
| Shredder.ShrinksTrans | shred.cpp:1134-1136 | two runs that only shrink the file system together only shrink it |
| Shredder.OpenFailures | shred.cpp:985-994 | the count of failed opens is bounded by the window, all the counted opens fail, and the one after them succeeds when it lies inside the window |
| Shredder.OpenFailuresIs | shred.cpp:985-994 | any k with that property is the count of failed opens |
| Shredder.EmptyFileSpec | shred.cpp:966-979 | the empty-file branch as a value; EmptyFileNotOverwritten states its result |
| Shredder.OpenSpec | shred.cpp:983-999 | the state after the ten-attempt open loop; OpenAtMostTenTimes states it |
| Shredder.Overwritten | shred.cpp:1001-1009 | the file's bytes after the passes, each pass with its own generator; ShreddedLength and ShreddedBytes state them |
| Shredder.PassesSpec | shred.cpp:1001-1011 | the state after the pass loop with its pass lines and the verification warning; OpenedFileSchedule states it |
| Shredder.FinishSpec | shred.cpp:1014-1024 | the removal or keep step as a value; OpenedFileSchedule states its result |
| Shredder.ShredFileSpec | shred.cpp:957-1031 | shredFile as a value over the run state, by its four branches; DryRunShredsNothing, EmptyFileNotOverwritten, OpenAtMostTenTimes and OpenedFileSchedule state what it does |
| Shredder.ReadBackFailsSome | shred.cpp:1001-1011 | the verification flag is set after the passes if and only if verify is on and some pass's read-back returned a wrong byte inside the file |
| Shredder.DryRunShredsNothing | shred.cpp:961-964 | a dry run succeeds, logs only the simulation message, and changes nothing else |
| Shredder.EmptyFileNotOverwritten | shred.cpp:966-979 | an empty file is never opened or overwritten; without -k it is removed, and the result is false exactly when that removal fails; with -k it stays and the result is true |
| Shredder.OpenAtMostTenTimes | shred.cpp:983-999 | the file is opened at most ten times; when all ten opens fail the result is false, nothing is written or removed, and ten open errors and one give-up error are logged |
| Shredder.OpenedFileSchedule | shred.cpp:983-1025 | once the file opens after k < 10 failed attempts: an Error for each of those, then exactly max(0, n) passes, in order, each logged; the verification warning follows exactly when a read-back failed; removal is tried without -k whatever the verification found; the result is false exactly when that removal fails; the opens, passes, removals and full log are stated |
| Shredder.FailedReadBackStillRemoves | shred.cpp:983-1021 | for a file that opens after any k < 10 failed attempts: after a failed read-back the warning is logged, and without -k the removal is still tried, the result is true exactly when it succeeds, and then the path is gone |
| Shredder.ShreddedLength | shred.cpp:1001-1009 | the file keeps its length through the passes |
| Shredder.ShreddedBytes | shred.cpp:1001-1024 | once the file has opened and at least one pass ran, a file that is still there (kept, or its removal failed) holds exactly the bytes of the last pass |
| Shredder.ShredFileFrame | shred.cpp:957-1031 | shredFile changes at most the target file and removes at most the path it was given; a dry run leaves the file system unchanged |
| Shredder.ShredFileShrinks | shred.cpp:957-1031 | shredding a regular file, directly or through a link, only shrinks the file system |
| Shredder.WalkStep | shred.cpp:1044-1046 | one entry of the walk as a value: shredFile through the entry when stat finds a regular file, and nothing otherwise |
| Shredder.WalkSpec | shred.cpp:1043-1047 | the walk as a value: WalkStep over the entries in the order visited |
| Shredder.ShreddedBy | shred.cpp:1043-1047 | the entries the walk shreds, those stat finds to be regular files when reached; they are all entries of the order |
| Shredder.WalkOf | shred.cpp:1043 | what recursive_directory_iterator visits: entries below the directory, each once, all of them unless an entry whose links loop made it throw |
| Shredder.RemoveDirectorySpec | shred.cpp:1049-1058 | the removal step as a value: fs::remove under no -k on an empty directory, with its Info or the handler's Error, and otherwise the kept or not-empty Warning |
| Shredder.DirectorySpec | shred.cpp:1041-1058 | the recursive case as a value: the entering Info, the walk, then the handler's Error when it threw, or the removal step |
| Shredder.WalkStepFrame | shred.cpp:1044-1046 | one step only shrinks the file system, removes at most the entry it visits, and keeps every other regular file a regular file |
| Shredder.WalkKeepsFiles | shred.cpp:1043-1047 | a regular file the walk has not reached yet is still a regular file |
| Shredder.ShreddedByPrefix | shred.cpp:1043-1047 | what a shorter walk shreds, the longer walk shreds too |
| Shredder.WalkShredsEveryFile | shred.cpp:1043-1047 | a walk that is not aborted shreds every regular file its directory held when it started |
| Shredder.ShredFileReports | shred.cpp:957-1031 | shredFile only appends to the log, and its last line reports on the path it was given |
| Shredder.WalkReports | shred.cpp:1043-1047 | the walk only appends to the log, and every file it shreds has a line reporting on it |
| Shredder.RemoveDirectoryEffect | shred.cpp:1049-1058 | the removal step logs one message and removes at most the directory's entry; it removes it exactly when -k is absent, stat finds it empty and fs::remove succeeds, exactly then the message is the deletion, and a removed directory leaves nothing below it |
| Shredder.DirectoryOutcome | shred.cpp:1041-1058 | a walk that is not aborted shreds every regular file below the directory, and the directory's entry is removed exactly when the walk was not aborted, -k is absent, the directory was empty after the walk and fs::remove succeeded |
| Shredder.Engine.Log | shred.cpp:744-756 | the message is appended to the log, the output stays the filtered log, and nothing else changes |
| Shredder.Engine.LogIf | shred.cpp:1011 | the message is logged exactly when the condition holds |
| Shredder.Engine.Remove | shred.cpp:1015 | std::remove is tried once, succeeds as the environment says, and on success the path is gone |
| Shredder.Engine.OpenWithRetries | shred.cpp:983-999 | the retry loop leaves the state OpenSpec describes, and the file is open exactly when fewer than ten opens failed |
| Shredder.Engine.OpenLoop | shred.cpp:985-994 | the opens counted as failed all failed, an error is logged for each, and the loop stops at the first success or after ten failures |
| Shredder.Engine.TryOpen | shred.cpp:986-993 | one open, succeeding as the environment says, with an Error appended to the open errors logged so far exactly when it fails |
| Shredder.Engine.RunPasses | shred.cpp:1001-1011 | the pass loop leaves the state PassesSpec describes: the file holds the last pass's bytes, and each pass is logged |
| Shredder.Engine.PassLoop | shred.cpp:1001-1009 | max(0, n) passes run, each logged, the file ends holding the bytes Overwritten gives, and the failure flag is set exactly when some pass's read-back failed |
| Shredder.Engine.OnePass | shred.cpp:1002-1006 | one pass over the whole file with that pass's generator and read fault, then its Info line; the status is 1 exactly when verify is on and the read fault lies inside the file |
| Shredder.Engine.Finish | shred.cpp:1014-1024 | the removal or keep step leaves the state FinishSpec describes |
| Shredder.Engine.ShredEmpty | shred.cpp:966-979 | the empty-file branch leaves the state EmptyFileSpec describes |
| Shredder.Engine.ShredFile | shred.cpp:957-1031 | shredFile returns and leaves exactly what ShredFileSpec describes |
| Shredder.Engine.VisitEntry | shred.cpp:1043-1046 | one entry of the walk: the iterator throws exactly when its links loop, and otherwise the state is WalkStep's: shredFile when stat finds a regular file, nothing else |
| Shredder.Engine.Walk | shred.cpp:1043-1047 | the state after the walk is WalkSpec over the order it visited; that order is a walk of the directory (WalkOf): entries below it, each once, all of them unless aborted, and an entry whose links loop when aborted; the file system only shrinks, and a dry run leaves it unchanged |
| Shredder.Engine.ShredDirectory | shred.cpp:1041-1058 | the state is DirectorySpec over the walk's order, which is a walk of the directory; the file system only shrinks beyond the directory's own entry; a dry run removes at most that entry; a removed directory leaves nothing below it |
| Shredder.Engine.RemoveDirectory | shred.cpp:1049-1058 | the removal step leaves the state RemoveDirectorySpec describes |
| Shredder.Engine.ProcessPath | shred.cpp:1034-1070 | a skipped link, a directory without -r, and a path of neither kind each log exactly their one message; a regular target is shredded exactly as ShredFileSpec says; a directory under -r leaves the state DirectorySpec gives over a walk of that directory; a removed directory needs -r and no -k and leaves nothing below it; the file system only shrinks |
| Shredder.Lower | shred.cpp:1130 | the reply keeps its length, no upper-case ASCII letter remains, each one becomes its lower-case letter, and every other character stays |
| Shredder.LowerTwice | shred.cpp:1130 | lowering twice is lowering once |
| Shredder.ConfirmingReplies | shred.cpp:1127-1131 | the run goes on after -i exactly when the reply is y or yes, each letter in either case |
| Shredder.ProcessAll | shred.cpp:1134-1145 | processing every path adds nothing to the disk; what disappears is a named path, a regular file or a link; every remaining regular file keeps its length and every other remaining node is unchanged; a dry run changes no remaining entry |
| Shredder.Shred | shred.cpp:1072-1148 | the parse's exit code, termination by a std::stoi exception, and exit 3 on an unconfirmed -i each leave the disk untouched and print nothing; otherwise the run ends with 0 and the disk only shrinks as ProcessAll states |

## Left out

- Random generation: `std::random_device`, `std::mt19937` and the reseeding are an oracle, `Environment.random`. The model does not state that the bytes are uniformly random or unpredictable.
- The block size query (`getOptimalBlockSize`, lines 824-852) is the parameter `Environment.blockSize`, which covers its 4096 fallback, and the Error a failed query logs in every pass is not modelled.
- `file.flush`, `file.close`, durability on the device and the kernel's caches are not modelled. A write through a `FileStream` takes effect at once.
- Device faults: a pass's read-back may return one byte wrong, as `Environment.readFault` says. Lost or short writes and short reads are not modelled.
- Shredder.Engine.Walk: does not fix the order of `recursive_directory_iterator`. The walk visits the entries present when it starts, and it does not descend through directory links under `-f`.
- Shredder.Engine.Walk: names each entry below the resolved directory, while the source logs `entry.path()` below the argument path. The two differ when the argument is a link to a directory, followed under `-f`.
- Timestamps and the "[MM-DD-YYYY HH:MM:SS] [LEVEL]" formatting: the model keeps each message's level and a structured event, not its text.
- The text on standard error is not modelled:
  - help;
  - the invalid-flag message;
  - the `-n` message;
  - "Incorrect usage";
  - the read-back offset under `-v`.
- The progress meter, the "Beginning Shred at" line, the `-i` parameter listing, the internal "Blocksize" and "DoD passes" lines, and the run time in the completion message are not modelled.
- The 500 ms sleep after each failed open is not modelled.
- Path handling: how an argument names a path is the parameter `Environment.locate`, so there is no normalisation. A path is a sequence of components.
- `fs::filesystem_error` exceptions become outcomes. A link chain over 40 hops makes the walk or `processPath` log "Filesystem error". A failed `fs::remove` of a directory also throws in the source, so the model logs "Filesystem error" there and never "Failed to delete directory".
- Other exceptions (`std::bad_alloc`, a failing `fs::file_size`) are not modelled.

## Where the model follows the code

These points differ from what the program's documentation says about itself. In each case the model does what the code does.

- A failed read-back does not stop the removal. The warning is logged and the file is still removed without `-k`.
- `main` returns 0 after processing, whatever failed.
- For `-n`, any value `std::stoi` accepts is used. A count of zero or less runs no pass, and the file is still removed and reported as shredded.
- There is no renaming before removal, no hashing and no permission handling.
- A dry run with `-r` still removes an empty top directory, because that branch does not check `-d`.
- Inside a walked directory, a link that resolves to a regular file is shredded through the link, even without `-f`. Its target is overwritten and the link itself is removed.
