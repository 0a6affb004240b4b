# merge_split_bam and hisat-3n-table, modelled in Dafny

This project models two small C++ programs that work on alignment records.

**merge_split_bam** (`merge_split_bam/merge_split_bam_htslib_omp.cpp`) reads
`<prefix>.<i>.bam` for `i` in `0 .. input_num-1`. It checks that every input
has the same reference dictionary as input 0, and puts every mapped record
into one bucket per reference, in reading order. It then counts the non-empty
references, ranks them by read count (largest first), and deals them round
robin to `output_num` outputs. Each output writes its references one after
another, each reference's records sorted by position, to
`<prefix>.sorted.split.<b>.<bam|sam>`.

**hisat-3n-table** (`hisat-3n-table/hisat_3n_table.cpp`) has three parts here:
- the option globals, set by `parseOption` and checked by `parseOptions`;
- the SAM line scanner `getSAMChromosomePos`, which reads RNAME and POS (columns 3 and 4 of the SAM format, section 1.4 of the SAMv1 specification);
- the line loop of `hisat_3n_table`, which skips header and unlocated lines, switches reference, grows the reference window block by block, rejects unsorted input and hands every other record line to the position table.

Files:
- `common.dfy`: `Option`, `Result`, `Init`, `Last`.
- `cnumbers.dfy`: `std::stoi` and `std::stoll`, with the leading-space, sign and digit-prefix rules of `strtol`, and their range failures; decimal printing (`%d`, `to_string`).
- `sorting.dfy`: an in-place sort by an integer key, standing for `std::sort`. It promises sortedness and a permutation, never a tie order.
- `merge_args.dfy`: argument rules, input and output paths, and the `snprintf` finding.
- `merge_spec.dfy`: specification functions for the merge program (buckets, statistics, the deal, the outputs) and their properties.
- `merge_split.dfy`: the merge program's `main` as imperative methods over an `array<seq<Rec>>` (one bucket per reference, grown and sorted in place).
- `sam_line.dfy`: tab splitting and `getSAMChromosomePos`.
- `table_options.dfy`: the option globals as a class `Settings` whose methods update its fields.
- `table_driver.dfy`: the `Positions` oracle, the window advance and the line loop.

External inputs become parameters:
- the files `sam_open` can open are a map from path to header and records; the output paths that cannot be opened are a set;
- the files `fileExist` reports are a set of paths;
- the lines `fgets` returns are a sequence of strings;
- `Positions` (declared in `position_3n_table.h`, which is not part of this model) is an oracle class. It records the loaded reference, the number of blocks loaded and the appended lines. A fixed function answers `meetNext` for the k-th load of a reference.

## Model

| member | source | states |
|---|---|---|
| `CNumbers.ParseLeadingInt` | hisat-3n-table/hisat_3n_table.cpp:180 | the reference definition of base-10 `strtol`/`strtoll` before the range check: leading white space skipped, one optional sign, the longest run of digits, trailing text ignored, no value without a digit |
| `CNumbers.Stoi` | merge_split_bam/merge_split_bam_htslib_omp.cpp:56-57 | a value `stoi` returns lies in the 32-bit `int` range; None where `stoi` throws |
| `CNumbers.Stoll` | hisat-3n-table/hisat_3n_table.cpp:180 | a value `stoll` returns lies in the 64-bit range; None where `stoll` throws |
| `CNumbers.NatToString` | merge_split_bam/merge_split_bam_htslib_omp.cpp:155 | `to_string` of a natural is a non-empty digit string, without a leading zero, whose value is the number |
| `CNumbers.NatToStringInjective` | merge_split_bam/merge_split_bam_htslib_omp.cpp:155 | different numbers print differently |
| `CNumbers.ParseNatToString` | hisat-3n-table/hisat_3n_table.cpp:180 | the leading-integer parse reads back a printed natural followed by any non-digit text |
| `CNumbers.ParseNegative` | hisat-3n-table/hisat_3n_table.cpp:180 | the parse reads `-` followed by a printed natural as its negative |
| `CNumbers.StoiNatToString` | merge_split_bam/merge_split_bam_htslib_omp.cpp:56-57 | `stoi` reads back any printed count up to `INT_MAX` |
| `CNumbers.StollNatToString` | hisat-3n-table/hisat_3n_table.cpp:180 | `stoll` reads back any printed position up to `LLONG_MAX` |
| `Sorting.SortBy` | merge_split_bam/merge_split_bam_htslib_omp.cpp:121-123 | `std::sort` with a key comparison leaves the array sorted by the key and a permutation of what it held |
| `MergeSplitArgs.ParseExtras` | merge_split_bam/merge_split_bam_htslib_omp.cpp:60-70 | the extra arguments pass exactly when they form `--out BAM` or `--out SAM` pairs; the last pair picks the format (BAM without one); otherwise the error is that of the first bad pair |
| `MergeSplitArgs.ParseArgs` | merge_split_bam/merge_split_bam_htslib_omp.cpp:50-71 | fewer than four `argv` entries is a usage error; an unparsable count is fatal; then a bad extra argument; then a count `<= 0`; success exactly when none of these occur, with the prefix, both counts and the format |
| `MergeSplitArgs.CommandLineRoundTrip` | merge_split_bam/merge_split_bam_htslib_omp.cpp:50-71 | a command line built from a prefix, two printed positive counts and well-formed `--out` pairs meets every condition under which `ParseArgs` succeeds, and `stoi` reads the counts back |
| `MergeSplitArgs.InputPath` | merge_split_bam/merge_split_bam_htslib_omp.cpp:91 | the reference definition of input `i`'s path, `prefix.i.bam`, as the format string intends it (no truncation) |
| `MergeSplitArgs.OutputPath` | merge_split_bam/merge_split_bam_htslib_omp.cpp:153-155 | the reference definition of output `b`'s path, `prefix.sorted.split.b.` followed by `bam` or `sam` |
| `MergeSplitArgs.InputPathInjective` | merge_split_bam/merge_split_bam_htslib_omp.cpp:91 | `prefix.i.bam` names distinct files for distinct inputs |
| `MergeSplitArgs.OutputPathInjective` | merge_split_bam/merge_split_bam_htslib_omp.cpp:153-155 | `prefix.sorted.split.b.ext` names distinct files for distinct outputs, and the extension determines the format |
| `MergeSplitArgs.OutputIsNeverInput` | merge_split_bam/merge_split_bam_htslib_omp.cpp:153-155 | no output path equals an input path `prefix.i.bam`, so an output never overwrites an input |
| `MergeSplitArgs.Truncate` | merge_split_bam/merge_split_bam_htslib_omp.cpp:74-75 | `snprintf` into `char[1024]` keeps the longest prefix that fits: the whole string when it is shorter than the buffer, otherwise its first 1023 characters |
| `MergeSplitArgs.InputPathAsWritten` | merge_split_bam/merge_split_bam_htslib_omp.cpp:91 | the input path as the code builds it: `prefix.i.bam` cut to the first 1023 characters |
| `MergeSplitArgs.InputPathAsWrittenCollides` | merge_split_bam/merge_split_bam_htslib_omp.cpp:74-75 | with a 1021-character prefix, the paths of inputs 1 and 10 as the code builds them are the same truncated string |
| `MergeSplitArgs.InputPathAsWrittenShort` | merge_split_bam/merge_split_bam_htslib_omp.cpp:91 | when the path fits the buffer, the code's path is `prefix.i.bam` |
| `MergeSplitSpec.SameDictionaryIsEquality` | merge_split_bam/merge_split_bam_htslib_omp.cpp:40-47 | same count and the same name and length at every index is equality of dictionaries, so compatibility is reflexive, symmetric and transitive |
| `MergeSplitSpec.MappedRecords` | merge_split_bam/merge_split_bam_htslib_omp.cpp:103 | the records kept all have `0 <= tid < n_targets` |
| `MergeSplitSpec.Bucket` | merge_split_bam/merge_split_bam_htslib_omp.cpp:104 | a reference's bucket holds only records with that `tid`, and never more than were read |
| `MergeSplitSpec.Buckets` | merge_split_bam/merge_split_bam_htslib_omp.cpp:86 | there is one bucket per reference of the master header |
| `MergeSplitSpec.BucketAppend` | merge_split_bam/merge_split_bam_htslib_omp.cpp:90-109 | loading more records appends their bucket to the bucket so far, so read order is kept across inputs |
| `MergeSplitSpec.BucketCount` | merge_split_bam/merge_split_bam_htslib_omp.cpp:102-105 | a record occurs in bucket `t` as often as it was read when its `tid` is `t`, and never otherwise |
| `MergeSplitSpec.MappedCount` | merge_split_bam/merge_split_bam_htslib_omp.cpp:103 | a record is kept as often as it was read exactly when it is mapped |
| `MergeSplitSpec.UnmappedInNoBucket` | merge_split_bam/merge_split_bam_htslib_omp.cpp:103 | an unmapped record is in no bucket |
| `MergeSplitSpec.BucketsPartitionMapped` | merge_split_bam/merge_split_bam_htslib_omp.cpp:86-109 | the buckets together hold exactly the mapped records, each as often as read |
| `MergeSplitSpec.GatherFrame` | merge_split_bam/merge_split_bam_htslib_omp.cpp:175-176 | what an output writes depends only on the buckets of its own references |
| `MergeSplitSpec.GatherAppend` | merge_split_bam/merge_split_bam_htslib_omp.cpp:175-189 | writing two lists of references one after the other writes the first list's records, then the second's |
| `MergeSplitSpec.GatherBucketAbsent` | merge_split_bam/merge_split_bam_htslib_omp.cpp:175-189 | if no listed bucket holds a record of a reference, the output holds none either |
| `MergeSplitSpec.GatherCount` | merge_split_bam/merge_split_bam_htslib_omp.cpp:175-189 | an output over distinct references holds a record as often as its bucket does when its reference is listed, and never otherwise |
| `MergeSplitSpec.GatherBucket` | merge_split_bam/merge_split_bam_htslib_omp.cpp:175-189 | in an output, the records of one reference are exactly that reference's bucket, in bucket order, if it is listed, and none otherwise |
| `MergeSplitSpec.StatsForPermutation` | merge_split_bam/merge_split_bam_htslib_omp.cpp:115-123 | ranking the statistics keeps them describing the buckets: each non-empty reference once, with its read count |
| `MergeSplitSpec.DealtMembers` | merge_split_bam/merge_split_bam_htslib_omp.cpp:132-135 | an id goes to output `b` exactly when it stands at an index `i` with `i % output_num == b` |
| `MergeSplitSpec.Dealt` | merge_split_bam/merge_split_bam_htslib_omp.cpp:132-135 | the reference definition of `bucket_chrs[b]`: the ranked ids at indices congruent to `b`, in rank order |
| `MergeSplitSpec.DealtExactlyOnce` | merge_split_bam/merge_split_bam_htslib_omp.cpp:132-135 | every ranked reference goes to exactly one output, `i % output_num` |
| `MergeSplitSpec.DealtDistinct` | merge_split_bam/merge_split_bam_htslib_omp.cpp:132-135 | no output lists a reference twice |
| `MergeSplitSpec.DealtAt` | merge_split_bam/merge_split_bam_htslib_omp.cpp:132-135 | output `b` lists the ids at indices `b, b+n, b+2n, …` in that order, and all of them |
| `MergeSplitSpec.DealtIsDisjoint` | merge_split_bam/merge_split_bam_htslib_omp.cpp:131-135 | no two outputs (nor two places of one output) list the same reference, so the parallel writers never share a bucket |
| `MergeSplitSpec.DealtSingleOutput` | merge_split_bam/merge_split_bam_htslib_omp.cpp:132-135 | with one output, it gets every ranked reference, in rank order |
| `MergeSplitSpec.DealExample` | merge_split_bam/merge_split_bam_htslib_omp.cpp:132-135 | references ranked A, B, C dealt to two outputs: A and C to output 0, B to output 1 |
| `MergeSplitSpec.DealtValid` | merge_split_bam/merge_split_bam_htslib_omp.cpp:132-135 | dealing valid reference ids gives every output valid ids |
| `MergeSplitSpec.OutputRecords` | merge_split_bam/merge_split_bam_htslib_omp.cpp:175-189 | the reference definition of what output `b` receives: the sorted buckets of the references dealt to it, one after another in dealing order |
| `MergeSplitSpec.OutputsPartitionMapped` | merge_split_bam/merge_split_bam_htslib_omp.cpp:170-189 | all outputs together hold exactly the mapped input records, each as often as read; no unmapped record is written |
| `MergeSplitSpec.OutputBucket` | merge_split_bam/merge_split_bam_htslib_omp.cpp:175-189 | within an output, a reference's records are its sorted bucket when dealt there and absent otherwise, and they are in position order |
| `MergeSplitSpec.OutputsDisjoint` | merge_split_bam/merge_split_bam_htslib_omp.cpp:131-135 | the records of one reference appear in at most one output |
| `MergeSplit.InputError` | merge_split_bam/merge_split_bam_htslib_omp.cpp:92-99 | an input loads exactly when it opens, has a header, and the header equals the master's |
| `MergeSplit.HeadersCompatible` | merge_split_bam/merge_split_bam_htslib_omp.cpp:40-47 | the early-return loop answers true exactly when the two dictionaries are equal |
| `MergeSplit.LoadRecords` | merge_split_bam/merge_split_bam_htslib_omp.cpp:101-106 | the read loop of one input appends to each reference's bucket its records in read order, and skips unmapped ones |
| `MergeSplit.LoadInputs` | merge_split_bam/merge_split_bam_htslib_omp.cpp:88-109 | all inputs load exactly when each opens, has a header and matches the master; the first failing input decides the error; on success the buckets are those of all records in input order |
| `MergeSplit.CollectStats` | merge_split_bam/merge_split_bam_htslib_omp.cpp:112-119 | the statistics list each non-empty reference once, with its read count, in increasing `tid` order |
| `MergeSplit.RankStats` | merge_split_bam/merge_split_bam_htslib_omp.cpp:120-123 | the ranked statistics are a permutation with read counts non-increasing |
| `MergeSplit.Deal` | merge_split_bam/merge_split_bam_htslib_omp.cpp:130-135 | the `push_back` loop builds for every output the ids dealt to it |
| `MergeSplit.SortRecords` | merge_split_bam/merge_split_bam_htslib_omp.cpp:176-178 | `sort` with `Rec::operator<` (position only, lines 30-32) leaves a permutation sorted by position |
| `MergeSplit.OpenOutputs` | merge_split_bam/merge_split_bam_htslib_omp.cpp:153-165 | all outputs open exactly when no output path is unopenable; otherwise the first unopenable path is fatal |
| `MergeSplit.WriteOutput` | merge_split_bam/merge_split_bam_htslib_omp.cpp:175-189 | one output sorts each of its references in place and writes them one after another; other buckets are untouched and every bucket keeps its records |
| `MergeSplit.OthersUnaffected` | merge_split_bam/merge_split_bam_htslib_omp.cpp:169-176 | writing one output leaves what the outputs before it wrote unchanged |
| `MergeSplit.LoadedAssigned` | merge_split_bam/merge_split_bam_htslib_omp.cpp:131-135 | every non-empty reference is assigned to some output |
| `MergeSplit.WriteOutputs` | merge_split_bam/merge_split_bam_htslib_omp.cpp:169-196 | the loop over outputs writes each output's references, sorts every assigned bucket, leaves unassigned buckets alone and keeps every bucket's records |
| `MergeSplit.SplitLoaded` | merge_split_bam/merge_split_bam_htslib_omp.cpp:111-196 | from loaded buckets: success exactly when every output opens; then the statistics, the deal, sorted permutations of the buckets, and each sink holding the master header and its references' records |
| `MergeSplit.SplitWritesMappedOnce` | merge_split_bam/merge_split_bam_htslib_omp.cpp:170-189 | after a successful run, the output files together hold every mapped input record exactly as often as it was read, and no unmapped record |
| `MergeSplit.MergeSplit` | merge_split_bam/merge_split_bam_htslib_omp.cpp:73-196 | the fatal conditions in the order `main` meets them (input 0, each input, each output), and on success the outcome over the buckets of all inputs' records |
| `SamLine.FindTab` | hisat-3n-table/hisat_3n_table.cpp:176 | `line.find('\t', start)` gives the first tab at or after `start`, or none |
| `SamLine.FieldsJoin` | hisat-3n-table/hisat_3n_table.cpp:176-186 | the tab-separated fields are tab-free and joined with tabs give the line back |
| `SamLine.JoinFields` | hisat-3n-table/hisat_3n_table.cpp:176-186 | splitting tab-free fields joined with tabs gives the fields back |
| `SamLine.JoinTabsInjective` | hisat-3n-table/hisat_3n_table.cpp:176-186 | two lists of tab-free fields that join to the same line are equal |
| `SamLine.GetSAMChromosomePos` | hisat-3n-table/hisat_3n_table.cpp:174-188 | three fields or fewer: false, nothing stored; four: false, only RNAME stored; five or more: `stoll` of POS throws, or RNAME and POS are stored and the result is RNAME != `*` |
| `SamLine.LocatedLine` | hisat-3n-table/hisat_3n_table.cpp:174-188 | a line with a mapped RNAME, a printed position and at least one more field is located at that reference and position |
| `TableOptions.ToUpper` | hisat-3n-table/hisat_3n_table.cpp:115-116 | `toupper` maps lower-case letters to upper case and leaves every other character alone |
| `TableOptions.Settings.constructor` | hisat-3n-table/hisat_3n_table.cpp:22-36 | the globals start with stdin input, no file names, no flags and base change `'0','0'` |
| `TableOptions.Settings.ParseOption` | hisat-3n-table/hisat_3n_table.cpp:86-128 | one option updates the globals as its case does, and throws 1 for a missing file, a malformed base change or an unknown option, 0 for help |
| `TableOptions.OptionThrow` | hisat-3n-table/hisat_3n_table.cpp:86-128 | the reference definition of when `parseOption` throws and what: 1 for a missing `-a` (other than `-`) or `-r` file, a malformed `-b` or an unknown option, 0 for `-h` |
| `TableOptions.OptionEffect` | hisat-3n-table/hisat_3n_table.cpp:86-128 | the reference definition of the globals each option sets: file names stored before their check, upper-cased bases only for a well-formed `-b`, the flags, `-p` ignored |
| `TableOptions.Settings.CheckOptions` | hisat-3n-table/hisat_3n_table.cpp:140-166 | the post-loop checks in their order, CG-only mode forcing C,T before the base change is required |
| `TableOptions.Settings.ParseOptions` | hisat-3n-table/hisat_3n_table.cpp:130-166 | from the initial globals, the option loop stops at the first throw, and otherwise the checks decide |
| `TableOptions.ParseAll` | hisat-3n-table/hisat_3n_table.cpp:130-137 | the reference definition of the `getopt_long` loop: each option's effect in order, ending at the first option that throws, with its status |
| `TableOptions.Options` | hisat-3n-table/hisat_3n_table.cpp:130-166 | the reference definition of `parseOptions` from the initial globals: the option loop, then the checks |
| `TableOptions.PrefixThrowIsFinal` | hisat-3n-table/hisat_3n_table.cpp:133-138 | once an option throws, the options after it do not change the outcome |
| `TableOptions.BaseChangeAccepted` | hisat-3n-table/hisat_3n_table.cpp:109-118 | `--base-change` is accepted exactly when its argument has length 3 with `,` in the middle, and then stores both ends upper-cased; otherwise it throws 1 |
| `TableOptions.BaseChangeUpperCase` | hisat-3n-table/hisat_3n_table.cpp:115-116 | a base change of two letters stores two upper-case letters |
| `TableOptions.ValidateSpec` | hisat-3n-table/hisat_3n_table.cpp:140-166 | validation passes exactly when both files are named, a base change is given or CG-only supplies it, and neither exclusive pair is set; errors are 1; what passes has both bases set, C,T under CG-only, and is otherwise unchanged |
| `TableOptions.Validate` | hisat-3n-table/hisat_3n_table.cpp:138-165 | the reference definition of the checks after the option loop, in their order: missing file name, CG-only override, missing base change, the two exclusive pairs |
| `TableOptions.ParseAllChecksFiles` | hisat-3n-table/hisat_3n_table.cpp:88-104 | after the loop, a named alignment file is stdin exactly when it is `-`, and every named file other than stdin exists |
| `TableOptions.OptionKeepsFilesChecked` | hisat-3n-table/hisat_3n_table.cpp:86-128 | an option that does not throw keeps the file names checked |
| `TableOptions.OptionsAccepted` | hisat-3n-table/hisat_3n_table.cpp:130-166 | accepted options name an existing reference, an alignment source (stdin exactly for `-`, else an existing file), a usable base change, and no exclusive pair |
| `TableOptions.HelpExitsZero` | hisat-3n-table/hisat_3n_table.cpp:125 | `-h` after options that pass ends parsing with status 0, whatever follows |
| `TableOptions.CGOnlySuppliesBaseChange` | hisat-3n-table/hisat_3n_table.cpp:146-152 | `-r ref -a sam -c` without `--base-change` is accepted, as C,T |
| `TableDriver.Step` | hisat-3n-table/hisat_3n_table.cpp:235 | after a load the window end moves by at least one block (`LOADING_BLOCK_SIZE`) and at most `INF`, the step taken once the reference's end is met |
| `TableDriver.Positions.constructor` | hisat-3n-table/hisat_3n_table.cpp:205 | the position table starts with no reference loaded and no line appended |
| `TableDriver.Positions.LoadNewChromosome` | hisat-3n-table/hisat_3n_table.cpp:233-234 | loading a reference makes it current, with one block loaded |
| `TableDriver.Positions.LoadMore` | hisat-3n-table/hisat_3n_table.cpp:243-244 | loading more adds one block of the current reference |
| `TableDriver.Positions.AppendSync` | hisat-3n-table/hisat_3n_table.cpp:255 | the line is appended, nothing else changes |
| `TableDriver.Advanced` | hisat-3n-table/hisat_3n_table.cpp:240-246 | the reference definition of the window loop: while the position lies beyond the window end, load one more block and move the end by INF or LOADING_BLOCK_SIZE; the end reached and the number of loads |
| `TableDriver.AdvancedCovers` | hisat-3n-table/hisat_3n_table.cpp:240-246 | the grown window covers the position and overshoots it by less than one step; a covering window is left alone; every load moves the end by at least one block |
| `TableDriver.AdvancedOverflowsLongLong` | hisat-3n-table/hisat_3n_table.cpp:240-246 | for a POS above the last multiple of INF below LLONG_MAX (which `stoll` accepts), on a reference whose first block meets its end, the window end the loop computes exceeds LLONG_MAX |
| `TableDriver.AdvanceWindow` | hisat-3n-table/hisat_3n_table.cpp:240-246 | the inner loop ends with the window end and the load count that growing until the position is covered gives |
| `TableDriver.KindAt` | hisat-3n-table/hisat_3n_table.cpp:221-227 | each line is classified on its own: skipped, located, or throwing in `stoll` |
| `TableDriver.Classify` | hisat-3n-table/hisat_3n_table.cpp:225-227 | the reference definition of what the loop does with one line: skip empty and `@` lines and lines `getSAMChromosomePos` rejects, throw where `stoll` does, otherwise a record |
| `TableDriver.SortedRunsAppend` | hisat-3n-table/hisat_3n_table.cpp:248-256 | a record keeps the input sorted exactly when it is not below the previous record of its run, or below 0 at a run's start |
| `TableDriver.GroupedSortedPasses` | hisat-3n-table/hisat_3n_table.cpp:248-252 | input with non-negative positions, sorted within every reference, passes the check |
| `TableDriver.ReturningReferenceAccepted` | hisat-3n-table/hisat_3n_table.cpp:230-236 | returning to an earlier reference starts a new run, so a smaller position there is accepted |
| `TableDriver.HeaderLinesSkipped` | hisat-3n-table/hisat_3n_table.cpp:225 | empty lines and lines starting with `@` are skipped |
| `TableDriver.RecordLine` | hisat-3n-table/hisat_3n_table.cpp:225-227 | a non-header line with a mapped RNAME and a printed position is a record at that reference and position |
| `TableDriver.ScanLine` | hisat-3n-table/hisat_3n_table.cpp:222-227 | the filter and `getSAMChromosomePos` classify the line, and for a record hand back its reference and position |
| `TableDriver.MoveTo` | hisat-3n-table/hisat_3n_table.cpp:229-246 | on a first or new reference it loads it, resets `lastPos` to 0 and restarts the window; the window then grows until it covers the position |
| `TableDriver.PlaceRecord` | hisat-3n-table/hisat_3n_table.cpp:229-256 | a record is appended exactly when it is not below `lastPos` (0 after a switch), and then becomes `lastPos` |
| `TableDriver.Table` | hisat-3n-table/hisat_3n_table.cpp:221-285 | the loop ends normally, and `main` exits 0, exactly when no line throws and the records are sorted run by run, having appended every record's line, and only those, in input order; otherwise it stops at the first throwing or out-of-order line, having appended the records before it |
| `TableDriver.ExitStatus` | hisat-3n-table/hisat_3n_table.cpp:267-285 | the reference definition of the status `main` returns for the loop's outcome: 0 at the end of input (line 267), 1 for an unsorted record (line 251) or a `stoll` exception caught at lines 274-278 |

## Left out

- htslib I/O: opening, reading and writing files become a map of files and a set of unopenable output paths. `sam_read1` stops at end of file; its read errors, which the code also treats as the end, are not modelled.
- Duplicating and destroying records (`bam_dup1`, `bam_destroy1`), header duplication (`bam_hdr_dup`, whose failure is fatal) and `sam_hdr_write` failure are not modelled; the model assumes they succeed.
- The per-record write failure (merge lines 181-188): the code logs it and continues. The model assumes every write succeeds.
- OpenMP: the parallel loop over outputs is a sequential loop. This is sound because the deal gives every output its own references (`MergeSplitSpec.DealtIsDisjoint`), so no two iterations touch the same bucket.
- All logging (`cerr`, the distribution and mapping printouts) and the memory release loops.
- Integer widths: `tid` is `int32_t`, positions are `int64_t`, and read counts are `uint64_t`; the model uses unbounded integers. Values `stoi`/`stoll` return are bounded by their contracts.
- TableDriver.Table: `reloadPos` is a `long long` and the model's is unbounded; the overflow of `reloadPos += INF` for a POS near LLONG_MAX is recorded under Findings and otherwise not modelled.
- `Positions` (`position_3n_table.h`) is not part of this model. It is an oracle for the current reference, the number of blocks loaded, the appended lines and the `meetNext` answer. `startOutput`, `outputFunction`, the detached output thread and the final `sleep_for` are left out, as concurrency and timing.
- The driver compares the new record's reference with `positions.chromosome`; the model takes `loadNewChromosome(name)` to set it to `name`.
- `asc2dnacomp` (the complement table used at the end of `parseOptions`) lives in an unseen header and is left out.
- `fileExist` becomes a set of existing paths. `getopt_long` is left out: the model starts from the sequence of options it returns. `printHelp` is output only.
- `fopen` failure of the alignment file and the 1000007-byte `fgets` buffer (a longer line would be split in two) are left out: the model reads whole lines.
- Strings are sequences of characters, one per byte; `toupper` is the C locale's.
- Where the code's behaviour is easy to misread, the model follows the code:
  - equal positions within a run are accepted (`lastPos > samPos` fails, not `>=`);
  - `lastPos` restarts at 0 on each reference switch, so a negative POS at the start of a run fails, and returning to an earlier reference starts a new run;
  - read counts are ranked by `std::sort` on the count alone, with no `tid` tie-break, so only a non-increasing permutation is promised, never a tie order.
- MergeSplit.MergeSplit: uses the input paths `prefix.i.bam` in full. The code truncates them to 1023 characters (see Findings), and the model follows the evidently intended paths.

## Findings

| source | as written | input that shows it | evidently intended | confidence | as-written member | corrected member |
|---|---|---|---|---|---|---|
| merge_split_bam/merge_split_bam_htslib_omp.cpp:74-75 | input paths are built with `snprintf` into `char path[1024]`, which silently truncates them to 1023 characters | a prefix of 1021 characters: every input path becomes `<prefix>.<first digit of i>` (input 0 opens `<prefix>.0`, inputs 1 and 10 both `<prefix>.1`), so none of the intended `<prefix>.<i>.bam` files is read, and unless files with the truncated names exist the run dies with "Failed to open" | every input `i` is read from `<prefix>.<i>.bam` (the output paths, built with `std::string`, are never truncated) | not executed | `MergeSplitArgs.InputPathAsWrittenCollides` | `MergeSplitArgs.InputPathInjective` |
| hisat-3n-table/hisat_3n_table.cpp:241-245 | `reloadPos` is a `long long` grown by `reloadPos += meetNext ? INF : LOADING_BLOCK_SIZE` until it reaches `samPos`, with no bound check | a record with POS 9223372036854775807 (LLONG_MAX, accepted by `stoll`) on a reference whose blocks meet its end: the last addition goes past LLONG_MAX, which is undefined behaviour | the window end, computed without overflow (as the model's unbounded `Advanced` does), covers the position and overshoots it by less than INF | not executed | `TableDriver.AdvancedOverflowsLongLong` | `TableDriver.AdvancedCovers` |
