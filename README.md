# QDYN pulse comments, pulse config attributes and block splitting, in Dafny

This project models three pieces of the `rydberg_parallelization` Python
repository, `src/blocksplitting.py` and two classes of its copy of QDYN's
`src/qdyn/pulse.py`, and proves properties of the models.

- **Block splitting** (`blocksplitting.dfy`, module `BlockSplitting`).
  `split_AB` and `split_AB_blocks` take an upper-triangular sparse matrix
  made of rectangular blocks on its diagonal. The block heights come as a
  list, and zero heights are discarded.
  - A matrix is modelled as its list of stored entries `Entry(row, col,
    value)` in coordinate order.
  - The scan of each function is a prefix-recursive specification function:
    `ScanAB` for `split_AB` and `ScanBlocks` for `split_AB_blocks`.
  - The methods `SplitAB` and `SplitABBlocks` are the source's `for` loops.
    Each is proved equal to its specification, `SplitABSpec` or
    `SplitBlocksSpec`.
  - `next()` running out of heights is the `StopIteration` the source
    raises. It is modelled as `Err(HeightsExhausted)`.
  - The source's sorted-rows `assert` becomes a precondition of the two
    methods. The upper-triangular `assert` is not modelled: the scan never
    looks at where an entry lies relative to the diagonal.
  - Each entry consumes at most one height, because the boundary test is an
    `if`, not a `while`. This is kept as written.
    - `SplitABFollowsBlocks` proves the documented alternation when no block
      is skipped.
    - `SkippedBlockSplitsItsEntries` shows that an entry-less block between
      two others splits the next block's entries across both results.
- **Config attributes** (`pulse_config.dfy`, module `PulseConfig`).
  `_PulseConfigAttribs` is the ordered mutable mapping of a pulse's
  config-file attributes. It is the class `ConfigAttribs`:
  - the key list is a `seq<string>` field and the stored values are a `map`
    field;
  - the parent pulse is the class `Pulse`, reduced to its `time_unit`,
    `ampl_unit` and `is_complex` attributes;
  - the mapping and the pulse are changed in place by `Set` (`__setitem__`)
    and `Delete` (`__delitem__`).

  Python's `!=` between values is modelled by `PyEq`, in which `True == 1`
  and `False == 0`. A copy made by `Copy` shares its parent pulse with the
  original, as in the source. So a unit key set on the copy reaches the
  original too (`EditCopy`).
- **Pulse comments** (`pulse_comments.dfy`, module `PulseComments`). This
  covers the comment lines of a pulse file:
  - `Pulse.read` sorts every line that starts with `#` into the preamble
    (before the first other line) or the postamble, stripped. It then pops
    the header line off the preamble. These are `ReadComments`,
    `SplitComments` and their specification `ReadSpec`.
  - `Pulse.write` renders the preamble and postamble. These are
    `RenderComments` and `RenderPostambleAsWritten`, with the whole file in
    `WriteAsWritten` and `Write`.
  - `Pulse.oct_iter` finds the OCT iteration number with the regular
    expression `OCT iter[\s:]*(\d+)`, case-insensitive. This is `OctIter`,
    built on `Search` and `MatchAt`.

  `str.strip()` uses the whitespace set of `str.isspace()`. Iterating a file
  yields its lines, each with its newline; the last line may lack one
  (`FileLines`).

`outcomes.dfy` (module `Outcomes`) holds the `Result`, `Outcome` and
`Option` datatypes shared by the three modules.

## Model

| member | source | states |
|---|---|---|
| BlockSplitting.RowsSorted | src/blocksplitting.py:37 | the sorted-rows `assert`: the row indices of the entries never decrease; a precondition of both methods |
| BlockSplitting.NonZero | src/blocksplitting.py:40 | the heights kept are non-zero, come from the input, and are no more than it |
| BlockSplitting.NonZeroConcat | src/blocksplitting.py:40 | discarding zero heights distributes over concatenation |
| BlockSplitting.NonZeroSkipsZero | src/blocksplitting.py:40 | a zero height is dropped wherever it sits in the list |
| BlockSplitting.ZeroHeightsIgnored | src/blocksplitting.py:24-26 | inserting a zero height anywhere changes neither function's result, as the docstring's "0 values are discarded" promises |
| BlockSplitting.StartAB | src/blocksplitting.py:40-42 | defines the state before the loop: `selector` 1, `n_row_limit` the first non-zero height minus one, or `HeightsExhausted` when there is none |
| BlockSplitting.Route | src/blocksplitting.py:54-56 | defines the append of an entry to the list the selector names, recording the crossings made so far |
| BlockSplitting.StepAB | src/blocksplitting.py:48-56 | defines one iteration: an entry whose row exceeds the limit consumes exactly one more height (an `if`, not a `while`) and toggles the selector, or fails with `HeightsExhausted`; then the entry is routed |
| BlockSplitting.ScanAB | src/blocksplitting.py:40-56 | defines the loop on a prefix of the entries: the start state, then one step per entry, stopping at the first error |
| BlockSplitting.SplitABSpec | src/blocksplitting.py:40-56 | defines `split_AB` on entry lists: the two entry lists of the final state, or the error |
| BlockSplitting.SplitAB | src/blocksplitting.py:35-56 | the loop computes exactly `SplitABSpec`: the same two entry lists, or `HeightsExhausted` where `next()` raises |
| BlockSplitting.ScanABNext | src/blocksplitting.py:47-56 | the scan of one more entry is one more loop iteration |
| BlockSplitting.StepABCrosses | src/blocksplitting.py:51-53 | an entry past `n_row_limit` adds the next height to the limit, toggles the selector and is routed to the new side |
| BlockSplitting.StepABStaying | src/blocksplitting.py:51-56 | an entry within the limit is routed to the current side and changes nothing else |
| BlockSplitting.ScanABErrPersists | src/blocksplitting.py:51-52 | once `next()` has raised on a prefix, the whole call ends with that error |
| BlockSplitting.SplitABNeedsAHeight | src/blocksplitting.py:40-42 | with no non-zero height, `split_AB` and `split_AB_blocks` (line 96) both fail at the first `next()`, whatever the matrix |
| BlockSplitting.SplitABOkWhenRowsFit | src/blocksplitting.py:48-53 | when every row lies within the sum of the heights, `split_AB` never exhausts the heights |
| BlockSplitting.ScanABOkWhenRowsFit | src/blocksplitting.py:48-53 | the same for the scan on a given list of non-zero heights |
| BlockSplitting.ScanABInv | src/blocksplitting.py:42-56 | after any prefix, the limit is the last row of the current block, the selector is `(1 + crossings) % 2`, each entry made at most one crossing (exactly when its row passed the limit), and the lists are the entries selected by their side |
| BlockSplitting.StepABInv | src/blocksplitting.py:48-56 | one loop iteration keeps that invariant |
| BlockSplitting.SplitABLimit | src/blocksplitting.py:42-53 | the final limit is the sum of the consumed heights minus one, the selector matches the count of crossings, and no more heights were consumed than entries seen |
| BlockSplitting.SplitABPartition | src/blocksplitting.py:45-56 | the two results are a partition of the input entries (lengths add up; multisets add up), each in input order, each entry placed by the crossings it made |
| BlockSplitting.SelectPartition | src/blocksplitting.py:53-56 | selecting by side 0 and side 1 partitions any entry list (length and multiset) |
| BlockSplitting.SelectAppend | src/blocksplitting.py:53-56 | appending an entry adds it to exactly the selection of its side |
| BlockSplitting.RunsBounded | src/blocksplitting.py:51-53 | with at most one crossing per entry, the crossings before entry `k` are at most `k` |
| BlockSplitting.SplitABFollowsBlocks | src/blocksplitting.py:27-31 | when consecutive entries lie in the same or the next block, every entry of block `j` lands in result `(1 + j) % 2`: alternating blocks go to alternating results |
| BlockSplitting.ScanFollowsBlocks | src/blocksplitting.py:42-56 | under the same condition, the crossings the scan records are exactly the entries' block numbers |
| BlockSplitting.FollowStep | src/blocksplitting.py:51-56 | one step records the block of an entry in the current or the next block |
| BlockSplitting.SkippedBlockSplitsItsEntries | src/blocksplitting.py:51-53 | with heights 1, 1, 2 and no entry in row 1, the two entries of the third block land in different results, because the test is an `if` |
| BlockSplitting.StartBlocks | src/blocksplitting.py:94-98 | defines the state before the loop: `selector` 0, the first limit, an empty buffer and empty buckets, or `HeightsExhausted` |
| BlockSplitting.ToggleAndFlush | src/blocksplitting.py:105-113 | defines the toggle of the selector followed by handing a non-empty buffered block to the bucket the new selector names |
| BlockSplitting.StepBlocks | src/blocksplitting.py:99-116 | defines one iteration: a crossing consumes one more height and toggles and flushes, or fails with `HeightsExhausted`; then the entry is buffered |
| BlockSplitting.ScanBlocks | src/blocksplitting.py:94-116 | defines the loop on a prefix of the entries, stopping at the first error |
| BlockSplitting.FinishBlocks | src/blocksplitting.py:117-124 | defines the final flush: a non-empty buffer is handed out after one more toggle |
| BlockSplitting.SplitBlocksSpec | src/blocksplitting.py:94-125 | defines `split_AB_blocks` on entry lists: the two buckets after the final flush, or the error |
| BlockSplitting.SplitABBlocks | src/blocksplitting.py:89-125 | the loop computes exactly `SplitBlocksSpec`: the same two buckets of blocks, or `HeightsExhausted` |
| BlockSplitting.ScanBlocksNext | src/blocksplitting.py:99-116 | the scan of one more entry is one more loop iteration |
| BlockSplitting.StepBlocksCrossing | src/blocksplitting.py:103-116 | a crossing adds the next height, toggles the selector, hands a non-empty buffered block to the bucket the new selector names, and starts the buffer with the entry; the field-by-field form of `StepBlocksCrosses`, derived from it |
| BlockSplitting.StepBlocksCrosses | src/blocksplitting.py:103-116 | the same step, stated through the toggle-and-flush of the buffer |
| BlockSplitting.StepBlocksStaying | src/blocksplitting.py:103-116 | an entry within the limit is only added to the buffer |
| BlockSplitting.ScanBlocksErrPersists | src/blocksplitting.py:103-104 | once `next()` has raised on a prefix, the whole call ends with that error |
| BlockSplitting.SplitBlocksFlattenToAB | src/blocksplitting.py:69-125 | `split_AB_blocks` fails exactly when `split_AB` does, and otherwise its two buckets, flattened, are `split_AB`'s two entry lists |
| BlockSplitting.ScanBlocksMirrorsAB | src/blocksplitting.py:94-116 | after every prefix, both scans agree on limit and crossings, their selectors are opposite, and each `split_AB` list is the flattened bucket plus the buffer |
| BlockSplitting.MirrorStep | src/blocksplitting.py:99-116 | one step of each scan keeps them mirrored and fails in both or in neither |
| BlockSplitting.MirrorStepCross | src/blocksplitting.py:103-116 | the same for a step that crosses a block boundary |
| BlockSplitting.MirrorCross | src/blocksplitting.py:105-113 | toggling and flushing the buffer keeps the two scans mirrored |
| BlockSplitting.MirrorRoute | src/blocksplitting.py:114-116 | buffering an entry mirrors routing it to the current side |
| BlockSplitting.MirrorAdvance | src/blocksplitting.py:104 | adding the same height to both limits keeps the scans mirrored |
| BlockSplitting.SplitBlocksAlternate | src/blocksplitting.py:69-125 | no bucket holds an empty block, the buckets differ in size by at most one, and taking blocks from them in turn gives back the input entries in order |
| BlockSplitting.ScanBlocksInv | src/blocksplitting.py:94-116 | after any prefix, the blocks handed out alternate between buckets and, followed by the buffer, are the entries seen |
| BlockSplitting.StepBlocksInv | src/blocksplitting.py:99-116 | one loop iteration keeps that invariant |
| BlockSplitting.FlushKeepsOrder | src/blocksplitting.py:105-113 | handing the buffer out appends it, as a non-empty block, to the blocks in alternation order |
| BlockSplitting.CrossKeepsInv | src/blocksplitting.py:103-113 | a crossing keeps the blocks in alternation and the entries in order |
| BlockSplitting.BufferKeepsInv | src/blocksplitting.py:114-116 | buffering an entry keeps the entries in order |
| BlockSplitting.EmittedAlternates | src/blocksplitting.py:117-125 | after the final flush the two buckets alternate, starting from one of them, and flatten to the input |
| PulseConfig.PyEq | src/qdyn/pulse.py:53 | defines Python `==` between two config values, used for the `!=` tests at lines 53 and 58: `True == 1`, `False == 0`, and a string equals only the same string |
| PulseConfig.Consistent | src/qdyn/pulse.py:32-49 | defines the invariant of the mapping: the six required keys first, no duplicate key, a key stored exactly when listed and not read from the pulse, and `type` stored as `file` |
| PulseConfig.Pulse.constructor | src/qdyn/pulse.py:59 | the parent pulse holds the `time_unit`, `ampl_unit` and `is_complex` the mapping reads and `setattr` writes |
| PulseConfig.ConfigAttribs.constructor | src/qdyn/pulse.py:43-49 | a new mapping holds the six required keys in order, with `id` -1, `type` 'file' and `filename` '' stored, and is consistent |
| PulseConfig.InitialValues | src/qdyn/pulse.py:49 | a new mapping answers -1, 'file' and '' for `id`, `type` and `filename` |
| PulseConfig.InitialConsistent | src/qdyn/pulse.py:32-49 | the initial key list and stored values satisfy the mapping's invariant |
| PulseConfig.Lookup | src/qdyn/pulse.py:65-71 | defines `__getitem__`: `is_complex` and the unit keys are read from the pulse, any other key from the stored values, and a key stored nowhere raises `KeyError` |
| PulseConfig.ConfigAttribs.Get | src/qdyn/pulse.py:65-71 | a key is found exactly when it is in the key list; a missing key raises `KeyError(key)`; `is_complex` and the unit keys are always found; the value returned is the one `Lookup` defines (the pulse's attribute for those keys) |
| PulseConfig.ConfigAttribs.Set | src/qdyn/pulse.py:51-63 | a read-only key accepts only its current value (by Python `==`) and otherwise raises `ValueError`; a unit key differing from the pulse's is set on the pulse; any other key is stored and appended to the key list when new; afterwards the key reads back as the value given, every other key reads as before, and the invariant holds |
| PulseConfig.StoreKeepsConsistent | src/qdyn/pulse.py:61-63 | storing a key that is not read from the pulse keeps the invariant, with the key appended exactly when it was not stored |
| PulseConfig.ConfigAttribs.Delete | src/qdyn/pulse.py:73-78 | a required key raises `ValueError`, a missing key raises `KeyError`, both leaving the mapping unchanged; otherwise the key leaves the stored values and its first occurrence leaves the key list, the length drops by one, the key then raises `KeyError`, and every other key reads as before |
| PulseConfig.DeleteKeepsConsistent | src/qdyn/pulse.py:73-78 | deleting a stored, non-required key keeps the invariant and shortens the key list by one |
| PulseConfig.Remove | src/qdyn/pulse.py:78 | defines `list.remove`: the list without the first occurrence of the key |
| PulseConfig.RemoveDropsOnlyKey | src/qdyn/pulse.py:78 | `list.remove` on a list without duplicates drops exactly the first occurrence of the key and keeps every other key in order |
| PulseConfig.IndexOf | src/qdyn/pulse.py:78 | the position found holds the key, and no earlier position does |
| PulseConfig.DistinctIsNoDup | src/qdyn/pulse.py:61-63 | the recursive no-duplicates form of the key list is the pairwise one |
| PulseConfig.ConfigAttribs.Iter | src/qdyn/pulse.py:80-81 | iteration yields the keys in insertion order: the six required keys first, without duplicates |
| PulseConfig.ConfigAttribs.Len | src/qdyn/pulse.py:83-84 | the length is the number of keys iterated, at least six |
| PulseConfig.ConfigAttribs.ItemsOf | src/qdyn/pulse.py:65-81 | the items of the given keys pair each key with the value it reads as |
| PulseConfig.ConfigAttribs.Copy | src/qdyn/pulse.py:90-95 | the copy is a new mapping on the same parent with equal keys and values; it is consistent when the original is, and reads the same for every key |
| PulseConfig.EditCopy | src/qdyn/pulse.py:90-95 | setting and deleting on a copy leaves the original's key list and values alone; only a unit key reaches the original, through the shared pulse |
| PulseComments.IsSpace | src/qdyn/pulse.py:378 | defines `str.isspace()` for one character, the whitespace `strip()` removes |
| PulseComments.LStrip | src/qdyn/pulse.py:378 | defines the leading half of `strip()` |
| PulseComments.RStrip | src/qdyn/pulse.py:378 | defines the trailing half of `strip()` |
| PulseComments.IsComment | src/qdyn/pulse.py:376 | defines `line.startswith('#')`, the test at lines 376, 846 and 880 |
| PulseComments.LStripDropsLeadingSpaces | src/qdyn/pulse.py:378 | `lstrip` removes exactly the leading whitespace run |
| PulseComments.RStripDropsTrailingSpaces | src/qdyn/pulse.py:378 | `rstrip` removes exactly the trailing whitespace run |
| PulseComments.Strip | src/qdyn/pulse.py:378 | a stripped string neither starts nor ends with whitespace |
| PulseComments.StripKeeps | src/qdyn/pulse.py:845 | stripping only removes characters, and keeps a first character that is not whitespace |
| PulseComments.StripDropsTrailingSpace | src/qdyn/pulse.py:378 | the newline ending a file line makes no difference to its stripped form |
| PulseComments.StripIdempotent | src/qdyn/pulse.py:378 | a string that is its own strip is unchanged by either half of the strip |
| PulseComments.StripUnchanged | src/qdyn/pulse.py:845 | a string that neither starts nor ends with whitespace is its own strip |
| PulseComments.FirstLineLength | src/qdyn/pulse.py:375 | the first line read from a file ends at its first newline, or at the end of the text |
| PulseComments.FileLines | src/qdyn/pulse.py:375 | defines iteration over a file opened for reading: its lines, each with the newline that ends it, the last possibly without one |
| PulseComments.FileLinesOfLines | src/qdyn/pulse.py:373-375 | reading back text written as newline-ended lines gives those lines, each with its newline |
| PulseComments.FileLinesStep | src/qdyn/pulse.py:375 | a newline-ended line at the head of the text is the first line read |
| PulseComments.FileLinesLast | src/qdyn/pulse.py:375 | a text without a newline is read as one line |
| PulseComments.FileLinesThenLast | src/qdyn/pulse.py:375 | newline-ended lines followed by an unterminated line are read as those lines and then that line |
| PulseComments.LinesAppend | src/qdyn/pulse.py:843-849 | rendering two lists of lines is rendering each in turn |
| PulseComments.LeadingComments | src/qdyn/pulse.py:374-383 | the preamble is the longest run of lines starting with `#` at the start of the file |
| PulseComments.StrippedComments | src/qdyn/pulse.py:375-380 | defines the comment lines among the given lines, stripped, in order |
| PulseComments.CommentSplit | src/qdyn/pulse.py:371-383 | defines the split: the stripped comments before the first other line are the preamble, all later ones the postamble |
| PulseComments.CommentSplitPartition | src/qdyn/pulse.py:371-383 | preamble then postamble are all the comment lines of the file, stripped, in order; the preamble is as long as the leading run; both contain only comment lines |
| PulseComments.StrippedCommentsAppend | src/qdyn/pulse.py:375-380 | the comments collected from two parts of a file are those of each in turn |
| PulseComments.StrippedCommentsAreComments | src/qdyn/pulse.py:376-380 | every collected line still starts with `#` after stripping |
| PulseComments.LeadingAllKept | src/qdyn/pulse.py:376-378 | in a run of comment lines, every line is collected |
| PulseComments.SplitComments | src/qdyn/pulse.py:371-383 | the loop collects exactly the preamble and postamble of `CommentSplit` |
| PulseComments.StrippedCommentsSnoc | src/qdyn/pulse.py:375-380 | one more line read adds its stripped form exactly when it starts with `#` |
| PulseComments.ReadSpec | src/qdyn/pulse.py:371-397 | defines the comment handling of `Pulse.read`: the split, then, unless headers are ignored, the header popped off the preamble, or `IOError` when the preamble is empty |
| PulseComments.ReadComments | src/qdyn/pulse.py:371-397 | the method computes exactly `ReadSpec`: the split, then the header popped off the preamble, or the `IOError` |
| PulseComments.ReadFailsWithoutPreamble | src/qdyn/pulse.py:393-397 | the comment handling of `Pulse.read` fails exactly when headers are not ignored and the file does not start with a comment line (`np.genfromtxt`, the header regular expressions and the constructor can fail too; they are not modelled) |
| PulseComments.Normalized | src/qdyn/pulse.py:844-849 | a written preamble line always starts with `#`, and gains no newline |
| PulseComments.NormalizedAll | src/qdyn/pulse.py:844-849 | defines every line of a list in its written form; the result is as long as the list |
| PulseComments.PostambleAsWritten | src/qdyn/pulse.py:878-883 | defines the postamble text as the code writes it: a `#` line with a newline, any other line with "# " in front and no newline |
| PulseComments.WrittenTextAsWritten | src/qdyn/pulse.py:843-883 | defines the written file as the code stands: preamble, header, data lines, then the postamble as written |
| PulseComments.WrittenText | src/qdyn/pulse.py:843-883 | defines the written file with the postamble rendered like the preamble, each line ended by a newline |
| PulseComments.NormalizedAllAt | src/qdyn/pulse.py:844-849 | every preamble line is written in its normalized form, in order |
| PulseComments.RenderComments | src/qdyn/pulse.py:843-849 | the preamble loop writes each normalized line followed by a newline |
| PulseComments.RenderPostambleAsWritten | src/qdyn/pulse.py:877-883 | the postamble loop as written: a line without `#` gets "# " and no newline |
| PulseComments.RenderBody | src/qdyn/pulse.py:851-874 | the header and data part of the buffer is the given header line and the given data lines, each followed by a newline |
| PulseComments.WriteAsWritten | src/qdyn/pulse.py:842-883 | the whole buffer as written: preamble, header, data, postamble as written; for the parts `read` leaves (`ReadBackParts`), reading the buffer back gives exactly the preamble, the header and the postamble written, as the docstring at line 340 promises |
| PulseComments.Write | src/qdyn/pulse.py:842-883 | the whole buffer with the postamble rendered like the preamble |
| PulseComments.WrittenLines | src/qdyn/pulse.py:842-883 | reading back the corrected file gives every written line, with its newline |
| PulseComments.SplitWritten | src/qdyn/pulse.py:371-383 | comments, then data, then comments split into the stripped leading and trailing comments |
| PulseComments.CommentsThenData | src/qdyn/pulse.py:374-383 | the preamble ends at the first data line |
| PulseComments.ReadAfterWrite | src/qdyn/pulse.py:371-397 | reading what the corrected writer (lines 843-849, applied to the postamble too) wrote gives the normalized preamble, the header and the normalized postamble, all stripped |
| PulseComments.PopHeader | src/qdyn/pulse.py:394-395 | the header is the last line of the preamble, and is removed from it |
| PulseComments.ReadBackStripped | src/qdyn/pulse.py:845-847 | a stripped comment line is written unchanged and read back unchanged |
| PulseComments.ReadBackAllStripped | src/qdyn/pulse.py:843-849 | the same for a whole list of lines |
| PulseComments.ReadBackParts | src/qdyn/pulse.py:371-383 | defines the parts of a pulse as `read` leaves them: stripped comment lines without newlines around a comment header, and at least one data line |
| PulseComments.PostambleAsWrittenOfComments | src/qdyn/pulse.py:878-883 | on lines whose strip starts with `#`, the postamble as the code writes it equals the postamble rendered like the preamble |
| PulseComments.ReadWriteAsWrittenRestores | src/qdyn/pulse.py:340-341 | for the parts `read` leaves, reading the file the code as written writes gives back exactly the preamble, the header and the postamble |
| PulseComments.ReadWriteRestores | src/qdyn/pulse.py:371-397 | for stripped comment lines, reading the corrected writer's file gives back exactly the preamble, the header and the postamble written |
| PulseComments.PostambleAsWrittenPair | src/qdyn/pulse.py:878-883 | two postamble lines without `#` are written with no newline between or after them |
| PulseComments.PostambleRunsTogether | src/qdyn/pulse.py:883 | writing the postamble ["a", "b"] as the code stands and reading the file back gives one postamble line "# a# b" |
| PulseComments.ReadEndingInLast | src/qdyn/pulse.py:371-397 | a file whose last line has no newline is read with that line, stripped, as its whole postamble |
| PulseComments.PostambleKeptApart | src/qdyn/pulse.py:883 | with the newline added, the same postamble reads back as the two lines "# a" and "# b" |
| PulseComments.SplitThenLast | src/qdyn/pulse.py:374-383 | comments, data and one trailing comment line split into the leading comments and that line |
| PulseComments.DataThenLast | src/qdyn/pulse.py:376-381 | data lines contribute no comment; a final comment line does |
| PulseComments.LiteralAt | src/qdyn/pulse.py:672 | defines where the literal `OCT iter` starts, compared case-insensitively (ASCII) |
| PulseComments.MatchAt | src/qdyn/pulse.py:672-676 | defines a match of `OCT iter[\s:]*(\d+)` at one position: the literal, the greedy separator run, then at least one digit, giving the value of the digit run |
| PulseComments.DecimalValue | src/qdyn/pulse.py:676 | defines `int()` of a run of ASCII digits |
| PulseComments.SkipSeparators | src/qdyn/pulse.py:672 | `[\s:]*` consumes the longest run of whitespace and colons |
| PulseComments.DigitsEnd | src/qdyn/pulse.py:672 | `(\d+)` consumes the longest run of digits |
| PulseComments.FirstMatchFrom | src/qdyn/pulse.py:674 | the position returned is the leftmost match from the start position on, or past the end when there is none |
| PulseComments.Search | src/qdyn/pulse.py:674 | `search` returns nothing when no position matches, and otherwise the group of the leftmost match |
| PulseComments.OctIter | src/qdyn/pulse.py:669-677 | 0 when no preamble line matches, and otherwise the number in the first line that matches |
| PulseComments.DecimalString | src/qdyn/pulse.py:676 | the decimal form of a number is a non-empty run of digits |
| PulseComments.DecimalRoundTrip | src/qdyn/pulse.py:676 | `int()` of the decimal form of `n` is `n` |
| PulseComments.OctIterFindsWrittenNumber | src/qdyn/pulse.py:669-677 | a line "# OCT iter" + separators + n, after lines without a match, gives `oct_iter == n` |
| PulseComments.SearchFindsWrittenNumber | src/qdyn/pulse.py:672-676 | searching such a line finds n |
| PulseComments.NoMatchBeforeLiteral | src/qdyn/pulse.py:672-674 | the pattern does not match at the "# " before the literal |
| PulseComments.MatchWrittenNumber | src/qdyn/pulse.py:672 | the pattern matches at the literal and captures n |
| PulseComments.SeparatorsInWrittenLine | src/qdyn/pulse.py:672 | the separator run stops at the first digit |
| PulseComments.DigitsSuffix | src/qdyn/pulse.py:672 | the digit run extends to the end of a digit suffix, which is the captured group |

## Left out

- The conversions between sparse formats (CSR to COO and the resulting COO/CSR matrices) and the summing of duplicate entries they may do: a matrix is its entry list in coordinate order.
- `Qobj` wrapping (`as_qobj`).
- The upper-triangular `assert` (`src/blocksplitting.py` lines 35 and 89): it compares `triu(m)` with `m` by value, so explicit zeros below the diagonal pass it; the scan treats every stored entry alike, so the model neither requires nor checks the property.
- The `block_info.dtype == np.int32` assert and the 32-bit wrap-around of `n_row_limit`: heights and limits are unbounded integers.
- `n` (the matrix dimension): it sets the shape of the result matrices, and `coo_matrix` raises `ValueError` for an entry whose row or column is not below it. The model takes `n` to be the dimension of `m`, as the docstring at `src/blocksplitting.py` line 14 says, so no index exceeds it.
- The header regular expressions of `Pulse.read`, the time and amplitude units and mode they extract, and `np.genfromtxt`: the header is kept as an opaque line and the data columns are not modelled.
- The floating-point formatting of the header and data lines in `Pulse.write`: the writer takes them as already formatted lines.
- File I/O (`open_file`, `out_fh.write`), plotting, and the rest of `pulse.py`, as well as `shutil.py` and `ham.py`.
- `__str__` of the config mapping, and `copy.copy`: the model has `ItemsOf` and `Copy`.
- Case folding for the `re.I` flag is ASCII only, and `\d` and `\s` in the OCT pattern use ASCII digits and the `str.isspace` set: Unicode digits and non-ASCII case folding are not modelled.
- Universal newlines: text-mode reading splits only on `\n`; `\r\n` and lone `\r` are not translated.
- A preamble or postamble that is not a list (`[str(preamble)]`) and `str()` of non-string items: lines are strings.
- `is_complex` as a property of the amplitude array: the pulse holds it as a boolean field.
- Config keys that are not strings, and values other than `int`, `str` and `bool`.
- Distributing blocks across workers (load balancing, contiguous partitioning), splitting the diagonal and encoding the schedule are not part of this model: of the splitting, only `split_AB` and `split_AB_blocks` are.

## Findings

| source | as written | input that shows it | evidently intended | confidence | as-written member | corrected member |
|---|---|---|---|---|---|---|
| src/qdyn/pulse.py:883 | a postamble line without `#` is written as `'# %s'`, with no newline | postamble `["a", "b"]` is read back as the single line `"# a# b"` | `'# %s\n'`, as for the preamble at line 849 | high (proved on the model; not executed) | PulseComments.PostambleRunsTogether | PulseComments.PostambleKeptApart |
