# RUM mapping statistics and interval export, in Dafny

This project models two scripts from the RUM RNA-seq aligner's repository and
proves properties of the model.

Every line of a RUM alignment file names one read, in the form
`seq.<number>` plus an optional mate suffix `a` (forward) or `b` (reverse).
The line also gives the chromosome, a `", "`-separated list of `start-end`
spans, the strand and the sequence.

`bin/rum_mapping_stats.py` does three things:

- It parses such lines into `Alignment` records. The suffix decides which part is set: `forward`, `reverse` or `joined`.
- It fuses a forward record with the reverse record right after it, when both have the same read, chromosome and strand. This is `aln_iter`.
- It counts how many reads map with one mate, with both mates, or with any mate, by marking read numbers in boolean arrays. These are `unique_stats` and `nu_stats`.

`util/rum2bed.py` turns every span into a `(chromosome, start, end)` triple.
It writes the triples in three formats, each with 0-based starts:

- a BED track;
- a tab-separated table;
- a table of `chr:start-end` locations.

The model is organised as follows:

- `Wrappers` holds `Option` and `Result`.
- `Text` covers the Python 2 string operations the scripts rely on: `str.split` with `maxsplit`, `str(int)` and `int(str)`. It also defines `Join`, which neither script calls; the model uses it as the inverse of `split` in its round-trip statements.
- `RumAlignment` is the line parser.
- `Pairing` models `aln_iter`. It has a reference definition `Pairs`, the slot machine `Feed` and the loop method `AlnIter`.
- `MappingStats` models the tallies. They are methods over Dafny `array<bool>`s, proved equal to functions on sets of read numbers.
- `RumToBed` models `parse_input` with its nested loops and the three writers. It also has decoders that read each output back, which serve as the writers' partners.

The exceptions the scripts raise are modelled as `Failure` values:

- a line with the wrong number of fields (the tuple unpacking);
- a read id the regular expression rejects;
- a location that is not two pieces around `-`;
- an integer `int` rejects;
- `zeros` with a negative size;
- a read number past the end of the arrays.

## Model

| member | source | states |
|---|---|---|
| Text.FindFrom | bin/rum_mapping_stats.py:26 | the index `str.split` cuts at is the leftmost occurrence of the separator at or after the start position, and None means there is no occurrence |
| Text.Split | bin/rum_mapping_stats.py:26 | `split(sep, maxsplit)` gives at least one piece and at most `maxsplit + 1` when a limit is given; joining the pieces with the separator gives back the string |
| Text.SplitPiecesFree | bin/rum_mapping_stats.py:34 | with a one-character separator, no piece but the last holds the separator, and without a limit the last does not either |
| Text.SplitJoin | bin/rum_mapping_stats.py:33-34 | splitting a join gives back the parts, when no part before an unlimited last one holds the separator's first character |
| Text.DigitRun | bin/rum_mapping_stats.py:6 | `\d+` consumes exactly the maximal run of ASCII digits at the position |
| Text.DigitsValue | bin/rum_mapping_stats.py:38 | definition: the value `int(m.group(1))` gives a run of ASCII digits |
| Text.NatToStringDigits | util/rum2bed.py:20 | `str(n)`, as the rows at lines 20, 27 and 34 print numbers and as `CanonicalReadId` writes read numbers, is all digits, denotes `n` and has no leading zero |
| Text.ParseInt | util/rum2bed.py:12 | definition: `int(x)` in base 10, white space around the numeral and after the sign skipped, None where `int` raises `ValueError` |
| Text.ParseIntSpaceAfterSign | util/rum2bed.py:12 | a sign, white space, then a numeral is accepted with the sign applied, as Python 2's `int` does |
| Text.IntToString | util/rum2bed.py:20 | definition: `str(x)` of the numbers `format` prints in the rows at lines 20, 27 and 34 |
| Text.ParseIntToString | util/rum2bed.py:12 | `int(str(x)) == x` for every integer, negative ones included |
| RumAlignment.MatchReadId | bin/rum_mapping_stats.py:27-29 | `seq.(\d+)([ab]?)` matches exactly when the id starts with "seq", one character other than a newline and a digit; the captured suffix is "", "a" or "b" |
| RumAlignment.SplitLocation | bin/rum_mapping_stats.py:34 | `(fwd, rev) = loc.split('-')` succeeds with two dash-free pieces that rebuild the location; otherwise it fails with that location |
| RumAlignment.SplitLocationOfJoin | bin/rum_mapping_stats.py:34 | every `start-end` with dash-free bounds is accepted and split into those bounds |
| RumAlignment.SplitSpans | bin/rum_mapping_stats.py:31-36 | on success there is one start and one end per location, in location order; on failure the error is that of a location all of whose predecessors split |
| RumAlignment.SplitSpansFirstFailure | bin/rum_mapping_stats.py:31-36 | the first location that does not split decides the error |
| RumAlignment.SplitSpansAllSucceed | bin/rum_mapping_stats.py:31-36 | locations that all split give exactly the lists of their bounds |
| RumAlignment.ParseAlignment | bin/rum_mapping_stats.py:25-52 | a parsed line has exactly one part set; its read number and part agree with the read id's match (`a` forward, `b` reverse, otherwise joined); its start and end lists are equally long and nonempty |
| RumAlignment.ParseLine | bin/rum_mapping_stats.py:25-52 | the constructor, building `starts` and `ends` in a loop, computes `ParseAlignment`, errors included |
| RumAlignment.ParsedLineReassembles | bin/rum_mapping_stats.py:26-44 | nothing of an accepted line is lost: it is its read id followed by chromosome, spans, strand and sequence, the sequence keeping everything after the fourth tab |
| RumAlignment.ReadIdCanonical | bin/rum_mapping_stats.py:6 | "seq." + str(n) + suffix is matched back to n and suffix, whatever follows an `a` or `b` |
| RumAlignment.FormatParseRoundTrip | bin/rum_mapping_stats.py:25-52 | a record written as a line with its canonical read id parses back to the same record |
| RumAlignment.ParseEach | bin/rum_mapping_stats.py:75 | lines are parsed in order: on success one record per line, each what its line parses to; on failure the index and error of the first failing line, all before it parsing |
| RumAlignment.ParseLines | bin/rum_mapping_stats.py:75 | the same statement for `Alignment(line=line)` on each line of a file |
| Pairing.Pairs | bin/rum_mapping_stats.py:79-100 | definition: the greedy reference reading of the records from the left; a record mergeable with the next one is fused with it, any other record is passed through alone |
| Pairing.Mergeable | bin/rum_mapping_stats.py:83-87 | definition: the merge test, a forward `last` and a reverse `aln` with equal read number, chromosome and strand |
| Pairing.Merge | bin/rum_mapping_stats.py:88-93 | definition: the yielded pair, `last`'s read number, chromosome, strand and forward part with `aln`'s reverse part, nothing joined |
| Pairing.Step | bin/rum_mapping_stats.py:80-97 | definition: one loop turn on the yielded records and the `last` slot: fill an empty slot, yield the merged pair and clear the slot, or yield `last` and keep `aln` |
| Pairing.Feed | bin/rum_mapping_stats.py:77-97 | definition: the yielded records and the `last` slot after the loop has consumed the records, a fold of `Step` from an empty slot |
| Pairing.Flush | bin/rum_mapping_stats.py:99-100 | definition: the final `yield last` when the slot is full |
| Pairing.FeedRest | bin/rum_mapping_stats.py:79-97 | after any number of loop turns, what was yielded followed by what the slot and the remaining records yield is the reference output `Pairs` |
| Pairing.FeedFlushIsPairs | bin/rum_mapping_stats.py:79-100 | the loop followed by the final flush yields exactly `Pairs` of the records |
| Pairing.FeedPendingIsLast | bin/rum_mapping_stats.py:80-97 | the slot only ever holds the last record read, or nothing |
| Pairing.AlnIter | bin/rum_mapping_stats.py:74-100 | over lines that all parse it yields `Pairs` of the records; otherwise it yields what the loop had yielded before the first bad line, without the pending record, and raises that line's error |
| Pairing.Emitted | bin/rum_mapping_stats.py:74-100 | definition: the records `aln_iter(lines)` yields before it ends or raises |
| Pairing.Raised | bin/rum_mapping_stats.py:74-100 | definition: the parse error `aln_iter(lines)` raises, if any |
| Pairing.PairsUnfuse | bin/rum_mapping_stats.py:83-97 | every input record appears exactly once in the output, in order, alone or as one half of a fused pair |
| Pairing.UnfuseLength | bin/rum_mapping_stats.py:88-93 | a fused pair stands for two input records, any other record for one |
| Pairing.PairsCount | bin/rum_mapping_stats.py:83-100 | the output has as many records as the input less one per merge |
| Pairing.PairsLead | bin/rum_mapping_stats.py:77-82 | the output starts with the first input record, alone or fused |
| Pairing.PairsShapesAndGreedy | bin/rum_mapping_stats.py:83-97 | every output record is an input record or a fused pair, and no record passed through alone was mergeable with the input record after it |
| Pairing.PairsUnique | bin/rum_mapping_stats.py:79-100 | these properties determine the output: any output with them is `Pairs` of the records |
| Pairing.JoinedPassThrough | bin/rum_mapping_stats.py:83-87 | a joined record is never merged and reaches the output unchanged |
| Pairing.ParsedAreSingletons | bin/rum_mapping_stats.py:46-52 | every record of a file whose lines all parse has exactly one part, so the properties above apply |
| Pairing.PairingExamples | bin/rum_mapping_stats.py:83-94 | a forward record fuses with a following reverse one only when number, chromosome and strand agree and forward comes first; after a merge the slot is empty, so a third record is not compared with the pair; a joined record does not fuse |
| MappingStats.UniqueMarkOf | bin/rum_mapping_stats.py:113-123 | definition: the one array the if/elif chain of `unique_stats` sets for a record, if any |
| MappingStats.Marks | bin/rum_mapping_stats.py:152-160 | definition: whether a record sets a given array; for `nu_stats` the three independent tests, for `unique_stats` its one array |
| MappingStats.UniqueMarkOfTouches | bin/rum_mapping_stats.py:113-123 | a record sets one of the four unique arrays exactly when it has some part |
| MappingStats.OutOfRange | bin/rum_mapping_stats.py:111-123 | definition: the record writes an array entry and its read number is past index n, so the write raises `IndexError` (also lines 150-160) |
| MappingStats.UniqueDerived | bin/rum_mapping_stats.py:134-138 | definition: consistent, fwd, rev and any from the four sums |
| MappingStats.UniqueTally | bin/rum_mapping_stats.py:104-138 | definition: the reference tally of `unique_stats`: `NegativeDimensions` when n + 1 < 0, else the first out-of-range read number, else the sizes of the four read sets and the derived entries |
| MappingStats.NuTally | bin/rum_mapping_stats.py:144-168 | definition: the reference tally of `nu_stats`: the same errors, else the sizes of forward-only, reverse-only, both and the union |
| MappingStats.FirstOutOfRange | bin/rum_mapping_stats.py:110-123 | the first record that writes an array entry past index n, if any, and none before it does |
| MappingStats.TallyFailures | bin/rum_mapping_stats.py:104-123 | both tallies fail exactly when n + 1 is negative or some marking record has a read number past n, with the same error, which names the first such read number |
| MappingStats.Or | bin/rum_mapping_stats.py:163-168 | numpy's elementwise or of two boolean arrays marks the union of their marked indexes |
| MappingStats.AndNot | bin/rum_mapping_stats.py:163-164 | numpy `x & ~y` marks the indexes marked in x and not in y |
| MappingStats.Sum | bin/rum_mapping_stats.py:126-129 | the sum of a boolean array is the number of its marked indexes |
| MappingStats.MarkUnique | bin/rum_mapping_stats.py:111-123 | one loop turn sets the entry of the record's read number in exactly the one array its class selects and leaves every other entry alone |
| MappingStats.MarkUniqueAll | bin/rum_mapping_stats.py:110-123 | the loop stops at the first out-of-range record; otherwise each array marks exactly the read numbers of the records of its class |
| MappingStats.UniqueStats | bin/rum_mapping_stats.py:102-138 | the counting part of `unique_stats` computes `UniqueTally`: the sizes of the four read sets and the derived entries, or the first error before the percentages |
| MappingStats.ReadsMembers | bin/rum_mapping_stats.py:110-123 | a read number is marked in an array exactly when some record of that class carries it |
| MappingStats.ReadsAtMostRecords | bin/rum_mapping_stats.py:110-123 | an array marks at most one read number per record |
| MappingStats.UniqueTallyBounds | bin/rum_mapping_stats.py:125-138 | each base count is at most n + 1 and at most the number of records; consistent, fwd, rev and any satisfy their defining sums |
| MappingStats.UniqueMarkExclusive | bin/rum_mapping_stats.py:113-123 | a record falls into at most one of fwd_only, rev_only, joined, unjoined |
| MappingStats.UniqueAnyIsUnion | bin/rum_mapping_stats.py:134-138 | when the four read sets are disjoint, `any` is the number of reads in their union |
| MappingStats.UnjoinedAreFused | bin/rum_mapping_stats.py:116-119 | the unjoined reads are exactly the read numbers of the fused pairs `aln_iter` yields |
| MappingStats.MarkNu | bin/rum_mapping_stats.py:150-160 | one loop turn sets the entry in `fwd` and `rev` when the record has that part, in `both` when it is joined or fused, and nothing else |
| MappingStats.MarkNuAll | bin/rum_mapping_stats.py:149-160 | the loop stops at the first out-of-range record; otherwise each array marks exactly the read numbers of the records that set it |
| MappingStats.NuStats | bin/rum_mapping_stats.py:142-168 | the counting part of `nu_stats` computes `NuTally`: reads with a forward mate and neither reverse nor both, the symmetric count, reads with both, reads with any, or the first error before the percentages |
| MappingStats.ExclusiveParts | bin/rum_mapping_stats.py:163-168 | the forward-only, reverse-only and both classes are disjoint parts of the union |
| MappingStats.NuTallyBounds | bin/rum_mapping_stats.py:162-168 | fwd + rev + consistent is at most any, which is at most n + 1 |
| MappingStats.AfterStream | bin/rum_mapping_stats.py:109-110 | definition: the lazy stream's parse error is raised only if the tally of the records yielded before it did not already fail |
| MappingStats.UniqueStatsOfLines | bin/rum_mapping_stats.py:102-140 | over a file's lines: the tally of the records `aln_iter` yields; a parse error counts only when the records before it did not already fail |
| MappingStats.NuStatsOfLines | bin/rum_mapping_stats.py:142-170 | the same for `nu_stats` |
| RumToBed.ParseAll | util/rum2bed.py:12 | `[int(x) for x in pieces]` gives one value per piece, each what `int` gives, or fails with the first piece `int` rejects |
| RumToBed.SpanInterval | util/rum2bed.py:12 | a span is accepted exactly when it splits on `-` into two pieces that `int` accepts, and gives their values |
| RumToBed.SpansIntervals | util/rum2bed.py:11-13 | one triple per span, in order, each carrying the line's chromosome and its span's values; a failure is some span's error |
| RumToBed.SpansFailureStays | util/rum2bed.py:11-13 | once a span fails, the spans after it do not change the outcome |
| RumToBed.LineFields | util/rum2bed.py:9 | definition: `line.split("\t", 3)`, the fields the unpacking into four names needs exactly |
| RumToBed.LineIntervals | util/rum2bed.py:9-13 | a line with other than four fields after `split("\t", 3)` fails with its field count; on success, one triple per `", "`-separated span of field 3, all with field 2 as chromosome |
| RumToBed.IntervalsFailureStays | util/rum2bed.py:8-13 | once a line fails, the lines after it do not change the outcome |
| RumToBed.Intervals | util/rum2bed.py:6-13 | definition: `list(parse_input(...))` over the lines, the triples of each line in order, or the first line's exception |
| RumToBed.SpanTriples | util/rum2bed.py:11-13 | the inner loop computes `SpansIntervals` |
| RumToBed.LineTriples | util/rum2bed.py:9-13 | one line's unpacking and inner loop compute `LineIntervals` |
| RumToBed.ParseInput | util/rum2bed.py:6-13 | the nested loop computes the triples of all lines in order, or the first exception |
| RumToBed.SpanIntervalOfText | util/rum2bed.py:12 | a span written as `str(s)-str(e)` of natural numbers parses back to (s, e) |
| RumToBed.SpansIntervalsOfTexts | util/rum2bed.py:11-13 | a list of such spans gives exactly their triples |
| RumToBed.LineIntervalsOfFormat | util/rum2bed.py:9-13 | a line with such a span list in field 3 gives one triple per span, with field 2 as chromosome, whatever the rest of the line holds |
| RumToBed.EmptySpanListFails | util/rum2bed.py:11-12 | an empty span field fails, because `int('')` is rejected |
| RumToBed.BedTrackLine | util/rum2bed.py:18 | definition: the track line text, without a newline |
| RumToBed.SeparateTabHeader | util/rum2bed.py:25 | definition: the header `chr\tstart\tend` without its newline |
| RumToBed.CombinedTabHeader | util/rum2bed.py:32 | definition: the header `loc` without its newline |
| RumToBed.HeadersOneLine | util/rum2bed.py:18-32 | none of the three headers contains a newline |
| RumToBed.RumToBed | util/rum2bed.py:15-20 | `rum_to_bed` as written: the track line with no newline, then `chr\t(start-1)\tend\n` per triple, in order |
| RumToBed.RumToBedCorrected | util/rum2bed.py:15-20 | the same with the track line ended by a newline |
| RumToBed.RumToSeparateTab | util/rum2bed.py:22-27 | the line `chr\tstart\tend`, then one tab row per triple, in order, every line newline-terminated |
| RumToBed.RumToCombinedTab | util/rum2bed.py:29-34 | the line `loc`, then `chr:(start-1)-end` per triple, in order, every line newline-terminated |
| RumToBed.TabLine | util/rum2bed.py:20 | definition: `"{0}\t{1}\t{2}".format(chr_, start - 1, end)`, the row without its newline, also at line 27 |
| RumToBed.LocLine | util/rum2bed.py:34 | definition: `"{0}:{1}-{2}".format(chr_, start - 1, end)`, the row without its newline |
| RumToBed.TabRow | util/rum2bed.py:20 | definition: a tab row with its newline, as lines 20 and 27 write it |
| RumToBed.LocRow | util/rum2bed.py:34 | definition: a location row with its newline, as line 34 writes it |
| RumToBed.TabLineRoundTrip | util/rum2bed.py:27 | a tab row is one line and reads back to its triple when the chromosome holds no tab or newline |
| RumToBed.LocLineRoundTrip | util/rum2bed.py:34 | a location row is one line and reads back to its triple when the chromosome holds no ':' or newline and both printed numbers are non-negative |
| RumToBed.DecodeTabLinesRoundTrip | util/rum2bed.py:26-27 | the tab rows of the triples read back to the triples, one per row, in order |
| RumToBed.DecodeLocLinesRoundTrip | util/rum2bed.py:33-34 | the location rows read back to the triples, one per row, in order |
| RumToBed.SeparateTabRoundTrip | util/rum2bed.py:22-27 | the separate-tab output reads back as its header and exactly the triples written |
| RumToBed.CombinedTabRoundTrip | util/rum2bed.py:29-34 | the combined-tab output reads back as its header and exactly the triples written |
| RumToBed.BedCorrectedRoundTrip | util/rum2bed.py:15-20 | with the newline after the track line, the BED output reads back to exactly the triples written |
| RumToBed.BedTrackLineRunsOn | util/rum2bed.py:18-20 | as written, the first BED row is on the track line: the output's lines are the track line glued to the first row, then the other rows |
| RumToBed.BedAsWrittenUnreadable | util/rum2bed.py:18-20 | as written, a nonempty BED output has no track line of its own, so it does not read back |

## Left out

- `main`, argparse and the printed report (bin/rum_mapping_stats.py:181 onwards) are left out: they are command-line and report formatting only.
- `add_percents` and the `pct_*` entries (bin/rum_mapping_stats.py:172-179) compute floating-point percentages, which are not modelled.
- MappingStats.UniqueStats, MappingStats.NuStats, MappingStats.UniqueStatsOfLines and MappingStats.NuStatsOfLines stop before `add_percents`. That function divides by `float(n)` at line 177, so `unique_stats` and `nu_stats` always raise `ZeroDivisionError` when n == 0 and the counting succeeded. For n == 0 the model returns the counts as a Success instead.
- Opening and reading files is not modelled. The model takes a file's lines as a sequence, each keeping its line terminator, and gives each output as a string.
- `is_mate` (bin/rum_mapping_stats.py:62-65) is left out because it reads attributes the class never defines.
- `__str__` and `__repr__` are left out: they only dump fields for debugging.
- The keyword branch of `Alignment.__init__` (bin/rum_mapping_stats.py:54-60) exists only as the merged record `Merge` that `aln_iter` builds with it.
- numpy: `zeros(n + 1, dtype=bool)` is a Dafny `array<bool>` of length n + 1, and the elementwise and, or, not and `sum` are the set operations above. numpy also accepts negative indexes, but read numbers here are never negative.
- The driver loop of util/rum2bed.py (lines 37-42) is left out: it has fixed file names and prints progress.
- util/repeat_rum_file.py is not part of this model. It is a stdout script that calls a write method `Alignment` does not define.
- `int` matches Python 2's `int()` on the byte strings these scripts read: ASCII digits, one optional sign, and ASCII white space around the numeral and between the sign and the digits. On byte strings `int()` also rejects an `L` suffix, non-ASCII digits and non-ASCII spaces, as `ParseInt` does. Unicode strings never reach it here.
- `ab is 'a'` compares object identity in Python. It is modelled as string equality, which is what CPython gives for the one-character strings `re` returns.
- `alns.next()` on an empty file ends the generator silently, as in Python 2. `AlnIter` therefore yields nothing and raises nothing on zero lines.
- Laziness: the tallies consume `aln_iter` while it parses. The model first collects what `aln_iter` yields before it stops, then tallies it. If a read number is out of range in those records, that error comes first; if not, the parse error is reported. The order of events is the same.
- RumToBed.TabLineRoundTrip, RumToBed.LocLineRoundTrip and the three output round trips need their preconditions. The formats are ambiguous for chromosome names holding a tab, a newline or a ':', and for negative printed numbers.
- RumToBed.RumToBed, RumToBed.RumToSeparateTab and RumToBed.RumToCombinedTab return the whole output as one string. They do not model writes to a file object one at a time.

## Findings

| source | as written | input that shows it | evidently intended | confidence | as-written member | corrected member |
|---|---|---|---|---|---|---|
| util/rum2bed.py:18 | the BED track line is written with no newline, so the first row continues it | any nonempty list of triples, e.g. one triple ("chr1", 1, 10): the first line of the output is the track line followed directly by `chr1\t0\t10` | the track line ends with a newline and each row is a line of its own, as the other two writers do with their headers | high (not executed) | RumToBed.RumToBed, RumToBed.BedTrackLineRunsOn | RumToBed.RumToBedCorrected, RumToBed.BedCorrectedRoundTrip |
