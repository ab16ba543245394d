# Base-modification tag decoding in IGV, modelled in Dafny

IGV reads DNA base modifications from two SAM tags, defined in section 1.7 of the
SAM optional-fields specification:
- `MM` lists, per canonical base and strand, which occurrences of that base
  carry a modification;
- `ML` holds one likelihood byte per listed occurrence per modification code.

`BaseModificationUtils` is the code that turns these tags into a list of
`BaseModificationSet`s. Each set is a base character, a strand character, one
modification code, and a map from read coordinate to likelihood byte. The same
class also renders a likelihood for display (`valueString`) and recognises ChEBI
numeric codes (`isChEBI`).

This project models that class in Dafny and proves what it does. The modules
follow the program's structure:

- `Results`: `Option`, a failure-compatible `Result`, the unsigned `byte`,
  `BaseModificationSet`, and `DecodeError`. `DecodeError` has one constructor per
  exception the Java code can raise.
- `JavaText`: the library behaviour the decoder relies on:
  - `String.split` with a one-character separator, which drops trailing empty
    pieces and returns `[""]` for `""`;
  - `endsWith`;
  - `Integer.parseInt`, with an optional sign, ASCII digits and the 32-bit range;
  - the decimal rendering of an `int`.
- `ModCodes`: the `codeValues` table, `valueString`, `isChEBI`, and the
  resolution of a header's code portion into modification codes.
- `SkipScan`: the `while (p < sequence.length)` loop of one group. It is a
  recursive `Scan` over the scan index, the candidate count, the token index, the
  current skip count, the likelihood cursor and the per-code maps. One
  selection's draws are `Record`.
- `ScanReference`: an independent description of the same scan as a trace.
  - The candidates of the walked sequence are cut by the skip counts into passes
    and takes.
  - The trace is then played onto a map.
  - `ScanMatchesReference` proves that the loop and the trace agree on success,
    on failure, on the cursor and on every map.
- `BaseModification`: `getBaseModificationSets` itself, plus these lemmas:
  - the error cases;
  - the shape of a decoded group;
  - the group-level reference decoder and its agreement with the code;
  - the composition of groups through the shared cursor.
- `LazyCounts`: groups with a skip count that does not parse. Counts after the
  first are parsed only when the scan reaches them. Such a group is compared
  with the same group cut just before the bad count.
- `TagTotals`: the whole tag, summed over its groups:
  - how many sets it yields;
  - that every key is a read coordinate;
  - how many likelihood bytes it draws, and when the `ML` array suffices.
- `Scenarios`: worked inputs, each stated as the value the model gives:
  - `C+m,1,0` on `CCGTCG`;
  - the same header with a `.` flag and an `ML` array;
  - an `ML` array that runs out;
  - an unreached malformed count;
  - two codes drawn in order;
  - a negative-strand read;
  - display strings and ChEBI numbers.

## Behaviour of the code worth knowing

The model follows the Java code as written, including these points:
- The percentage in `valueString` is truncated by `(int) (100.0 * u / 255)`. A
  likelihood of 254 shows as 99%, not 100%.
- The label for a code missing from `codeValues` is spelled `Uknown`.
- An empty `MM` string fails. `"".split(";")` is `[""]`, and `charAt(0)` on the
  empty header throws (`EmptyTagFails`). Section 1.7 of the SAM optional-fields
  specification allows the tag to be empty.
- Base and strand characters are not checked against the letters that section
  1.7 of the SAM optional-fields specification allows (`ACGTUN`, `+`, `-`). A
  header of two or more characters with no skip counts yields nothing, whatever
  its characters are. A header with counts is scanned with whatever base it
  names.
- In a `.` group, a skipped base is recorded as 0 and consumes no `ML` byte. Only
  selected bases draw from `ML`, one byte per code, which matches the layout of
  `ML` in section 1.7 of the SAM optional-fields specification.
- Only the first skip count is parsed up front. Each later count is parsed when
  the scan reaches it, so a malformed count that is never reached is not an
  error (`Scenarios.UnreadCountIsNotParsed`, `LazyCounts.DecodeGroupUntilUnparsed`).
- `sequence[p] == base` compares a signed Java `byte` with a `char`. A byte of
  128 or more is negative once widened, so it never equals a base letter. Such a
  byte is a candidate only in a group whose base is `N`.
- A negative skip count is never met. Every candidate after it is passed over,
  and no later count is read.

## Model

| member | source | states |
|---|---|---|
| ModCodes.ValueString | src/main/java/org/broad/igv/sam/mods/BaseModificationUtils.java:41-45 | The display string starts with `Base modification: ` and ends with `%)`, and is longer than both together |
| ModCodes.ValueStringReadBack | src/main/java/org/broad/igv/sam/mods/BaseModificationUtils.java:41-45 | The display string reads back as the prefix, the code's label, ` (`, and the percentage written as unsigned decimal digits with no leading zero, which `parseInt` turns back into the percentage |
| ModCodes.LabelUnknownIff | src/main/java/org/broad/igv/sam/mods/BaseModificationUtils.java:20-44 | The label is the table's entry when the code is in the table, and is `Uknown` exactly when the code is absent (no table entry is spelled that way) |
| ModCodes.PercentIsFloor | src/main/java/org/broad/igv/sam/mods/BaseModificationUtils.java:42 | The percentage is the floor of 100·u/255. It lies in 0..100, is 100 only for 255 and 0 only for u < 3, and never decreases as u grows |
| ModCodes.IsChEBI | src/main/java/org/broad/igv/sam/mods/BaseModificationUtils.java:164-179 | True exactly for a non-empty string whose every character is in `0`..`9` |
| ModCodes.DigitsFrom | src/main/java/org/broad/igv/sam/mods/BaseModificationUtils.java:172-178 | The loop of `isChEBI`: true exactly when every character from index i on is a decimal digit |
| ModCodes.CodePortion | src/main/java/org/broad/igv/sam/mods/BaseModificationUtils.java:83-85 | Fails exactly for a two-character header ending in `.` or `?`. Otherwise the header is its first two characters, the code portion, and the trailing flag when there is one |
| ModCodes.ResolveCodesProperties | src/main/java/org/broad/igv/sam/mods/BaseModificationUtils.java:90-102 | Code resolution yields at least one code, and the codes concatenated give the portion back. There is one code exactly when the portion has at most one character or is a ChEBI number; otherwise there is one single-character code per character, in order |
| ModCodes.SplitCodesDistinct | src/main/java/org/broad/igv/sam/mods/BaseModificationUtils.java:94-99 | Codes split from a non-numeric portion are pairwise distinct if and only if the portion's characters are |
| JavaText.Split | src/main/java/org/broad/igv/sam/mods/BaseModificationUtils.java:69 | `split` of `""` is `[""]`, no piece contains the separator, and a non-empty input never yields a trailing empty piece |
| JavaText.SplitJoin | src/main/java/org/broad/igv/sam/mods/BaseModificationUtils.java:74 | On a non-empty input not ending with the separator, `split` keeps every piece, and joining the pieces gives the input back |
| JavaText.SplitTrailingSep | src/main/java/org/broad/igv/sam/mods/BaseModificationUtils.java:69 | A separator appended to a non-empty input does not change what `split` returns |
| JavaText.ParseInt | src/main/java/org/broad/igv/sam/mods/BaseModificationUtils.java:114 | A parsed skip count is a 32-bit `int`. Its text is non-empty, with an optional sign followed by digits, and without `-` the value is non-negative |
| JavaText.ParseIntNatToString | src/main/java/org/broad/igv/sam/mods/BaseModificationUtils.java:42-44 | The decimal rendering of a non-negative `int` parses back to the same value |
| JavaText.ParseIntNegated | src/main/java/org/broad/igv/sam/mods/BaseModificationUtils.java:129 | `-` followed by the rendering of n parses to -n, down to the smallest `int` |
| JavaText.ParseIntRejects | src/main/java/org/broad/igv/sam/mods/BaseModificationUtils.java:129 | `parseInt` rejects the empty string, a lone sign, and any text with a non-digit after its first character |
| SkipScan.SignedByte | src/main/java/org/broad/igv/sam/mods/BaseModificationUtils.java:121 | A Java `byte` widened to `int`: a value in -128..127 that differs from the unsigned byte by a multiple of 256 |
| SkipScan.CandidateBytes | src/main/java/org/broad/igv/sam/mods/BaseModificationUtils.java:121 | A byte of 128 or more is a candidate only when the group base is `N`. A smaller byte is a candidate exactly when the base is `N` or the byte is the base's character code |
| SkipScan.PositionInverse | src/main/java/org/broad/igv/sam/mods/BaseModificationUtils.java:122 | The coordinate recorded for a scan index lies inside the read, and mapping it again gives back the scan index, on either strand |
| SkipScan.ParseSkipRendered | src/main/java/org/broad/igv/sam/mods/BaseModificationUtils.java:114-129 | A skip count written in decimal, with or without a minus sign, parses back to itself whenever it fits an `int`. The empty token and a lone `-` fail with an error naming the token |
| SkipScan.Record | src/main/java/org/broad/igv/sam/mods/BaseModificationUtils.java:124-127 | One selection's draws succeed exactly when there is no array or it holds one byte per remaining code from the cursor on. The cursor then moves by that many bytes (not at all without an array) and maps of other codes are untouched |
| SkipScan.RecordZero | src/main/java/org/broad/igv/sam/mods/BaseModificationUtils.java:135-142 | A skipped position in a `.` group is added to the key set of each of the group's codes with likelihood 0. Every other coordinate keeps its likelihood, and maps of codes outside the group are untouched |
| SkipScan.RecordFailure | src/main/java/org/broad/igv/sam/mods/BaseModificationUtils.java:125 | Draws fail only on a supplied array, and then at the index equal to its length |
| SkipScan.RecordFirst | src/main/java/org/broad/igv/sam/mods/BaseModificationUtils.java:124-127 | After one selection, each code's map holds at the position the byte drawn for the code's last occurrence in the group (the i-th draw is at cursor + i, or 255 without an array) |
| SkipScan.RecordKeys | src/main/java/org/broad/igv/sam/mods/BaseModificationUtils.java:124-127 | A selection adds exactly its position to every code's key set |
| SkipScan.LastIndexDistinct | src/main/java/org/broad/igv/sam/mods/BaseModificationUtils.java:124-126 | When the codes are distinct, each code's last occurrence is its own index, so no draw is overwritten |
| SkipScan.Scan | src/main/java/org/broad/igv/sam/mods/BaseModificationUtils.java:119-147 | A scan that succeeds keeps the map's code set, never moves the cursor backwards, leaves it fixed without an array and within the array with one, and leaves maps of codes outside the group alone |
| SkipScan.ScanKeyOrigin | src/main/java/org/broad/igv/sam/mods/BaseModificationUtils.java:119-147 | Every coordinate a scan adds to a map lies inside the sequence, at a visited base that is a candidate (the group base or `N`) |
| SkipScan.ScanSameKeys | src/main/java/org/broad/igv/sam/mods/BaseModificationUtils.java:119-147 | Codes whose maps start with equal key sets end with equal key sets |
| SkipScan.ScanFailureCause | src/main/java/org/broad/igv/sam/mods/BaseModificationUtils.java:119-147 | A scan fails only because the array ran out (at its length) or because a skip count it reached does not parse |
| ScanReference.CandsFromExact | src/main/java/org/broad/igv/sam/mods/BaseModificationUtils.java:119-121 | The candidate list holds exactly the indices from p on whose base is a candidate, in increasing order |
| ScanReference.TracePrefix | src/main/java/org/broad/igv/sam/mods/BaseModificationUtils.java:123-133 | The trace walks a prefix of the candidates in order and takes at most one candidate per skip count |
| ScanReference.ReplayKeys | src/main/java/org/broad/igv/sam/mods/BaseModificationUtils.java:123-143 | After the trace is played, a coordinate is in the map exactly when it was there before or some step writes it: every take does, and in a `.` group every pass does |
| ScanReference.ReplayTakeValue | src/main/java/org/broad/igv/sam/mods/BaseModificationUtils.java:124-127 | The k-th step, when it is a take, leaves at its coordinate the byte at cursor + (codes × earlier takes) + the code's offset, or 255 without an array |
| ScanReference.ReplayPassValue | src/main/java/org/broad/igv/sam/mods/BaseModificationUtils.java:134-143 | In a `.` group, the k-th step, when it is a pass, leaves 0 at its coordinate |
| ScanReference.ReplayUntouched | src/main/java/org/broad/igv/sam/mods/BaseModificationUtils.java:119-147 | A coordinate no step touches keeps its old likelihood |
| ScanReference.TraceWellFormed | src/main/java/org/broad/igv/sam/mods/BaseModificationUtils.java:119-122 | Every step lies inside the walked sequence, and distinct steps record distinct coordinates, on either strand |
| ScanReference.ScanMatchesReference | src/main/java/org/broad/igv/sam/mods/BaseModificationUtils.java:112-147 | When all remaining counts parse, the loop and the trace agree. The loop fails exactly when the array holds fewer than codes × takes bytes from the cursor, moves the cursor by exactly that many bytes, and leaves in each code's map what the trace played for the code's last occurrence |
| BaseModification.ReverseComplementTwice | src/main/java/org/broad/igv/sam/mods/BaseModificationUtils.java:61-64 | Under a complement that undoes itself, reverse-complementing twice gives the sequence back |
| BaseModification.WorkSequence | src/main/java/org/broad/igv/sam/mods/BaseModificationUtils.java:61-64 | The walked sequence has the read's length; it is the read itself on the forward strand, and on the reverse strand its k-th base is the complement of the read's k-th base from the end |
| BaseModification.DecodeGroup | src/main/java/org/broad/igv/sam/mods/BaseModificationUtils.java:72-152 | Decoding a group never moves the cursor backwards, does not move it without an array, and keeps it within the array |
| BaseModification.DecodeCounted | src/main/java/org/broad/igv/sam/mods/BaseModificationUtils.java:81-151 | A group with skip counts that decodes has a valid code portion and yields one set per resolved code, in code order, each with the header's base and strand characters. The cursor never moves backwards and stays within the array |
| BaseModification.SetsOf | src/main/java/org/broad/igv/sam/mods/BaseModificationUtils.java:149-151 | One set per code, in code order, with the header's base and strand characters and the code's map. Two occurrences of one code get the same map |
| BaseModification.DecodeGroupErrors | src/main/java/org/broad/igv/sam/mods/BaseModificationUtils.java:74-129 | Each way a group fails, tied to its cause, for every input:<br>• no tokens at all, if and only if;<br>• a header shorter than two characters, if and only if;<br>• a bare two-character `.`/`?` header with counts, if and only if;<br>• a count that does not parse (one of the group's tokens);<br>• a first count that does not parse, after a valid header, always;<br>• an exhausted array, at its length |
| BaseModification.EmptyTagFails | src/main/java/org/broad/igv/sam/mods/BaseModificationUtils.java:69-75 | An empty MM string fails because its one group has an empty header |
| BaseModification.SeparatorOnlyTag | src/main/java/org/broad/igv/sam/mods/BaseModificationUtils.java:69-72 | The MM string `;` has no groups at all, since `split` returns nothing for it, and so it decodes to no sets |
| BaseModification.DecodeGroupShape | src/main/java/org/broad/igv/sam/mods/BaseModificationUtils.java:75-151 | A header-only group yields no sets and draws nothing. Any other group yields one set per resolved code, in code order, each with the header's base and strand characters; all sets share one key set, and every key is a coordinate inside the read whose visited base is a candidate |
| BaseModification.HeaderOnlyGroup | src/main/java/org/broad/igv/sam/mods/BaseModificationUtils.java:79-80 | A header of two or more characters with no counts yields nothing and leaves the cursor, whatever its characters |
| BaseModification.DecodeGroupMatchesReference | src/main/java/org/broad/igv/sam/mods/BaseModificationUtils.java:74-151 | A group whose counts all parse decodes exactly as the reference decoder, which plays the candidates-cut-by-counts trace |
| BaseModification.ReferenceGroupSet | src/main/java/org/broad/igv/sam/mods/BaseModificationUtils.java:149-151 | Each set of the reference decoder holds the trace played for the last occurrence of its code |
| BaseModification.ReferenceGroupKeys | src/main/java/org/broad/igv/sam/mods/BaseModificationUtils.java:119-147 | A coordinate is a key of a set exactly when a take records it, or a pass in a `.` group does |
| BaseModification.ReferenceGroupPassValue | src/main/java/org/broad/igv/sam/mods/BaseModificationUtils.java:134-143 | In a `.` group every skipped candidate holds 0 in every set |
| BaseModification.ReferenceGroupSelections | src/main/java/org/broad/igv/sam/mods/BaseModificationUtils.java:112-133 | A group selects at most as many positions as it has skip counts, and visits no more than its candidates |
| BaseModification.DecodeGroups | src/main/java/org/broad/igv/sam/mods/BaseModificationUtils.java:72-153 | Across groups the cursor never moves backwards, stays fixed without an array, and stays within the array with one. Every key of every set decoded is a coordinate of the walked sequence |
| TagTotals.DecodeGroupsOutput | src/main/java/org/broad/igv/sam/mods/BaseModificationUtils.java:69-155 | Groups that decode yield, in all, one set per resolved code of each group with skip counts, and every key of every set is a coordinate of the walked sequence |
| TagTotals.DecodedKeysInRange | src/main/java/org/broad/igv/sam/mods/BaseModificationUtils.java:60-156 | A tag that decodes yields one set per resolved code of each group with skip counts, and every key of every set is a coordinate of the read |
| TagTotals.GroupDrawsCursor | src/main/java/org/broad/igv/sam/mods/BaseModificationUtils.java:74-151 | A header-only group, or one whose counts all parse, decodes exactly when the array holds its draws (takes × codes) from the cursor on; the cursor then moves past them, and otherwise the group fails for running out of likelihoods |
| TagTotals.DecodeGroupsDraws | src/main/java/org/broad/igv/sam/mods/BaseModificationUtils.java:69-155 | Groups of that kind decode exactly when the array holds the sum of their draws from the cursor on; the cursor ends past that sum, and the only failure is running out of likelihoods |
| TagTotals.TagDrawsSuffice | src/main/java/org/broad/igv/sam/mods/BaseModificationUtils.java:60-156 | A tag whose groups are all of that kind decodes exactly when there is no array or it holds at least the sum of the groups' draws; otherwise it fails for running out of likelihoods |
| LazyCounts.ScanUntilUnparsed | src/main/java/org/broad/igv/sam/mods/BaseModificationUtils.java:119-147 | With an unparseable count at token k and valid counts before it, the scan equals the scan of the tokens before k, unless that scan succeeds and takes a candidate for every count. In that case the scan reaches token k and fails on it |
| LazyCounts.DecodeGroupUntilUnparsed | src/main/java/org/broad/igv/sam/mods/BaseModificationUtils.java:74-151 | A group whose counts parse up to token k but not at k decodes as the reference decoder says for the group cut before k, unless that decode succeeds and takes a candidate for each of its k − 1 counts. In that case the group fails on token k |
| BaseModification.GetBaseModificationSets | src/main/java/org/broad/igv/sam/mods/BaseModificationUtils.java:59-156 | A tag that decodes has every key of every set inside the read. The rest is stated by lemmas: set count and keys (`TagTotals.DecodedKeysInRange`), draws (`TagTotals.TagDrawsSuffice`), composition (`OneGroupTag`, `TagIsGroupsInOrder`), and the edge cases `EmptyTagFails` and `SeparatorOnlyTag` |
| BaseModification.DecodeGroupsAppend | src/main/java/org/broad/igv/sam/mods/BaseModificationUtils.java:70-153 | Decoding two runs of groups in turn is decoding their concatenation: the first failure wins, the sets come in group order, and the cursor carries from one run to the next |
| BaseModification.OneGroupTag | src/main/java/org/broad/igv/sam/mods/BaseModificationUtils.java:69-72 | A non-empty tag without `;` is its one group decoded from cursor 0 |
| BaseModification.TagIsGroupsInOrder | src/main/java/org/broad/igv/sam/mods/BaseModificationUtils.java:69-155 | A tag is its first group followed by the rest of the groups, decoded from the cursor the first group leaves |
| BaseModification.TrailingSemicolon | src/main/java/org/broad/igv/sam/mods/BaseModificationUtils.java:69 | A trailing `;` on a non-empty tag changes nothing |
| Scenarios.SkipOneThenTake | src/main/java/org/broad/igv/sam/mods/BaseModificationUtils.java:112-133 | `C+m,1,0` on `CCGTCG` with no array selects the second C (index 1) and then the next C (index 4), each at 255 |
| Scenarios.DottedWithLikelihoods | src/main/java/org/broad/igv/sam/mods/BaseModificationUtils.java:134-143 | `C+m.,1,0` with bytes 200 and 100 records 0 at the skipped C, 200 and 100 at the two taken ones, and consumes no byte for the skip |
| Scenarios.LikelihoodsRunOut | src/main/java/org/broad/igv/sam/mods/BaseModificationUtils.java:125 | The same group with a one-byte array fails on the second selection, at index 1 |
| Scenarios.UnreadCountIsNotParsed | src/main/java/org/broad/igv/sam/mods/BaseModificationUtils.java:119-133 | `C+m,5,x` on a two-base read decodes to one empty set: the count 5 is never met, so `x` is never parsed |
| Scenarios.TwoCodesDrawInOrder | src/main/java/org/broad/igv/sam/mods/BaseModificationUtils.java:90-127 | `C+mh,0` with bytes 10 and 20 gives `m` the first byte and `h` the second, at the same coordinate, and moves the cursor by two |
| Scenarios.NegativeStrandCoordinates | src/main/java/org/broad/igv/sam/mods/BaseModificationUtils.java:61-64 | `C-m,0` on a negative-strand `CCGTCG` takes the first C of the reverse complement and records it at coordinate 5 of the read as given |

## Left out

- `AlignmentUtils.reverseComplementCopy` is not part of this model. The model
  reverses the sequence and applies a per-base complement passed in by the
  caller. Only reversal, length and element-wise complement are stated.
- The `BaseModificationSet` class is not part of this model. The model uses a
  plain immutable record of its four constructor arguments. The Java sets of one
  group share a map object when a code is listed twice; the model gives both
  sets equal maps.
- Null arguments: a null `mm` or `sequence` (a `NullPointerException`) is not
  modelled. A null `ml` is `None`.
- `Integer.parseInt` on non-ASCII Unicode digits: the model accepts ASCII digits
  only.
- Logging, and the rest of IGV (rendering, sessions, the circular view), are
  outside this core.
- Strings are sequences of Unicode code points, not Java's UTF-16 code units.
  `length`, `charAt` and `substring` agree on the two for SAM tag values, which
  are printable ASCII. A code portion with a character outside the Basic
  Multilingual Plane would be cut differently by the Java code.
- ModCodes.Percent: stated with integer division. The Java code divides a double
  and casts; this agrees because 100·u/255 is either a whole number or at least
  1/51 away from one, so the cast truncates to the same value.
- BaseModification.DecodeGroupMatchesReference: covers groups whose skip counts
  all parse. A group with a count that does not parse is compared with the
  group cut before that count by `LazyCounts.DecodeGroupUntilUnparsed`.
- ScanReference.ScanMatchesReference: covers scans whose remaining counts all
  parse. A scan that meets a count that does not parse is compared with the scan
  of the counts before it by `LazyCounts.ScanUntilUnparsed`.
- BaseModification.DecodeGroups: its own contract bounds the cursor and the
  keys. How many sets it yields and how many bytes it draws are stated by
  `TagTotals.DecodeGroupsOutput` and `TagTotals.DecodeGroupsDraws`. The draws
  are summed only for header-only groups and groups whose counts all parse.
- BaseModification.DecodeGroupShape: states where each key comes from and that
  all codes share one key set. The values at those keys are stated through the
  reference decoder (`ReferenceGroupSet`, `ScanReference.ReplayTakeValue`,
  `ReferenceGroupPassValue`).
