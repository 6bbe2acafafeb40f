# maxquant2saint conversion engine, modelled in Dafny

This project models the core of maxquant2saint: `MaxquantToSaintConverter.convert`, which turns the protein groups of a MaxQuant `proteinGroups` table into the three input files of SAINT, and the two line writers it calls, `SaintBaitWriter.writeSample` and `SaintPreyWriter.writePrey`.

Once file reading is done, `convert` is a pure transformation. Its input is the ordered protein groups, each with protein ids, gene names and one intensity per sample column. It produces:

- **the bait file**: one line per sample column of the first group, with the sample name, its bait label and `C` (control) or `T` (test);
- **the prey file**: one line per group, with the `;`-joined protein ids, a length and the `;`-joined gene names. The length is the largest length any of the group's ids has in the FASTA index. When none has one, a fallback "average length" is used;
- **the interactions**: one per (group, sample) pair whose intensity `v` satisfies `|v| > 1e-10`.

## Files

- `wrappers.dfy`, module `Wrappers`: `Option` (a Java reference that may be `null`) and `Result`.
- `text.dfy`, module `Text`: joining with a separator (`Collectors.joining`), splitting on one character, and `String.valueOf(int)` with its parser. Round-trip lemmas for both.
- `saint.dfy`, module `Saint`: the `Sample`, `Prey` and `Interaction` records and the two line writers. A `java.io.Writer` is modelled by the text written to it so far.
- `classifier.dfy`, module `Classifier`: the `isControl` and `baitName` lambdas over abstract regular expressions.
- `lengths.dfy`, module `Lengths`: the length index, the per-group length and the two-stage average length.
- `converter.dfy`, module `Converter`: `convert` as a function (`Convert`) and as loops that mirror the source (`Run` and the methods it calls), plus the lemmas that relate the three tables.

## Modelling decisions

- **Regular expressions are abstract.** `Rules.control(name)` says whether the control pattern matches the whole name. `Rules.bait(name)` is `NoMatch`, or `FullMatch(g)` where `g` is `group(1)`. `g` is `None` when Java's `group(1)` is `null`, which happens when the group takes no part in the match.
- **The length index** (`Map<String, Integer>` from `SequenceService.sequencesLength`) is a sequence of `(id, length)` entries with distinct ids. The entries are in iteration order. This way "the mean over every entry of the index" counts equal lengths of different proteins separately, as `lengths.values()` does.
- **No FASTA file** is `fasta == None`. The index is then empty and the average length is `0`.
- **Rounding.** `(int) Math.round(IntStream.average().orElse(0))` is computed exactly as `(2*sum + n) / (2*n)`, and as `0` when there is nothing to average. `Lengths.RoundedMeanIsJavaRound` proves this equals `floor(mean + 1/2)`, which is `Math.round` applied to the exact mean.
- **An empty group list.** The source only logs a warning, then `groups.get(0)` throws. The whole conversion is modelled as failing with `NoProteinGroups`.
- **The platform line separator** (`System.getProperty("line.separator")`) is a parameter `nl`.

## Behaviour of the code worth noting

- The index-wide mean replaces the groups' mean whenever the groups' mean rounds to `0` (`MaxquantToSaintConverter.java:93-96`). That covers "no id resolved", and also resolved lengths whose mean is below one half, for example lengths of `0`.
- A prey length is not always positive. Without a FASTA file the average is `0` (`MaxquantToSaintConverter.java:104`), and so is the index-wide mean of an empty index; every unresolved group then gets that `0` as its length (`MaxquantToSaintConverter.java:111`).
- The bait file lists only the first group's sample columns (`MaxquantToSaintConverter.java:74-75`). Interactions of other groups are written for whatever columns those groups carry.
- The rows of one group follow the iteration order of its intensity map (`keySet()` at `MaxquantToSaintConverter.java:75`, `entrySet()` at `MaxquantToSaintConverter.java:123`). The model takes that order as the order of the `intensities` sequence.

## Model

| member | source | states |
|---|---|---|
| `Classifier.BaitName` | src/main/java/ca/qc/ircm/maxquant2saint/MaxquantToSaintConverter.java:61-65 | A control's bait label is its own name. So is the label of a name the bait pattern does not fully match. A test sample the bait pattern fully matches gets that match's first group, possibly `null`. |
| `Classifier.Classify` | src/main/java/ca/qc/ircm/maxquant2saint/MaxquantToSaintConverter.java:58-65 | The sample keeps its name. It is a control exactly when the control pattern fully matches. A control is its own bait. A label that differs from the name comes only from a full bait match on a test sample. |
| `Lengths.ResolvedEmpty` | src/main/java/ca/qc/ircm/maxquant2saint/MaxquantToSaintConverter.java:107-112 | Nothing resolves exactly when none of the ids is in the index, which is when `max()` is empty and the fallback is taken. |
| `Lengths.ResolvedSound` | src/main/java/ca/qc/ircm/maxquant2saint/MaxquantToSaintConverter.java:107-108 | Each resolved length is the index entry of one of the ids: `filter(value -> value != null)` keeps only lookups that succeeded. |
| `Lengths.ResolvedComplete` | src/main/java/ca/qc/ircm/maxquant2saint/MaxquantToSaintConverter.java:107-108 | Every id that is in the index contributes its length to the resolved lengths. |
| `Lengths.ResolvedConcat` | src/main/java/ca/qc/ircm/maxquant2saint/MaxquantToSaintConverter.java:90-92 | Resolving the ids of all groups, flattened, gives the per-run resolutions one after the other, so repeated ids count every time. |
| `Converter.AllProteinIds` | src/main/java/ca/qc/ircm/maxquant2saint/MaxquantToSaintConverter.java:90-91 | The flattened ids contain an id exactly when some group lists it. |
| `Converter.AllProteinIdsConcat` | src/main/java/ca/qc/ircm/maxquant2saint/MaxquantToSaintConverter.java:90-91 | Flattening two runs of groups gives the first run's ids followed by the second's. |
| `Converter.ResolvedAllIds` | src/main/java/ca/qc/ircm/maxquant2saint/MaxquantToSaintConverter.java:90-92 | Resolving the flattened ids of two runs of groups gives the first run's resolved lengths followed by the second's, so every group's lookups enter the average and repeats count each time. |
| `Lengths.Lookup` | src/main/java/ca/qc/ircm/maxquant2saint/MaxquantToSaintConverter.java:107 | `lengths.get(id)` is `null` exactly when no entry has that id. Otherwise it is the length of an entry with that id. |
| `Lengths.Resolved` | src/main/java/ca/qc/ircm/maxquant2saint/MaxquantToSaintConverter.java:107-108 | The lookups that are not `null`, in id order: never more than there are ids. `ResolvedEmpty`, `ResolvedSound` and `ResolvedComplete` state which lengths they are. |
| `Lengths.Values` | src/main/java/ca/qc/ircm/maxquant2saint/MaxquantToSaintConverter.java:95 | `lengths.values()` has one length per index entry, in entry order, equal lengths of different ids counted separately. |
| `Lengths.Max` | src/main/java/ca/qc/ircm/maxquant2saint/MaxquantToSaintConverter.java:107-108 | The maximum is one of the lengths and no length exceeds it. |
| `Lengths.GroupLength` | src/main/java/ca/qc/ircm/maxquant2saint/MaxquantToSaintConverter.java:106-112 | If some id resolves, the length is the resolved length of one of the ids and at least every resolved length. If none resolves, it is exactly the fallback average. |
| `Lengths.RoundedMean` | src/main/java/ca/qc/ircm/maxquant2saint/MaxquantToSaintConverter.java:90-92 | For `n > 0` values, `r` satisfies `2n*r <= 2*sum + n < 2n*(r+1)`: the nearest integer to the mean, halves rounded up. With no values it is `0` (`orElse(0)`). |
| `Lengths.RoundedMeanIsJavaRound` | src/main/java/ca/qc/ircm/maxquant2saint/MaxquantToSaintConverter.java:90-95 | The integer rounding equals `Math.round` (`floor(x + 1/2)`) applied to the exact real mean. |
| `Lengths.RoundedMeanZero` | src/main/java/ca/qc/ircm/maxquant2saint/MaxquantToSaintConverter.java:93 | The rounded mean is `0` exactly when twice the sum is below the count. |
| `Lengths.MeanBelowHalf` | src/main/java/ca/qc/ircm/maxquant2saint/MaxquantToSaintConverter.java:93 | The rounded mean is `0` exactly when the real mean is below one half. |
| `Lengths.LookupEntry` | src/main/java/ca/qc/ircm/maxquant2saint/MaxquantToSaintConverter.java:107 | In an index with distinct ids, looking up an entry's id returns that entry's length. |
| `Lengths.AverageLength` | src/main/java/ca/qc/ircm/maxquant2saint/MaxquantToSaintConverter.java:88-105 | With no FASTA file the average is `0`. When none of the groups' ids resolves, it is the rounded mean of every index entry. |
| `Lengths.AverageLengthStages` | src/main/java/ca/qc/ircm/maxquant2saint/MaxquantToSaintConverter.java:88-105 | Stated with exact real means. With a FASTA file, the average is `Math.round` of the resolved lengths' mean when that mean is at least one half. Otherwise it is `Math.round` of the mean of every index entry, or `0` for an empty index. |
| `Converter.BaitRows` | src/main/java/ca/qc/ircm/maxquant2saint/MaxquantToSaintConverter.java:74-81 | There is one bait row per entry of the first group's intensity map, in the map's iteration order. Row `k` is entry `k`'s sample name, classified. |
| `Converter.PreyRows` | src/main/java/ca/qc/ircm/maxquant2saint/MaxquantToSaintConverter.java:106-116 | There is exactly one prey per group, in group order. Prey `k` is group `k`'s `;`-joined ids, its group length and its `;`-joined gene names. |
| `Converter.PreyId` | src/main/java/ca/qc/ircm/maxquant2saint/MaxquantToSaintConverter.java:114 | The prey key is `""` for no ids and the id itself for one id. When no id contains `;`, splitting the key on `;` gives back the protein ids. |
| `Converter.Gene` | src/main/java/ca/qc/ircm/maxquant2saint/MaxquantToSaintConverter.java:115 | The gene field is `""` for no names and the name itself for one name. When no name contains `;`, splitting it on `;` gives back the gene names. |
| `Converter.PreyOf` | src/main/java/ca/qc/ircm/maxquant2saint/MaxquantToSaintConverter.java:106-115 | A group's prey has the group's prey key as its id and the `;`-joined gene names as its gene, never `null`. When some id resolves, its length is the resolved length of one of the ids and at least every resolved length. When none resolves, it is the fallback average. |
| `Converter.GroupInteractions` | src/main/java/ca/qc/ircm/maxquant2saint/MaxquantToSaintConverter.java:123-133 | Each row carries the group's prey key, a detected intensity from one of the columns and that column's classified sample. Every detected column yields a row. There are at most as many rows as columns, with equality exactly when every column is detected. |
| `Converter.InteractionRows` | src/main/java/ca/qc/ircm/maxquant2saint/MaxquantToSaintConverter.java:122-134 | There are at most as many interactions as intensities across all groups, with equality exactly when no intensity is within `DELTA` of zero. |
| `Converter.Detected` | src/main/java/ca/qc/ircm/maxquant2saint/MaxquantToSaintConverter.java:124 | An intensity is detected exactly when it lies below `-DELTA` or above `DELTA`. A zero intensity is never detected. |
| `Converter.GroupInteractionsConcat` | src/main/java/ca/qc/ircm/maxquant2saint/MaxquantToSaintConverter.java:123-133 | Within a group, rows follow the intensity map's iteration order: two runs of entries give their rows one after the other. |
| `Converter.InteractionRowsConcat` | src/main/java/ca/qc/ircm/maxquant2saint/MaxquantToSaintConverter.java:122-134 | Across groups, rows follow group order: two runs of groups give their rows one after the other. |
| `Converter.InteractionRowsMembers` | src/main/java/ca/qc/ircm/maxquant2saint/MaxquantToSaintConverter.java:122-133 | An interaction is written exactly when some group has some column with `|v| > DELTA`. It then carries that column's classified sample, that group's prey key and `v`. |
| `Converter.InteractionPreysListed` | src/main/java/ca/qc/ircm/maxquant2saint/MaxquantToSaintConverter.java:113-131 | Every interaction comes from a detected column of some group. Its prey key is the id of that group's prey row. |
| `Converter.SamplesAgree` | src/main/java/ca/qc/ircm/maxquant2saint/MaxquantToSaintConverter.java:76-128 | A sample name in both the bait rows and the interactions has the same bait label and control flag in both. |
| `Converter.Convert` | src/main/java/ca/qc/ircm/maxquant2saint/MaxquantToSaintConverter.java:54-138 | The conversion fails exactly when there are no protein groups. Otherwise the bait rows are the first group's classified columns and there is one prey row per group. Each prey row has the group's ids, genes and a length computed with the two-stage average over all groups' ids. The interactions are the detected cells. |
| `Converter.WriteBaitFile` | src/main/java/ca/qc/ircm/maxquant2saint/MaxquantToSaintConverter.java:73-81 | The loop of `writeSample` calls produces the bait file of the first group's classified columns. |
| `Converter.WritePreyFile` | src/main/java/ca/qc/ircm/maxquant2saint/MaxquantToSaintConverter.java:85-116 | The loop of `writePrey` calls produces the prey file of the prey rows, one per group. |
| `Converter.CollectGroupInteractions` | src/main/java/ca/qc/ircm/maxquant2saint/MaxquantToSaintConverter.java:123-133 | The inner loop collects exactly the group's interaction rows, in the intensity map's iteration order. |
| `Converter.CollectInteractions` | src/main/java/ca/qc/ircm/maxquant2saint/MaxquantToSaintConverter.java:120-134 | The nested loops collect exactly the interaction rows, group by group. |
| `Converter.Run` | src/main/java/ca/qc/ircm/maxquant2saint/MaxquantToSaintConverter.java:54-138 | Running the three writing phases fails exactly when there is no group. Otherwise it yields the bait file text, the prey file text and the interactions of `Convert`. |
| `Saint.TypeCode` | src/main/java/ca/qc/ircm/maxquant2saint/saint/SaintBaitWriter.java:50 | The type field is always `C` or `T`, and it is `C` exactly for a control. |
| `Saint.OrEmpty` | src/main/java/ca/qc/ircm/maxquant2saint/saint/SaintBaitWriter.java:48 | `Objects.toString(value, "")` writes `null` as `""` and any other string unchanged. |
| `Saint.BaitLine` | src/main/java/ca/qc/ircm/maxquant2saint/saint/SaintBaitWriter.java:46-51 | The line starts with the name and a tab and ends with the line separator. Just before the separator come a tab and then `C` for a control or `T` otherwise. Its length is that of the three fields, two tabs and the separator. |
| `Saint.BaitLineFields` | src/main/java/ca/qc/ircm/maxquant2saint/saint/SaintBaitWriter.java:46-51 | If the name and the bait contain no tab, cutting the line separator and splitting on tabs gives exactly three fields: the name, the bait (`""` for `null`, unchanged otherwise) and `C`/`T`. |
| `Saint.WriteSample` | src/main/java/ca/qc/ircm/maxquant2saint/saint/SaintBaitWriter.java:45-52 | A call keeps everything written before as a prefix. When neither the name nor the bait holds a tab, the appended text, minus the line separator and split on tabs, reads back as exactly the name, the bait (`""` for `null`) and `C`/`T`. |
| `Saint.WriteAll` | src/main/java/ca/qc/ircm/maxquant2saint/MaxquantToSaintConverter.java:75-81 | A sequence of write calls never alters the text already written. |
| `Saint.WriteAllAppends` | src/main/java/ca/qc/ircm/maxquant2saint/MaxquantToSaintConverter.java:106-116 | Successive write calls leave the earlier text followed by the lines of the items, in call order. |
| `Saint.WriteSamplesAppends` | src/main/java/ca/qc/ircm/maxquant2saint/saint/SaintBaitWriter.java:45-52 | Successive `writeSample` calls leave the earlier text followed by the sample lines in call order. |
| `Saint.LinesConcat` | src/main/java/ca/qc/ircm/maxquant2saint/MaxquantToSaintConverter.java:75-81 | The lines of two runs of items are those of the first run followed by those of the second, so a file written in two parts is the concatenation of the parts. |
| `Saint.PreyLine` | src/main/java/ca/qc/ircm/maxquant2saint/saint/SaintPreyWriter.java:46-51 | The line starts with the id and a tab and ends with the line separator. Its length is that of the id, the decimal length, the gene field, two tabs and the separator. |
| `Saint.PreyLineFields` | src/main/java/ca/qc/ircm/maxquant2saint/saint/SaintPreyWriter.java:46-51 | If the id and the gene contain no tab, cutting the separator and splitting on tabs gives exactly three fields: the id, the decimal length and the gene (`""` for `null`). The length field parses back to the length. |
| `Saint.WritePrey` | src/main/java/ca/qc/ircm/maxquant2saint/saint/SaintPreyWriter.java:45-52 | A call keeps everything written before as a prefix. When neither the id nor the gene holds a tab, the appended text, minus the line separator and split on tabs, reads back as exactly the id, the decimal length and the gene (`""` for `null`), and the length field parses back to the length. |
| `Saint.WritePreysAppends` | src/main/java/ca/qc/ircm/maxquant2saint/saint/SaintPreyWriter.java:45-52 | Successive `writePrey` calls leave the earlier text followed by the prey lines in call order. |
| `Text.IntToDecimal` | src/main/java/ca/qc/ircm/maxquant2saint/saint/SaintPreyWriter.java:48 | `String.valueOf(int)` gives only digits for a non-negative number, and `-` followed by digits otherwise. |
| `Text.NatToDecimal` | src/main/java/ca/qc/ircm/maxquant2saint/saint/SaintPreyWriter.java:48 | The rendering is non-empty, contains only digits and has no leading zero. |
| `Text.DecimalRoundTrip` | src/main/java/ca/qc/ircm/maxquant2saint/saint/SaintPreyWriter.java:48 | Parsing the decimal rendering of any `int` gives back that `int`. |
| `Text.SplitJoin` | src/main/java/ca/qc/ircm/maxquant2saint/MaxquantToSaintConverter.java:114 | Splitting a non-empty list joined with a separator that no element contains gives back the list. This holds for a prey key's protein ids on `;` and for a line's fields on a tab. |
| `Text.Join` | src/main/java/ca/qc/ircm/maxquant2saint/MaxquantToSaintConverter.java:114-115 | `Collectors.joining` gives `""` for no parts, the part itself for one part, and otherwise text that starts with the first part. `SplitJoin` is its inverse. |

## Left out

- File handling is not modelled: `resolveSibling` for the output paths, `Files.newBufferedWriter`, `close()` and try-with-resources. Writes never fail in the model, so wrapping an `IOException` into an `IllegalStateException` has no counterpart.
- Partial output is not modelled. When there are no groups, the source has already created an empty bait file before `groups.get(0)` throws. The model only reports `NoProteinGroups`.
- Logging calls are not modelled. They do not affect the output.
- Spring wiring and the injected configuration are not modelled. The configuration is reduced to the two abstract patterns in `Rules`.
- Regular-expression semantics are not modelled: compiling, `matches` and `group(1)`. Neither are the exceptions of an invalid pattern or of a bait pattern that has no group 1.
- Table parsing (`MaxquantService.proteinGroups`) and FASTA parsing (`SequenceService.sequencesLength`) are not part of this model. Their results are the inputs `groups` and `fasta`.
- `SaintInteractionWriter` is not part of this model, and its line format is not visible. Interactions are records of sample, prey key and intensity.
- Intensities are exact reals. Double formatting, NaN (where `Math.abs(NaN) > DELTA` is false) and IEEE rounding in `Math.abs` are not modelled.
- The average is computed in exact integer arithmetic. The source divides a `long` sum by the count in `double` before `Math.round`, so very large sums may round differently there. This approximation is deliberate.
- Lengths are unbounded naturals. Java's 32-bit `int` lengths and the `(int)` cast of the rounded mean are not modelled as wrapping, since lengths and their means stay far below 2^31.
- Repeated sample names within one group's intensities are accepted, although a Java `Map` cannot hold them. The model is more general there: every statement also holds for distinct names.
- `null` elements inside the protein id or gene name lists are not modelled. Neither is a `null` prey id, which the writer would reject.
- The explicit bait-to-samples mapping classifier is not modelled. It belongs to another converter variant that is not part of this model.
