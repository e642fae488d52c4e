# pomerger, modelled in Dafny

pomerger is a one-class Java command-line tool. It fills in a partially
translated gettext-style `.po` file from an untranslated reference file. Both
files are read as groups of three lines:

- a `#` comment line, which keys the entry;
- a `msgid "…"` line;
- a `msgstr "…"` line.

The tool works in these steps:

1. It parses both files into entries.
2. It builds a lookup map of the translated entries, keyed by comment.
3. It reports whether any reference comment repeats.
4. It refuses to continue if the translated file has a comment the reference lacks.
5. It walks the reference entries in order, taking the translated entry with the
   same comment when there is one.
6. It writes the result as `output.po` in the directory named by the third argument.

This project models that core and proves properties about it.

- `entries.dfy` (`Entries`) holds:
  - the `Entry` record;
  - the `Failure` values that stand in for every way the program stops (exit 2,
    exit 3, the usage error and the two uncaught exceptions) and their exit statuses;
  - `isTranslated` (`String.isBlank`);
  - the comment key sets.
- `quoted_field.dfy` (`QuotedField`) holds `String.replaceFirst` with the two fixed
  patterns `msgid "(.*)"$` and `msgstr "(.*)"$` and replacement `$1`, under Java's
  default regex flags:
  - `.` matches anything but the five Java line terminators;
  - `$` holds at the end of the input, or before one final terminator or a final `\r\n`;
  - the match is the leftmost one, then the longest.
- `parser.dfy` (`Parser`) holds the parse loop, which steps through the lines three
  at a time. It is a method proved against a specification function on the raw
  line groups. Its failures are:
  - a group head without `#` (exit status 2);
  - `List.get` past the end of a short last group.
- `validator.dfy` (`Validator`) holds:
  - `Collectors.toMap`, which fails on the first repeated translated comment;
  - the duplicate-comment check on the reference, which only chooses a message;
  - the key check that ends the run with exit status 3. It is modelled both as
    the code writes it and as corrected (see Findings). The run's failure carries
    both: the key list the code prints and the orphaned keys that caused the stop.
- `merger.dfy` (`Merger`) holds the merge loop, a method proved against a
  specification function.
- `writer.dfy` (`Writer`) holds the three-lines-per-entry output and the output path.
- `round_trip.dfy` (`RoundTrip`) shows that the writer and the parser fit together,
  and that a merge is stable when run again.
- `pomerger.dfy` (`PoMerger`) holds the whole of `main`, as the method `Run`, which
  is proved equal to the step-by-step function `MergeFiles`. It also holds
  lemmas about when a run writes, how it stops and what it writes.

Two behaviours follow the code:

- A line count that is not a multiple of three stops with exit status 2 only when
  the stray group's first line lacks `#`. Otherwise `lines.get(i + 1)` or
  `lines.get(i + 2)` throws `IndexOutOfBoundsException` at index `|lines|`; that
  exception is uncaught, so the exit status is 1.
- A comment repeated in the translated file does not make a later entry win.
  `Collectors.toMap` without a merge function throws `IllegalStateException` on the
  first repeated comment, so the run stops with exit status 1.

## Model

| member | source | states |
|---|---|---|
| `Entries.ExitCode` | src/io/github/zeroone3010/pomerger/PoMerger.java:26-72 | status 2 exactly for the out-of-sync stop, 3 exactly for orphaned keys, 1 for every other stop (the usage error and the uncaught exceptions) |
| `Entries.IndexOfNonWhitespace` | src/io/github/zeroone3010/pomerger/PoMerger.java:22 | the position of the first non-whitespace character: everything before it is whitespace, and it is not |
| `Entries.IsTranslated` | src/io/github/zeroone3010/pomerger/PoMerger.java:21-23 | an entry is translated exactly when its msgstr has a non-whitespace character, so never when it is empty |
| `Entries.CountTranslated` | src/io/github/zeroone3010/pomerger/PoMerger.java:49 | the translated count is at most the entry count, is zero exactly when no entry is translated, and equals the entry count exactly when all are |
| `Entries.CountTranslatedAppend` | src/io/github/zeroone3010/pomerger/PoMerger.java:49 | counting is additive: the count of two runs of entries one after the other is the sum of their counts |
| `Entries.CountTranslatedSingle` | src/io/github/zeroone3010/pomerger/PoMerger.java:49 | one entry counts 1 exactly when it is translated and 0 otherwise; with additivity, the count is the number of translated entries |
| `Entries.Keys` | src/io/github/zeroone3010/pomerger/PoMerger.java:55-56 | the key set holds every entry's comment and nothing else, and has no more elements than there are entries |
| `Entries.KeyCountIff` | src/io/github/zeroone3010/pomerger/PoMerger.java:58-59 | the key set has as many elements as there are entries exactly when no comment repeats |
| `QuotedField.ClosingQuote` | src/io/github/zeroone3010/pomerger/PoMerger.java:17-18 | a quote followed by `$` can sit at one position only, and this finds it when there is one |
| `QuotedField.LeftmostFrom` | src/io/github/zeroone3010/pomerger/PoMerger.java:17-18 | the first start position, from p on, where the pattern matches up to a given closing quote, or none at all |
| `QuotedField.FirstMatch` | src/io/github/zeroone3010/pomerger/PoMerger.java:17-18 | the match the regex engine reports: it is a match; no match starts further left; no match at the same start ends further right; none exists when it reports none |
| `QuotedField.ReplaceFirst` | src/io/github/zeroone3010/pomerger/PoMerger.java:107-108 | a line with no match comes back unchanged; otherwise the first match is replaced by its group, and the text around it is kept |
| `QuotedField.ExtractEnclosed` | src/io/github/zeroone3010/pomerger/PoMerger.java:107-108 | a line that is exactly `msgid "t"` or `msgstr "t"` yields t, whenever t has no line terminator |
| `Parser.Parse` | src/io/github/zeroone3010/pomerger/PoMerger.java:99-112 | the parse loop, with its early stops, computes the grouping specification `Parsed` |
| `Parser.GroupsFromSpec` | src/io/github/zeroone3010/pomerger/PoMerger.java:101-110 | from group g on, grouping succeeds exactly when the rest is whole groups each opened by `#`; the groups are then the consecutive line triples |
| `Parser.ParseSpec` | src/io/github/zeroone3010/pomerger/PoMerger.java:99-112 | parse succeeds exactly on well-formed input (a multiple of three lines, every group head starting with `#`); it then returns one entry per group, in order, built from lines 3g, 3g+1 and 3g+2 |
| `Parser.ParsedComments` | src/io/github/zeroone3010/pomerger/PoMerger.java:102-109 | every parsed entry's comment is its group's first line, unchanged, and starts with `#` |
| `Parser.GroupsOutOfSync` | src/io/github/zeroone3010/pomerger/PoMerger.java:101-106 | from group g, the first group head without `#` stops grouping with the out-of-sync failure naming that line |
| `Parser.ParseOutOfSync` | src/io/github/zeroone3010/pomerger/PoMerger.java:103-106 | the first group head without `#` stops the parse with the out-of-sync failure at its line index and the line count |
| `Parser.GroupsShortLastGroup` | src/io/github/zeroone3010/pomerger/PoMerger.java:101-108 | from group g, a short last group whose head has `#` makes grouping fail with an index-out-of-bounds at the line count |
| `Parser.ParseShortLastGroup` | src/io/github/zeroone3010/pomerger/PoMerger.java:107-108 | with every group head a comment line but a line count that is not a multiple of three, parse fails with an index-out-of-bounds at index `|lines|` |
| `Parser.GroupsFailureKinds` | src/io/github/zeroone3010/pomerger/PoMerger.java:101-110 | parsing fails only out of sync or out of bounds |
| `Validator.IndexByComment` | src/io/github/zeroone3010/pomerger/PoMerger.java:45-46 | toMap succeeds exactly when the comments are distinct. It then maps each entry's comment to that entry, and its keys are the key set. Otherwise it fails with the duplicate-key error naming the first comment that repeats an earlier one |
| `Validator.IndexStep` | src/io/github/zeroone3010/pomerger/PoMerger.java:45-46 | one toMap step on a new comment keeps the map equal to what was built from the entries so far |
| `Validator.DistinctStep` | src/io/github/zeroone3010/pomerger/PoMerger.java:45-46 | a new comment keeps the prefix read so far free of repeats |
| `Validator.IndexFromOk` | src/io/github/zeroone3010/pomerger/PoMerger.java:45-46 | on distinct comments toMap runs to the end and files every entry |
| `Validator.IndexFromErr` | src/io/github/zeroone3010/pomerger/PoMerger.java:45-46 | on repeated comments toMap throws, naming the first entry whose comment already appeared |
| `Validator.IndexFromAllNew` | src/io/github/zeroone3010/pomerger/PoMerger.java:45-46 | on distinct comments the map built has exactly the list's key set |
| `Validator.IndexedKeys` | src/io/github/zeroone3010/pomerger/PoMerger.java:45-46 | a map built from the whole list has the list's key set |
| `Validator.HasDuplicateKeys` | src/io/github/zeroone3010/pomerger/PoMerger.java:58-63 | the "which is an error!" message is chosen exactly when two reference entries share a comment |
| `Validator.CheckKeysAsWritten` | src/io/github/zeroone3010/pomerger/PoMerger.java:64-71 | as written: the check passes exactly when every translated key is a reference key; otherwise it reports reference keys minus translated keys |
| `Validator.AsWrittenReportOmitsOrphans` | src/io/github/zeroone3010/pomerger/PoMerger.java:69-70 | the as-written report never contains a single key that made the check fail |
| `Validator.AsWrittenReportCounterexample` | src/io/github/zeroone3010/pomerger/PoMerger.java:64-70 | with reference keys {#a} and translated keys {#a, #b} the check fails because of #b, yet the as-written report is empty |
| `Validator.CheckKeys` | src/io/github/zeroone3010/pomerger/PoMerger.java:64-71 | corrected: the check passes exactly when every translated key is a reference key; otherwise it reports exactly the translated keys the reference lacks, and that set is non-empty |
| `Validator.Validated` | src/io/github/zeroone3010/pomerger/PoMerger.java:45-72 | the run goes past validation exactly when the translated comments are distinct and all are reference comments, carrying the toMap result. A repeated translated comment is reported before orphaned keys. On orphaned keys the failure holds the list main prints, exactly the reference keys the translated file lacks, and the non-empty set of exactly the orphaned keys; the two share no key |
| `Validator.Validate` | src/io/github/zeroone3010/pomerger/PoMerger.java:45-72 | toMap, then the key check as written (containsAll, then removeAll for the printed list), each stopping on failure, computes `Validated` |
| `Merger.MergedAt` | src/io/github/zeroone3010/pomerger/PoMerger.java:76-80 | the merged list is as long as the reference. Position i holds the translated entry filed under ref[i]'s comment if there is one, else ref[i] itself |
| `Merger.Merge` | src/io/github/zeroone3010/pomerger/PoMerger.java:76-80 | the merge loop computes `Merged`: same length as the reference, each position the looked-up translated entry or the reference entry |
| `Merger.MergeKeepsComments` | src/io/github/zeroone3010/pomerger/PoMerger.java:78-79 | with a map keyed by comment, the merged list has the reference's comments, position by position |
| `Merger.MergeTakesWholeEntries` | src/io/github/zeroone3010/pomerger/PoMerger.java:79 | every merged entry is the reference entry or a whole translated entry, never a mix of fields |
| `Merger.MergeIdempotent` | src/io/github/zeroone3010/pomerger/PoMerger.java:76-80 | merging the merged list again against the same map changes nothing |
| `Merger.MergeKeepsKeys` | src/io/github/zeroone3010/pomerger/PoMerger.java:76-80 | the merged list has the reference's key set |
| `Writer.Serialize` | src/io/github/zeroone3010/pomerger/PoMerger.java:81-85 | three lines per entry, in order: the comment, `msgid "<msgid>"`, `msgstr "<msgstr>"` |
| `Writer.OutputPath` | src/io/github/zeroone3010/pomerger/PoMerger.java:37-42 | the path starts with the directory argument and ends with a separator and `output.po`. The separator is added exactly when the directory does not already end with one, so it is never doubled |
| `RoundTrip.ReadBackEntry` | src/io/github/zeroone3010/pomerger/PoMerger.java:83-84 | the three lines written for an entry are parsed back as that entry |
| `RoundTrip.SerializeWellFormed` | src/io/github/zeroone3010/pomerger/PoMerger.java:81-85 | what the writer writes for entries with `#` comments is a file the parser accepts |
| `RoundTrip.ParseSerialize` | src/io/github/zeroone3010/pomerger/PoMerger.java:81-85 | parsing the written lines gives back exactly the entries written |
| `RoundTrip.OutputReadsBack` | src/io/github/zeroone3010/pomerger/PoMerger.java:76-85 | the output file of a merge is parsed back as the merged entries |
| `RoundTrip.RemergeStable` | src/io/github/zeroone3010/pomerger/PoMerger.java:45-80 | with distinct reference comments the merged list has distinct comments, and merging again with it as the translated file reproduces it |
| `PoMerger.Run` | src/io/github/zeroone3010/pomerger/PoMerger.java:26-91 | main, step by step, computes `MergeFiles`: the usage check, both parses, validation, the merge, serialisation and the output path |
| `PoMerger.RunWritesIff` | src/io/github/zeroone3010/pomerger/PoMerger.java:26-91 | a run writes exactly when there are three arguments, both files parse, the translated comments are distinct and all of them are reference comments; repeated reference comments do not stop it |
| `PoMerger.RunExitStatus` | src/io/github/zeroone3010/pomerger/PoMerger.java:26-72 | the usage error happens exactly when there are not three arguments; status 2 exactly when a group head of the reference file, or else of the translated file, lacks `#`; a repeated-translated-comment stop exactly when both files parse and the translated comments repeat; status 3 exactly when both files parse, the translated comments are distinct and one of them is not a reference comment |
| `PoMerger.OrphanedKeysStopTheRun` | src/io/github/zeroone3010/pomerger/PoMerger.java:64-72 | a translated key that the reference lacks stops the run with status 3 and writes nothing. The printed list is exactly the reference keys the translated file lacks, and holds none of the orphaned keys; the failure also records the non-empty set of exactly the orphaned keys |
| `PoMerger.WrittenOutput` | src/io/github/zeroone3010/pomerger/PoMerger.java:37-91 | a written output goes to the output path. It has as many lines as the reference file, one entry per reference entry, and the reference's comment lines at the same positions |
| `PoMerger.EmptyTranslationCopiesReference` | src/io/github/zeroone3010/pomerger/PoMerger.java:76-85 | with an empty translated file the output is the reference entries, rewritten |
| `PoMerger.RerunIsStable` | src/io/github/zeroone3010/pomerger/PoMerger.java:26-91 | re-running with the output as the translated file writes the same lines to the same path |
| `PoMerger.RerunAfterDuplicatesFails` | src/io/github/zeroone3010/pomerger/PoMerger.java:58-79 | repeated reference comments are reported but copied into the output, so a later run with that output as the translated file stops on a duplicate key |

## Left out

- Reading and writing files (`Files.readAllLines`, `Files.write`), and their
  `IOException`s and charset errors, are not modelled. The lines of both input files
  are parameters, and the written lines and path are the result.
- Everything printed to standard output or standard error is left out, except the
  choice of the duplicate-comment message and the key list printed on orphaned keys. The messages carry no state, and `Report`
  keeps the counts they show.
- `System.exit` and the JVM's handling of uncaught exceptions become `Failure`
  values. `Entries.ExitCode` gives the status each would produce.
- The timing (`System.currentTimeMillis`) is not modelled: it only feeds a printed
  message.
- `percentage` is not modelled: it is float arithmetic that only feeds printed
  messages.
- `Path.of` is not modelled beyond the string it is given: the platform's path
  normalisation is not captured. `File.separator` is a parameter.
- `Character.isWhitespace`, which `String.isBlank` uses, is a parameter, so the
  Unicode whitespace table is not modelled.
- The regex engine is not modelled in general. Only the two fixed patterns and the
  replacement `$1` are.
- `RoundTrip.ParseSerialize` covers only entries whose payloads contain no line
  terminator, and whose comments start with `#`. A payload with a line terminator
  cannot pass through Java's `.`, and the file format cannot carry it either.
- `PoMerger.RerunIsStable` covers only distinct reference comments and payloads
  without line terminators. With repeated reference comments a re-run stops instead,
  as `PoMerger.RerunAfterDuplicatesFails` states.

## Findings

| source | as written | input that shows it | evidently intended | confidence | as-written member | corrected member |
|---|---|---|---|---|---|---|
| src/io/github/zeroone3010/pomerger/PoMerger.java:69-70 | when translated keys are missing from the reference, `untranslatedFileKeys.removeAll(translatedFileKeys)` is printed, i.e. reference keys minus translated keys, which never contains a key that caused the failure | reference comments {#a}, translated comments {#a, #b}: the run stops with exit status 3 and prints an empty key list instead of #b | report the translated keys the reference lacks (translated keys minus reference keys) | not executed | `Validator.CheckKeysAsWritten`, `Validator.AsWrittenReportCounterexample` | `Validator.CheckKeys` |

The whole-run model keeps the list as written in the failure's `printed` field and
records the corrected set beside it in `orphans`; `PoMerger.OrphanedKeysStopTheRun`
states both.
