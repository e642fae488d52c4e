/** The whole run of the merger: read the reference (untranslated) and translated
    files, validate them, merge and write `output.po`. The two files' lines are
    parameters (the reading itself is not modelled) and every way the run stops is
    a Failure value instead of a process exit. */
module PoMerger {
  import opened Entries
  import opened Parser
  import opened Validator
  import opened Merger
  import opened Writer
  import opened RoundTrip

  /** The counts the run reports on its way. */
  datatype Report = Report(
    refEntries: nat,
    refLines: nat,
    trEntries: nat,
    trLines: nat,
    translatedCount: nat,
    uniqueRefKeys: nat,
    refHasDuplicates: bool,
    writtenEntries: nat,
    writtenLines: nat)

  /** A finished run writes `lines` to `path`; any other run stops with a failure. */
  datatype Outcome = Written(path: string, lines: seq<string>, report: Report) | Stopped(failure: Failure)

  /** What a run does, step by step in the order of main: the argument count, the
      reference parse, the translated parse, the lookup map of translated entries,
      the key check, then the merge and the output. */
  function MergeFiles(args: seq<string>, refLines: seq<string>, trLines: seq<string>,
                      separator: char, isWhitespace: char -> bool): Outcome
  {
    if |args| != 3 then Stopped(UsageError)
    else if Parsed(refLines).Err? then Stopped(Parsed(refLines).error)
    else if Parsed(trLines).Err? then Stopped(Parsed(trLines).error)
    else
      var ref, tr := Parsed(refLines).value, Parsed(trLines).value;
      match Validated(ref, tr)
      case Err(f) => Stopped(f)
      case Ok(translated) =>
        var combined := Merged(ref, translated);
        var raw := Serialize(combined);
        Written(OutputPath(args[2], separator), raw,
                Report(|ref|, |refLines|, |tr|, |trLines|, CountTranslated(tr, isWhitespace),
                       |Keys(ref)|, HasDuplicateKeys(ref), |combined|, |raw|))
  }

  /** main: each step as the program takes it, stopping at the first failure. */
  method Run(args: seq<string>, refLines: seq<string>, trLines: seq<string>,
             separator: char, isWhitespace: char -> bool) returns (outcome: Outcome)
    ensures outcome == MergeFiles(args, refLines, trLines, separator, isWhitespace)
  {
    if |args| != 3 {
      return Stopped(UsageError);
    }
    var refParsed := Parse(refLines);
    if refParsed.Err? {
      return Stopped(refParsed.error);
    }
    var untranslatedFile := refParsed.value;
    var trParsed := Parse(trLines);
    if trParsed.Err? {
      return Stopped(trParsed.error);
    }
    var translatedFile := trParsed.value;
    var outputFilePath := OutputPath(args[2], separator);
    var translatedEntries := Validate(untranslatedFile, translatedFile);
    if translatedEntries.Err? {
      return Stopped(translatedEntries.error);
    }
    var translatedEntryCount := CountTranslated(translatedFile, isWhitespace);
    var uniqueKeys := |Keys(untranslatedFile)|;
    var duplicates := HasDuplicateKeys(untranslatedFile);
    var combinedResult := Merge(untranslatedFile, translatedEntries.value);
    var rawOutput := Serialize(combinedResult);
    var report := Report(|untranslatedFile|, |refLines|, |translatedFile|, |trLines|,
                         translatedEntryCount, uniqueKeys, duplicates, |combinedResult|, |rawOutput|);
    return Written(outputFilePath, rawOutput, report);
  }

  /** A run writes its output exactly when there are three arguments, both files are
      well-formed, the translated file's comments are distinct and all of them are
      reference comments. Repeated reference comments do not stop the run. */
  lemma RunWritesIff(args: seq<string>, refLines: seq<string>, trLines: seq<string>,
                     separator: char, isWhitespace: char -> bool)
    ensures MergeFiles(args, refLines, trLines, separator, isWhitespace).Written? <==>
              && |args| == 3
              && Parsed(refLines).Ok?
              && Parsed(trLines).Ok?
              && DistinctComments(Parsed(trLines).value)
              && Keys(Parsed(trLines).value) <= Keys(Parsed(refLines).value)
  {
    ParseSpec(refLines);
    ParseSpec(trLines);
  }

  /** Which run stops with which exit status: the usage error (status 1) exactly
      when there are not three arguments; status 2 exactly when a file's group head
      lacks '#', the reference file being read first; status 1 for a repeated
      translated comment exactly when both files parse and toMap meets it; status 3
      exactly when both files parse, the translated comments are distinct and some
      of them are not reference comments. */
  lemma RunExitStatus(args: seq<string>, refLines: seq<string>, trLines: seq<string>,
                      separator: char, isWhitespace: char -> bool)
    ensures var outcome := MergeFiles(args, refLines, trLines, separator, isWhitespace);
            var ref, tr := Parsed(refLines), Parsed(trLines);
            && (outcome.Stopped? && outcome.failure.UsageError? <==> |args| != 3)
            && (outcome.Stopped? && ExitCode(outcome.failure) == 2 <==>
                  && |args| == 3
                  && ((ref.Err? && ref.error.OutOfSync?) || (ref.Ok? && tr.Err? && tr.error.OutOfSync?)))
            && (outcome.Stopped? && outcome.failure.DuplicateKey? <==>
                  |args| == 3 && ref.Ok? && tr.Ok? && !DistinctComments(tr.value))
            && (outcome.Stopped? && ExitCode(outcome.failure) == 3 <==>
                  && |args| == 3 && ref.Ok? && tr.Ok? && DistinctComments(tr.value)
                  && !(Keys(tr.value) <= Keys(ref.value)))
  {
    GroupsFailureKinds(refLines, 0);
    GroupsFailureKinds(trLines, 0);
  }

  /** When the translated file holds a key the reference lacks, nothing is written and
      the run stops with exit status 3. The failure records those keys, and the list
      main prints is the reference keys the translated file lacks, which holds none
      of them. */
  lemma OrphanedKeysStopTheRun(args: seq<string>, refLines: seq<string>, trLines: seq<string>,
                               separator: char, isWhitespace: char -> bool)
    requires |args| == 3 && Parsed(refLines).Ok? && Parsed(trLines).Ok?
    requires DistinctComments(Parsed(trLines).value)
    requires !(Keys(Parsed(trLines).value) <= Keys(Parsed(refLines).value))
    ensures var outcome := MergeFiles(args, refLines, trLines, separator, isWhitespace);
            var ref, tr := Parsed(refLines).value, Parsed(trLines).value;
            && outcome.Stopped?
            && ExitCode(outcome.failure) == 3
            && outcome.failure.OrphanedKeys?
            && (forall k :: k in outcome.failure.printed <==> k in Keys(ref) && k !in Keys(tr))
            && outcome.failure.orphans != {}
            && (forall k :: k in outcome.failure.orphans <==> k in Keys(tr) && k !in Keys(ref))
            && (forall k :: k in outcome.failure.orphans ==> k !in outcome.failure.printed)
  {
  }

  /** A written output: it goes to `output.po` in the given directory; it holds one
      three-line group per reference entry, in reference order, with the reference's
      comments; and the parser reads it back as the merged entries whenever the
      payloads of both files hold no line terminator. */
  lemma WrittenOutput(args: seq<string>, refLines: seq<string>, trLines: seq<string>,
                      separator: char, isWhitespace: char -> bool)
    requires MergeFiles(args, refLines, trLines, separator, isWhitespace).Written?
    ensures var outcome := MergeFiles(args, refLines, trLines, separator, isWhitespace);
            && outcome.path == OutputPath(args[2], separator)
            && |outcome.lines| == |refLines|
            && outcome.report.writtenEntries == outcome.report.refEntries
            && outcome.report.writtenLines == 3 * outcome.report.writtenEntries
            && forall g :: 0 <= 3 * g < |refLines| ==> outcome.lines[3 * g] == refLines[3 * g]
  {
    ParseSpec(refLines);
    ParsedComments(refLines);
    var ref, tr := Parsed(refLines).value, Parsed(trLines).value;
    var m := IndexByComment(tr).value;
    MergeKeepsComments(ref, m);
    var combined := Merged(ref, m);
    var out := Serialize(combined);
    forall g | 0 <= 3 * g < |refLines| ensures out[3 * g] == refLines[3 * g] {
      assert g < |ref|;
      assert out[3 * g] == combined[g].comment;
    }
  }

  /** With an empty translated file the output repeats the reference entries. */
  lemma EmptyTranslationCopiesReference(args: seq<string>, refLines: seq<string>,
                                        separator: char, isWhitespace: char -> bool)
    requires |args| == 3 && WellFormed(refLines)
    ensures var outcome := MergeFiles(args, refLines, [], separator, isWhitespace);
            outcome.Written? && outcome.lines == Serialize(Parsed(refLines).value)
  {
    ParseSpec(refLines);
    ParseSpec([]);
    var ref := Parsed(refLines).value;
    var m := IndexByComment([]).value;
    assert m == map[];
    MergedAt(ref, m);
    assert Merged(ref, m) == ref;
  }

  /** Re-running the merger with the reference file and its own output as the
      translated file writes the same output again, when the reference comments are
      distinct and no payload of either file holds a line terminator. */
  lemma RerunIsStable(args: seq<string>, refLines: seq<string>, trLines: seq<string>,
                      separator: char, isWhitespace: char -> bool)
    requires MergeFiles(args, refLines, trLines, separator, isWhitespace).Written?
    requires DistinctComments(Parsed(refLines).value)
    requires forall i :: 0 <= i < |Parsed(refLines).value| ==> Writable(Parsed(refLines).value[i])
    requires forall i :: 0 <= i < |Parsed(trLines).value| ==> Writable(Parsed(trLines).value[i])
    ensures var first := MergeFiles(args, refLines, trLines, separator, isWhitespace);
            var second := MergeFiles(args, refLines, first.lines, separator, isWhitespace);
            second.Written? && second.lines == first.lines && second.path == first.path
  {
    var ref, tr := Parsed(refLines).value, Parsed(trLines).value;
    var m := Validated(ref, tr).value;
    forall k | k in m ensures Writable(m[k]) {
      var i :| 0 <= i < |tr| && tr[i].comment == k;
      assert m[k] == tr[i];
    }
    var combined := Merged(ref, m);
    var first := MergeFiles(args, refLines, trLines, separator, isWhitespace);
    assert first.lines == Serialize(combined);
    OutputReadsBack(ref, m);
    assert Parsed(first.lines) == Ok(combined);
    RemergeStable(ref, m);
    MergeKeepsKeys(ref, m);
    assert Validated(ref, combined) == IndexByComment(combined);
  }

  /** Repeated reference comments are reported but do not stop the run; they are
      copied into the output, so the output cannot serve as the translated file of a
      later run: that run stops when toMap meets the repeated comment. */
  lemma RerunAfterDuplicatesFails(args: seq<string>, refLines: seq<string>, trLines: seq<string>,
                                  separator: char, isWhitespace: char -> bool)
    requires MergeFiles(args, refLines, trLines, separator, isWhitespace).Written?
    requires !DistinctComments(Parsed(refLines).value)
    requires forall i :: 0 <= i < |Parsed(refLines).value| ==> Writable(Parsed(refLines).value[i])
    requires forall i :: 0 <= i < |Parsed(trLines).value| ==> Writable(Parsed(trLines).value[i])
    ensures var first := MergeFiles(args, refLines, trLines, separator, isWhitespace);
            && first.report.refHasDuplicates
            && MergeFiles(args, refLines, first.lines, separator, isWhitespace).Stopped?
            && MergeFiles(args, refLines, first.lines, separator, isWhitespace).failure.DuplicateKey?
  {
    var ref, tr := Parsed(refLines).value, Parsed(trLines).value;
    var m := Validated(ref, tr).value;
    forall k | k in m ensures Writable(m[k]) {
      var i :| 0 <= i < |tr| && tr[i].comment == k;
      assert m[k] == tr[i];
    }
    var combined := Merged(ref, m);
    var first := MergeFiles(args, refLines, trLines, separator, isWhitespace);
    assert first.lines == Serialize(combined);
    OutputReadsBack(ref, m);
    assert Parsed(first.lines) == Ok(combined);
    MergeKeepsComments(ref, m);
    var a, b :| 0 <= a < b < |ref| && ref[a].comment == ref[b].comment;
    assert combined[a].comment == combined[b].comment;
    assert !DistinctComments(combined);
  }
}
