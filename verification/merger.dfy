/** The merge: one output entry per reference entry, in reference order, taking the
    translated file's entry with the same comment whenever there is one. */
module Merger {
  import opened Entries
  import opened Validator

  /** requireNonNullElse(translatedEntries.get(e.comment()), e): the whole
      translated entry, or the reference entry unchanged. */
  function Pick(e: Entry, translated: map<string, Entry>): Entry {
    if e.comment in translated then translated[e.comment] else e
  }

  /** The merged list, entry by entry. */
  function Merged(ref: seq<Entry>, translated: map<string, Entry>): seq<Entry> {
    if ref == [] then [] else [Pick(ref[0], translated)] + Merged(ref[1..], translated)
  }

  /** The merged list is as long as the reference list, and position i holds the
      translated entry filed under ref[i]'s comment if there is one, else ref[i]. */
  lemma {:induction false} MergedAt(ref: seq<Entry>, translated: map<string, Entry>)
    ensures |Merged(ref, translated)| == |ref|
    ensures forall i :: 0 <= i < |ref| ==> Merged(ref, translated)[i] == Pick(ref[i], translated)
  {
    if ref != [] {
      MergedAt(ref[1..], translated);
      forall i | 1 <= i < |ref| ensures Merged(ref, translated)[i] == Pick(ref[i], translated) {
        assert ref[i] == ref[1..][i - 1];
      }
    }
  }

  /** The merge loop: for each reference entry, in order, append the entry Pick
      chooses. */
  method Merge(ref: seq<Entry>, translated: map<string, Entry>) returns (combined: seq<Entry>)
    ensures combined == Merged(ref, translated)
    ensures |combined| == |ref|
    ensures forall i :: 0 <= i < |ref| ==>
              combined[i] == (if ref[i].comment in translated then translated[ref[i].comment] else ref[i])
  {
    combined := [];
    for i := 0 to |ref|
      invariant |combined| == i
      invariant forall j :: 0 <= j < i ==> combined[j] == Pick(ref[j], translated)
    {
      combined := combined + [Pick(ref[i], translated)];
    }
    MergedAt(ref, translated);
  }

  /** With a lookup map that files each entry under its own comment, the merged list
      has the reference's comments, position by position. */
  lemma MergeKeepsComments(ref: seq<Entry>, translated: map<string, Entry>)
    requires KeyedByComment(translated)
    ensures |Merged(ref, translated)| == |ref|
    ensures forall i :: 0 <= i < |ref| ==> Merged(ref, translated)[i].comment == ref[i].comment
  {
    MergedAt(ref, translated);
  }

  /** Merging is whole-entry: every output entry is the reference entry at its
      position or a value of the lookup map, never a mix of fields. */
  lemma MergeTakesWholeEntries(ref: seq<Entry>, translated: map<string, Entry>)
    ensures |Merged(ref, translated)| == |ref|
    ensures forall i :: 0 <= i < |ref| ==>
              Merged(ref, translated)[i] == ref[i] || Merged(ref, translated)[i] in translated.Values
  {
    MergedAt(ref, translated);
  }

  /** Merging the merged list again against the same lookup map changes nothing. */
  lemma MergeIdempotent(ref: seq<Entry>, translated: map<string, Entry>)
    requires KeyedByComment(translated)
    ensures Merged(Merged(ref, translated), translated) == Merged(ref, translated)
  {
    var once := Merged(ref, translated);
    MergedAt(ref, translated);
    MergedAt(once, translated);
    forall i | 0 <= i < |once| ensures Merged(once, translated)[i] == once[i] {
      assert once[i] == Pick(ref[i], translated);
    }
  }

  /** The merged list has the reference's key set. */
  lemma MergeKeepsKeys(ref: seq<Entry>, translated: map<string, Entry>)
    requires KeyedByComment(translated)
    ensures Keys(Merged(ref, translated)) == Keys(ref)
  {
    var out := Merged(ref, translated);
    MergeKeepsComments(ref, translated);
    forall k | k in Keys(out) ensures k in Keys(ref) {
      var i :| 0 <= i < |out| && out[i].comment == k;
      assert ref[i].comment == k;
    }
    forall k | k in Keys(ref) ensures k in Keys(out) {
      var i :| 0 <= i < |ref| && ref[i].comment == k;
      assert out[i].comment == k;
    }
  }
}
