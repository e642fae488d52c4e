/** How the writer and the parser fit together: the written output file is read
    back by the parser as exactly the merged entries, so a merged file can serve as
    the translated input of the next merge. */
module RoundTrip {
  import opened Entries
  import opened QuotedField
  import opened Parser
  import opened Merger
  import opened Validator
  import opened Writer

  /** An entry the three-line format can carry: its comment line opens a group and
      neither payload holds a line terminator. */
  predicate Writable(e: Entry) {
    IsCommentLine(e.comment) && NoLineTerminator(e.msgid) && NoLineTerminator(e.msgstr)
  }

  /** The three lines written for a writable entry are read back as that entry. */
  lemma ReadBackEntry(e: Entry)
    requires Writable(e)
    ensures ToEntry(Group(e.comment, MsgidLine(e.msgid), MsgstrLine(e.msgstr))) == e
  {
    ExtractEnclosed(MsgidLead, e.msgid);
    ExtractEnclosed(MsgstrLead, e.msgstr);
    assert MsgidLine(e.msgid) == MsgidLead + e.msgid + "\"";
    assert MsgstrLine(e.msgstr) == MsgstrLead + e.msgstr + "\"";
  }

  /** What the writer writes for entries with comment lines is a file the parser
      accepts. */
  lemma SerializeWellFormed(es: seq<Entry>)
    requires forall i :: 0 <= i < |es| ==> IsCommentLine(es[i].comment)
    ensures WellFormed(Serialize(es))
  {
    var lines := Serialize(es);
    WholeGroups(|es|);
    forall g: nat | 3 * g < |lines| ensures IsCommentLine(GroupHead(lines, g)) {
      assert g < |es|;
      assert lines[3 * g] == es[g].comment;
    }
  }

  /** A whole number of three-line groups; kept apart because the remainder fact
      costs too much inside the lemma above. */
  lemma WholeGroups(n: nat)
    ensures (3 * n) % 3 == 0
  {
  }

  /** Reading back what the writer wrote gives the same entries, in the same order. */
  lemma ParseSerialize(es: seq<Entry>)
    requires forall i :: 0 <= i < |es| ==> Writable(es[i])
    ensures Parsed(Serialize(es)) == Ok(es)
  {
    var lines := Serialize(es);
    SerializeWellFormed(es);
    ParseSpec(lines);
    var back := Parsed(lines).value;
    assert |back| == |es|;
    forall g | 0 <= g < |es| ensures back[g] == es[g] {
      assert GroupAt(lines, 3 * g) == Group(es[g].comment, MsgidLine(es[g].msgid), MsgstrLine(es[g].msgstr));
      ReadBackEntry(es[g]);
    }
    assert back == es;
  }

  /** The output file of a merge is read back as the merged entries, whenever the
      reference entries and the looked-up translated entries are writable. */
  lemma OutputReadsBack(ref: seq<Entry>, translated: map<string, Entry>)
    requires forall i :: 0 <= i < |ref| ==> Writable(ref[i])
    requires forall k :: k in translated ==> Writable(translated[k])
    ensures Parsed(Serialize(Merged(ref, translated))) == Ok(Merged(ref, translated))
  {
    MergedAt(ref, translated);
    ParseSerialize(Merged(ref, translated));
  }

  /** Merging again, with the read-back output as the translated file and the same
      reference file, reproduces the output: a merge is stable under re-running. */
  lemma RemergeStable(ref: seq<Entry>, translated: map<string, Entry>)
    requires DistinctComments(ref)
    requires KeyedByComment(translated)
    ensures var out := Merged(ref, translated);
            && DistinctComments(out)
            && IndexByComment(out).Ok?
            && Merged(ref, IndexByComment(out).value) == out
  {
    var out := Merged(ref, translated);
    MergeKeepsComments(ref, translated);
    MergedAt(ref, translated);
    var m := IndexByComment(out).value;
    MergedAt(ref, m);
    forall i | 0 <= i < |ref| ensures Merged(ref, m)[i] == out[i] {
      assert m[out[i].comment] == out[i];
    }
  }
}
