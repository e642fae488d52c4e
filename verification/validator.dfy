/** The validation between parsing and merging: the lookup map of the translated
    file, the duplicate-key check on the reference file and the check that the
    translated file's keys are all reference keys. */
module Validator {
  import opened Entries

  /** A lookup map whose every entry is filed under its own comment. */
  ghost predicate KeyedByComment(m: map<string, Entry>) {
    forall k :: k in m ==> m[k].comment == k
  }

  /** Collectors.toMap(Entry::comment, e -> e) over es[i..], starting from acc: the
      first entry whose comment is already a key throws, naming that key. */
  function IndexFrom(es: seq<Entry>, i: nat, acc: map<string, Entry>): Result<map<string, Entry>, Failure>
    requires i <= |es|
    decreases |es| - i
  {
    if i == |es| then Ok(acc)
    else if es[i].comment in acc then Err(DuplicateKey(es[i].comment))
    else IndexFrom(es, i + 1, acc[es[i].comment := es[i]])
  }

  /** No comment repeats among the first n entries. */
  ghost predicate DistinctBefore(es: seq<Entry>, n: nat) {
    forall a, b :: 0 <= a < b < n && b < |es| ==> es[a].comment != es[b].comment
  }

  /** Entry j is the first whose comment already appeared. */
  ghost predicate FirstRepeat(es: seq<Entry>, j: nat) {
    j < |es| && DistinctBefore(es, j) && exists a :: 0 <= a < j && es[a].comment == es[j].comment
  }

  /** acc is what toMap has built from the first n entries. */
  ghost predicate IndexedUpTo(es: seq<Entry>, n: nat, acc: map<string, Entry>) {
    && n <= |es|
    && (forall a :: 0 <= a < n ==> es[a].comment in acc && acc[es[a].comment] == es[a])
    && (forall k :: k in acc ==> exists a :: 0 <= a < n && es[a].comment == k)
  }

  /** The translated-entries lookup map. It exists exactly when the comments are
      distinct; it then files every entry under its comment. Otherwise the failure
      names the comment of the first entry whose comment already appeared. */
  function IndexByComment(es: seq<Entry>): (r: Result<map<string, Entry>, Failure>)
    ensures r.Ok? <==> DistinctComments(es)
    ensures r.Ok? ==> r.value.Keys == Keys(es)
    ensures r.Ok? ==> forall i :: 0 <= i < |es| ==> r.value[es[i].comment] == es[i]
    ensures r.Ok? ==> KeyedByComment(r.value)
    ensures r.Err? ==> r.error.DuplicateKey?
    ensures r.Err? ==> exists j: nat :: FirstRepeat(es, j) && es[j].comment == r.error.key
  {
    if DistinctComments(es) then
      IndexFromAllNew(es);
      IndexFrom(es, 0, map[])
    else
      IndexFromErr(es, 0, map[]);
      IndexFrom(es, 0, map[])
  }

  /** With distinct comments toMap succeeds, and its map has exactly the key set of
      the list. */
  lemma IndexFromAllNew(es: seq<Entry>)
    requires DistinctComments(es)
    ensures IndexFrom(es, 0, map[]).Ok?
    ensures IndexedUpTo(es, |es|, IndexFrom(es, 0, map[]).value)
    ensures IndexFrom(es, 0, map[]).value.Keys == Keys(es)
  {
    IndexFromOk(es, 0, map[]);
    IndexedKeys(es, IndexFrom(es, 0, map[]).value);
  }

  /** A map built from the whole list has the list's key set. */
  lemma IndexedKeys(es: seq<Entry>, m: map<string, Entry>)
    requires IndexedUpTo(es, |es|, m)
    ensures m.Keys == Keys(es)
  {
    forall k | k in m ensures k in Keys(es) {
      var a :| 0 <= a < |es| && es[a].comment == k;
      assert es[a].comment in Keys(es);
    }
    forall k | k in Keys(es) ensures k in m {
      var a :| 0 <= a < |es| && es[a].comment == k;
      assert es[a].comment in m;
    }
  }

  /** One step of toMap on an entry whose comment is new. */
  lemma IndexStep(es: seq<Entry>, i: nat, acc: map<string, Entry>)
    requires IndexedUpTo(es, i, acc) && i < |es| && es[i].comment !in acc
    ensures IndexedUpTo(es, i + 1, acc[es[i].comment := es[i]])
  {
    var acc' := acc[es[i].comment := es[i]];
    forall a | 0 <= a < i + 1 ensures es[a].comment in acc' && acc'[es[a].comment] == es[a] {
      if a < i {
        assert es[a].comment in acc && es[a].comment != es[i].comment;
      }
    }
    forall k | k in acc' ensures exists a :: 0 <= a < i + 1 && es[a].comment == k {
      if k != es[i].comment {
        var a :| 0 <= a < i && es[a].comment == k;
      }
    }
  }

  /** A new comment keeps the prefix free of repeats. */
  lemma DistinctStep(es: seq<Entry>, i: nat, acc: map<string, Entry>)
    requires IndexedUpTo(es, i, acc) && i < |es| && es[i].comment !in acc
    requires DistinctBefore(es, i)
    ensures DistinctBefore(es, i + 1)
  {
    forall a, b | 0 <= a < b < i + 1 && b < |es| ensures es[a].comment != es[b].comment {
      if b == i {
        assert es[a].comment in acc;
      }
    }
  }

  lemma {:induction false} IndexFromOk(es: seq<Entry>, i: nat, acc: map<string, Entry>)
    requires IndexedUpTo(es, i, acc) && DistinctComments(es)
    ensures IndexFrom(es, i, acc).Ok? && IndexedUpTo(es, |es|, IndexFrom(es, i, acc).value)
    decreases |es| - i
  {
    if i < |es| {
      assert es[i].comment !in acc;
      IndexStep(es, i, acc);
      IndexFromOk(es, i + 1, acc[es[i].comment := es[i]]);
    }
  }

  lemma {:induction false} IndexFromErr(es: seq<Entry>, i: nat, acc: map<string, Entry>)
    requires IndexedUpTo(es, i, acc) && DistinctBefore(es, i) && !DistinctComments(es)
    ensures IndexFrom(es, i, acc).Err? && IndexFrom(es, i, acc).error.DuplicateKey?
    ensures exists j: nat :: FirstRepeat(es, j) && es[j].comment == IndexFrom(es, i, acc).error.key
    decreases |es| - i
  {
    if i == |es| {
      assert false;
    } else if es[i].comment in acc {
      var a :| 0 <= a < i && es[a].comment == es[i].comment;
      assert FirstRepeat(es, i);
    } else {
      IndexStep(es, i, acc);
      DistinctStep(es, i, acc);
      IndexFromErr(es, i + 1, acc[es[i].comment := es[i]]);
    }
  }

  /** The duplicate check on the reference file: the number of distinct comments
      differs from the number of entries exactly when some comment repeats. It only
      chooses the message; it never stops the run. */
  function HasDuplicateKeys(ref: seq<Entry>): (dup: bool)
    ensures dup <==> exists i, j :: 0 <= i < j < |ref| && ref[i].comment == ref[j].comment
  {
    KeyCountIff(ref);
    |Keys(ref)| != |ref|
  }

  /** The key check as written: on failure the reference key set has the translated
      keys removed from it (removeAll) and that set is reported. */
  method CheckKeysAsWritten(ref: seq<Entry>, tr: seq<Entry>) returns (reported: Option<set<string>>)
    ensures reported.None? <==> Keys(tr) <= Keys(ref)
    ensures reported.Some? ==> reported.value == Keys(ref) - Keys(tr)
  {
    var untranslatedFileKeys := Keys(ref);
    var translatedFileKeys := Keys(tr);
    if translatedFileKeys <= untranslatedFileKeys {
      return None;
    }
    untranslatedFileKeys := untranslatedFileKeys - translatedFileKeys;
    return Some(untranslatedFileKeys);
  }

  /** What the as-written report shows: never a single one of the keys that made the
      check fail. */
  lemma AsWrittenReportOmitsOrphans(ref: seq<Entry>, tr: seq<Entry>)
    ensures (Keys(ref) - Keys(tr)) * (Keys(tr) - Keys(ref)) == {}
  {
  }

  /** With reference keys {#a} and translated keys {#a, #b}, the check fails because
      of #b, and the as-written report is empty. */
  lemma AsWrittenReportCounterexample()
    ensures var ref, tr := [Entry("#a", "a", "")], [Entry("#a", "a", "A"), Entry("#b", "b", "B")];
            && !(Keys(tr) <= Keys(ref))
            && Keys(ref) - Keys(tr) == {}
            && Keys(tr) - Keys(ref) == {"#b"}
  {
    var ref, tr := [Entry("#a", "a", "")], [Entry("#a", "a", "A"), Entry("#b", "b", "B")];
    assert ref[1..] == [] && tr[1..][1..] == [];
    assert Keys(ref) == {"#a"};
    assert Keys(tr) == {"#a"} + Keys(tr[1..]) == {"#a", "#b"};
  }

  /** The key check as intended: the run may go on exactly when every translated key
      is a reference key; otherwise the report is the non-empty set of translated
      keys the reference lacks. */
  method CheckKeys(ref: seq<Entry>, tr: seq<Entry>) returns (orphans: Option<set<string>>)
    ensures orphans.None? <==> Keys(tr) <= Keys(ref)
    ensures orphans.Some? ==> orphans.value != {}
    ensures orphans.Some? ==> forall k :: k in orphans.value <==> k in Keys(tr) && k !in Keys(ref)
  {
    var untranslatedFileKeys := Keys(ref);
    var translatedFileKeys := Keys(tr);
    if translatedFileKeys <= untranslatedFileKeys {
      return None;
    }
    translatedFileKeys := translatedFileKeys - untranslatedFileKeys;
    return Some(translatedFileKeys);
  }

  /** The two checks that can stop the run, in program order: building the lookup
      map of translated entries, then the key check. The run goes on exactly when the
      translated comments are distinct and all are reference comments, and then with
      the lookup map; a repeated translated comment is reported before any orphaned
      key. On orphaned keys the failure carries the key list main prints (reference
      keys minus translated keys, left by removeAll), which holds none of the
      orphaned keys, beside the non-empty set of orphaned keys itself. */
  function Validated(ref: seq<Entry>, tr: seq<Entry>): (r: Result<map<string, Entry>, Failure>)
    ensures r.Ok? <==> DistinctComments(tr) && Keys(tr) <= Keys(ref)
    ensures r.Ok? ==> r == IndexByComment(tr) && r.value.Keys <= Keys(ref) && KeyedByComment(r.value)
    ensures !DistinctComments(tr) ==> r.Err? && r.error.DuplicateKey?
    ensures DistinctComments(tr) && !(Keys(tr) <= Keys(ref)) ==>
              && r.Err? && r.error.OrphanedKeys?
              && (forall k :: k in r.error.printed <==> k in Keys(ref) && k !in Keys(tr))
              && r.error.orphans != {}
              && (forall k :: k in r.error.orphans <==> k in Keys(tr) && k !in Keys(ref))
              && r.error.printed * r.error.orphans == {}
  {
    if IndexByComment(tr).Err? then IndexByComment(tr)
    else if !(Keys(tr) <= Keys(ref)) then Err(OrphanedKeys(Keys(ref) - Keys(tr), Keys(tr) - Keys(ref)))
    else IndexByComment(tr)
  }

  /** The validation steps of main: toMap on the translated entries, then the key
      check (containsAll, then removeAll on failure), each stopping the run on
      failure. The orphaned keys are recorded with the corrected check. */
  method Validate(ref: seq<Entry>, tr: seq<Entry>) returns (r: Result<map<string, Entry>, Failure>)
    ensures r == Validated(ref, tr)
  {
    var translatedEntries := IndexByComment(tr);
    if translatedEntries.Err? {
      return translatedEntries;
    }
    var reported := CheckKeysAsWritten(ref, tr);
    if reported.Some? {
      var orphans := CheckKeys(ref, tr);
      assert orphans.value == Keys(tr) - Keys(ref);
      return Err(OrphanedKeys(reported.value, orphans.value));
    }
    return translatedEntries;
  }
}
