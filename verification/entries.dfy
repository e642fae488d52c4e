/** The record the whole pipeline works on, the failures that stop a run, and the
    per-entry facts the validator and the reports use. */
module Entries {

  datatype Option<+T> = None | Some(value: T)

  datatype Result<+T, +E> = Ok(value: T) | Err(error: E)

  /** One translation record: the `#` comment line that keys it, the source-language
      text and its translation (possibly empty). */
  datatype Entry = Entry(comment: string, msgid: string, msgstr: string)

  /** Everything that ends a run without writing the output file. */
  datatype Failure =
    | UsageError                                  // not exactly three arguments
    | OutOfSync(index: nat, lineCount: nat)       // a group's first line lacks '#'
    | IndexOutOfBounds(index: nat, length: nat)   // List.get past the end of a short last group
    | DuplicateKey(key: string)                   // Collectors.toMap met a comment twice
    | OrphanedKeys(printed: set<string>, orphans: set<string>)
      // translated keys missing from the reference: `orphans` are those keys, the
      // cause the message announces; `printed` is the key list the code prints

  /** The process exit status of each failure; the two unchecked exceptions escape
      `main`, and the Java runtime then exits with status 1. */
  function ExitCode(f: Failure): (code: int)
    ensures code == 2 <==> f.OutOfSync?
    ensures code == 3 <==> f.OrphanedKeys?
    ensures code != 2 && code != 3 ==> code == 1
  {
    match f
    case OutOfSync(_, _) => 2
    case OrphanedKeys(_, _) => 3
    case _ => 1
  }

  /** Position of the first character that is not whitespace, or |s| when there is
      none: the scan behind Java's String.isBlank. Which characters count as
      whitespace is a parameter. */
  function IndexOfNonWhitespace(s: string, isWhitespace: char -> bool): (k: nat)
    ensures k <= |s|
    ensures forall j :: 0 <= j < k ==> isWhitespace(s[j])
    ensures k < |s| ==> !isWhitespace(s[k])
  {
    if s == [] || !isWhitespace(s[0]) then 0
    else 1 + IndexOfNonWhitespace(s[1..], isWhitespace)
  }

  /** An entry is translated when its msgstr is not blank. */
  function IsTranslated(e: Entry, isWhitespace: char -> bool): (translated: bool)
    ensures translated <==> exists j :: 0 <= j < |e.msgstr| && !isWhitespace(e.msgstr[j])
    ensures translated ==> e.msgstr != []
  {
    IndexOfNonWhitespace(e.msgstr, isWhitespace) != |e.msgstr|
  }

  /** How many entries are translated (the stream filter-and-count of the report). */
  function CountTranslated(es: seq<Entry>, isWhitespace: char -> bool): (n: nat)
    ensures n <= |es|
    ensures n == 0 <==> forall i :: 0 <= i < |es| ==> !IsTranslated(es[i], isWhitespace)
    ensures n == |es| <==> forall i :: 0 <= i < |es| ==> IsTranslated(es[i], isWhitespace)
  {
    if es == [] then 0
    else (if IsTranslated(es[0], isWhitespace) then 1 else 0) + CountTranslated(es[1..], isWhitespace)
  }

  /** The count is additive over concatenation: counting two runs of entries one
      after the other adds their counts. With the one-entry count, this fixes the
      value as the number of translated entries. */
  lemma {:induction false} CountTranslatedAppend(a: seq<Entry>, b: seq<Entry>, isWhitespace: char -> bool)
    ensures CountTranslated(a + b, isWhitespace) == CountTranslated(a, isWhitespace) + CountTranslated(b, isWhitespace)
  {
    if a == [] {
      assert a + b == b;
    } else {
      assert (a + b)[1..] == a[1..] + b;
      CountTranslatedAppend(a[1..], b, isWhitespace);
    }
  }

  /** A single entry counts one exactly when it is translated. */
  lemma CountTranslatedSingle(e: Entry, isWhitespace: char -> bool)
    ensures CountTranslated([e], isWhitespace) == if IsTranslated(e, isWhitespace) then 1 else 0
  {
    assert [e][1..] == [];
  }

  /** The set of comment keys of a parsed file (map(Entry::comment) collected to a set). */
  function Keys(es: seq<Entry>): (keys: set<string>)
    ensures forall i :: 0 <= i < |es| ==> es[i].comment in keys
    ensures forall k :: k in keys ==> exists i :: 0 <= i < |es| && es[i].comment == k
    ensures |keys| <= |es|
  {
    if es == [] then {}
    else
      var rest := Keys(es[1..]);
      assert forall i :: 1 <= i < |es| ==> es[i] == es[1..][i - 1];
      {es[0].comment} + rest
  }

  /** No two entries share a comment key. */
  predicate DistinctComments(es: seq<Entry>) {
    forall i, j :: 0 <= i < j < |es| ==> es[i].comment != es[j].comment
  }

  /** A list has distinct keys exactly when its head's key is not among the tail's
      keys and the tail has distinct keys. */
  lemma DistinctCons(es: seq<Entry>)
    requires es != []
    ensures DistinctComments(es) <==> es[0].comment !in Keys(es[1..]) && DistinctComments(es[1..])
  {
    if DistinctComments(es) {
      DistinctSplit(es);
    } else if es[0].comment !in Keys(es[1..]) && DistinctComments(es[1..]) {
      DistinctJoin(es);
      assert false;
    }
  }

  lemma DistinctSplit(es: seq<Entry>)
    requires es != [] && DistinctComments(es)
    ensures es[0].comment !in Keys(es[1..]) && DistinctComments(es[1..])
  {
    var rest := es[1..];
    forall i, j | 0 <= i < j < |rest| ensures rest[i].comment != rest[j].comment {
      assert rest[i] == es[i + 1] && rest[j] == es[j + 1];
    }
    forall i | 0 <= i < |rest| ensures rest[i].comment != es[0].comment {
      assert rest[i] == es[i + 1];
    }
  }

  lemma DistinctJoin(es: seq<Entry>)
    requires es != [] && es[0].comment !in Keys(es[1..]) && DistinctComments(es[1..])
    ensures DistinctComments(es)
  {
    var rest := es[1..];
    forall i, j | 0 <= i < j < |es| ensures es[i].comment != es[j].comment {
      assert es[j] == rest[j - 1];
      if i > 0 {
        assert es[i] == rest[i - 1];
      } else {
        assert rest[j - 1].comment in Keys(rest);
      }
    }
  }

  /** A head whose key already occurs in the tail adds nothing to the key set. */
  lemma KeysConsRepeated(es: seq<Entry>)
    requires es != [] && es[0].comment in Keys(es[1..])
    ensures Keys(es) == Keys(es[1..])
  {
    assert Keys(es) == {es[0].comment} + Keys(es[1..]);
  }

  /** A head with a new key adds exactly one key. */
  lemma KeysConsFresh(es: seq<Entry>)
    requires es != [] && es[0].comment !in Keys(es[1..])
    ensures |Keys(es)| == 1 + |Keys(es[1..])|
  {
    var rest := Keys(es[1..]);
    assert Keys(es) == {es[0].comment} + rest;
    assert {es[0].comment} * rest == {};
  }

  /** The key set is as large as the entry list exactly when no key repeats. */
  lemma {:induction false} KeyCountIff(es: seq<Entry>)
    ensures |Keys(es)| == |es| <==> DistinctComments(es)
  {
    if es != [] {
      var rest := es[1..];
      KeyCountIff(rest);
      DistinctCons(es);
      if es[0].comment in Keys(rest) {
        KeysConsRepeated(es);
        assert |Keys(rest)| <= |rest| < |es|;
      } else {
        KeysConsFresh(es);
      }
    }
  }
}
