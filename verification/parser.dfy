/** The parser: lines are consumed in groups of three (comment line, msgid line,
    msgstr line), each group becoming one Entry. The grouping and its failures are
    specified on the raw groups; the field extraction is applied to each group. */
module Parser {
  import opened Entries
  import opened QuotedField

  /** lines.get(i).startsWith("#") */
  predicate IsCommentLine(line: string) {
    |line| > 0 && line[0] == '#'
  }

  /** The three raw lines read for one entry. */
  datatype Group = Group(commentLine: string, msgidLine: string, msgstrLine: string)

  function GroupAt(lines: seq<string>, i: nat): Group
    requires i + 2 < |lines|
  {
    Group(lines[i], lines[i + 1], lines[i + 2])
  }

  /** new Entry(comment, msgid, msgstr) with the two payloads extracted. */
  function ToEntry(g: Group): Entry {
    Entry(g.commentLine, ReplaceFirst(g.msgidLine, MsgidLead), ReplaceFirst(g.msgstrLine, MsgstrLead))
  }

  function ToEntries(gs: seq<Group>): (es: seq<Entry>)
    ensures |es| == |gs|
    ensures forall j :: 0 <= j < |gs| ==> es[j] == ToEntry(gs[j])
  {
    seq(|gs|, j requires 0 <= j < |gs| => ToEntry(gs[j]))
  }

  /** The first line of group g. */
  function GroupHead(lines: seq<string>, g: nat): string
    requires 3 * g < |lines|
  {
    lines[3 * g]
  }

  /** A file the parser accepts: whole groups only, each opened by a comment line. */
  ghost predicate WellFormed(lines: seq<string>) {
    |lines| % 3 == 0 && forall g: nat :: 3 * g < |lines| ==> IsCommentLine(GroupHead(lines, g))
  }

  /** The groups read from line i on, or the first failure met: a group head without
      '#' is the out-of-sync error; a head with '#' but too few lines after it makes
      lines.get(i + 1) or lines.get(i + 2) throw. */
  function GroupsFrom(lines: seq<string>, i: nat): Result<seq<Group>, Failure>
    decreases |lines| - i
  {
    if i >= |lines| then Ok([])
    else if !IsCommentLine(lines[i]) then Err(OutOfSync(i, |lines|))
    else if i + 1 >= |lines| then Err(IndexOutOfBounds(i + 1, |lines|))
    else if i + 2 >= |lines| then Err(IndexOutOfBounds(i + 2, |lines|))
    else Prepend([GroupAt(lines, i)], GroupsFrom(lines, i + 3))
  }

  function Prepend(gs: seq<Group>, r: Result<seq<Group>, Failure>): Result<seq<Group>, Failure> {
    match r
    case Ok(rest) => Ok(gs + rest)
    case Err(f) => Err(f)
  }

  /** What parse(lines) returns. */
  function Parsed(lines: seq<string>): Result<seq<Entry>, Failure> {
    match GroupsFrom(lines, 0)
    case Ok(gs) => Ok(ToEntries(gs))
    case Err(f) => Err(f)
  }

  lemma PrependNothing(r: Result<seq<Group>, Failure>)
    ensures Prepend([], r) == r
  {
    if r.Ok? {
      assert [] + r.value == r.value;
    }
  }

  lemma PrependTwice(gs: seq<Group>, g: Group, r: Result<seq<Group>, Failure>)
    ensures Prepend(gs, Prepend([g], r)) == Prepend(gs + [g], r)
  {
    if r.Ok? {
      assert gs + ([g] + r.value) == (gs + [g]) + r.value;
    }
  }

  lemma ToEntriesSnoc(gs: seq<Group>, g: Group)
    ensures ToEntries(gs + [g]) == ToEntries(gs) + [ToEntry(g)]
  {
    assert forall j :: 0 <= j < |gs| ==> (gs + [g])[j] == gs[j];
  }

  /** The parse loop: i steps by 3, each group is checked, its fields extracted and
      the entry appended; the first bad group ends the parse with its failure. */
  method Parse(lines: seq<string>) returns (r: Result<seq<Entry>, Failure>)
    ensures r == Parsed(lines)
  {
    PrependNothing(GroupsFrom(lines, 0));
    var result: seq<Entry> := [];
    ghost var groups: seq<Group> := [];
    var i := 0;
    while i < |lines|
      invariant i <= |lines|
      invariant GroupsFrom(lines, 0) == Prepend(groups, GroupsFrom(lines, i))
      invariant result == ToEntries(groups)
      decreases |lines| - i
    {
      var comment := lines[i];
      if !IsCommentLine(comment) {
        return Err(OutOfSync(i, |lines|));
      }
      if i + 1 >= |lines| {
        return Err(IndexOutOfBounds(i + 1, |lines|));
      }
      var msgid := ReplaceFirst(lines[i + 1], MsgidLead);
      if i + 2 >= |lines| {
        return Err(IndexOutOfBounds(i + 2, |lines|));
      }
      var msgstr := ReplaceFirst(lines[i + 2], MsgstrLead);
      PrependTwice(groups, GroupAt(lines, i), GroupsFrom(lines, i + 3));
      ToEntriesSnoc(groups, GroupAt(lines, i));
      assert Entry(comment, msgid, msgstr) == ToEntry(GroupAt(lines, i));
      result := result + [Entry(comment, msgid, msgstr)];
      groups := groups + [GroupAt(lines, i)];
      i := i + 3;
    }
    assert groups + [] == groups;
    return Ok(result);
  }

  /** From the start of group g, grouping succeeds exactly when every remaining group
      is whole and opened by a comment line, and then yields those groups in order. */
  lemma {:induction false} GroupsFromSpec(lines: seq<string>, g: nat)
    requires 3 * g <= |lines|
    ensures GroupsFrom(lines, 3 * g).Ok? <==>
              |lines| % 3 == 0 && forall h: nat :: g <= h && 3 * h < |lines| ==> IsCommentLine(GroupHead(lines, h))
    ensures GroupsFrom(lines, 3 * g).Ok? ==> 3 * (g + |GroupsFrom(lines, 3 * g).value|) == |lines|
    ensures GroupsFrom(lines, 3 * g).Ok? ==> forall j :: 0 <= j < |GroupsFrom(lines, 3 * g).value| ==>
              3 * (g + j) + 2 < |lines| && GroupsFrom(lines, 3 * g).value[j] == GroupAt(lines, 3 * (g + j))
    decreases |lines| - 3 * g
  {
    var i := 3 * g;
    if i == |lines| {
      assert |lines| % 3 == 0;
    } else if !IsCommentLine(GroupHead(lines, g)) {
    } else if i + 2 >= |lines| {
      assert |lines| % 3 != 0;
    } else {
      GroupsFromSpec(lines, g + 1);
      var rest := GroupsFrom(lines, i + 3);
      assert 3 * (g + 1) == i + 3;
      if rest.Ok? {
        var gs := GroupsFrom(lines, i).value;
        assert gs == [GroupAt(lines, i)] + rest.value;
        forall j | 0 <= j < |gs| ensures 3 * (g + j) + 2 < |lines| && gs[j] == GroupAt(lines, 3 * (g + j)) {
          if j > 0 {
            assert gs[j] == rest.value[j - 1];
            assert 3 * (g + 1 + (j - 1)) == 3 * (g + j);
          }
        }
      }
    }
  }

  /** parse succeeds exactly on well-formed input, and then returns one entry per
      group, in input order: entry g is built from lines 3g, 3g + 1 and 3g + 2. */
  lemma ParseSpec(lines: seq<string>)
    ensures Parsed(lines).Ok? <==> WellFormed(lines)
    ensures Parsed(lines).Ok? ==> 3 * |Parsed(lines).value| == |lines|
    ensures Parsed(lines).Ok? ==> forall g :: 0 <= g < |Parsed(lines).value| ==>
              3 * g + 2 < |lines| && Parsed(lines).value[g] == ToEntry(GroupAt(lines, 3 * g))
  {
    GroupsFromSpec(lines, 0);
    if GroupsFrom(lines, 0).Ok? {
      var gs := GroupsFrom(lines, 0).value;
      var es := Parsed(lines).value;
      assert es == ToEntries(gs);
      forall g | 0 <= g < |es| ensures 3 * g + 2 < |lines| && es[g] == ToEntry(GroupAt(lines, 3 * g)) {
        assert 3 * (0 + g) == 3 * g;
        assert gs[g] == GroupAt(lines, 3 * g);
      }
    }
  }

  /** Every parsed entry's comment is its group's first line unchanged, and so starts
      with '#'. */
  lemma ParsedComments(lines: seq<string>)
    requires Parsed(lines).Ok?
    ensures 3 * |Parsed(lines).value| == |lines|
    ensures forall g :: 0 <= g < |Parsed(lines).value| ==>
              Parsed(lines).value[g].comment == lines[3 * g] && IsCommentLine(Parsed(lines).value[g].comment)
  {
    ParseSpec(lines);
    var es := Parsed(lines).value;
    forall g | 0 <= g < |es| ensures es[g].comment == lines[3 * g] && IsCommentLine(es[g].comment) {
      assert es[g] == ToEntry(GroupAt(lines, 3 * g));
      assert IsCommentLine(GroupHead(lines, g));
    }
  }

  /** The first group head without '#' stops the parse with the out-of-sync error
      naming its line index, and no entries are returned. */
  lemma {:induction false} GroupsOutOfSync(lines: seq<string>, g: nat, bad: nat)
    requires g <= bad && 3 * bad < |lines|
    requires !IsCommentLine(GroupHead(lines, bad))
    requires forall h: nat :: g <= h < bad ==> IsCommentLine(GroupHead(lines, h))
    ensures GroupsFrom(lines, 3 * g) == Err(OutOfSync(3 * bad, |lines|))
    decreases bad - g
  {
    if g < bad {
      assert IsCommentLine(GroupHead(lines, g));
      GroupsOutOfSync(lines, g + 1, bad);
      assert 3 * (g + 1) == 3 * g + 3;
    }
  }

  lemma ParseOutOfSync(lines: seq<string>, bad: nat)
    requires 3 * bad < |lines|
    requires !IsCommentLine(GroupHead(lines, bad))
    requires forall h: nat :: h < bad ==> IsCommentLine(GroupHead(lines, h))
    ensures Parsed(lines) == Err(OutOfSync(3 * bad, |lines|))
  {
    GroupsOutOfSync(lines, 0, bad);
  }

  /** A line count that is not a multiple of three, with every group head a comment
      line, makes List.get fail at index |lines|. */
  lemma {:induction false} GroupsShortLastGroup(lines: seq<string>, g: nat)
    requires 3 * g <= |lines| && |lines| % 3 != 0
    requires forall h: nat :: g <= h && 3 * h < |lines| ==> IsCommentLine(GroupHead(lines, h))
    ensures GroupsFrom(lines, 3 * g) == Err(IndexOutOfBounds(|lines|, |lines|))
    decreases |lines| - 3 * g
  {
    assert 3 * g != |lines|;
    assert IsCommentLine(GroupHead(lines, g));
    if 3 * g + 2 < |lines| {
      GroupsShortLastGroup(lines, g + 1);
      assert 3 * (g + 1) == 3 * g + 3;
    }
  }

  lemma ParseShortLastGroup(lines: seq<string>)
    requires |lines| % 3 != 0
    requires forall h: nat :: 3 * h < |lines| ==> IsCommentLine(GroupHead(lines, h))
    ensures Parsed(lines) == Err(IndexOutOfBounds(|lines|, |lines|))
  {
    GroupsShortLastGroup(lines, 0);
  }

  /** Every failure parse reports is one of its two kinds. */
  lemma {:induction false} GroupsFailureKinds(lines: seq<string>, i: nat)
    ensures GroupsFrom(lines, i).Err? ==>
              GroupsFrom(lines, i).error.OutOfSync? || GroupsFrom(lines, i).error.IndexOutOfBounds?
    decreases |lines| - i
  {
    if i < |lines| && IsCommentLine(lines[i]) && i + 2 < |lines| {
      GroupsFailureKinds(lines, i + 3);
    }
  }
}
