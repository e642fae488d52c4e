/** Extraction of the quoted payload from a `msgid "…"` or `msgstr "…"` line: the
    effect of String.replaceFirst with the patterns `msgid "(.*)"$` and
    `msgstr "(.*)"$` and the replacement `$1`, under Java's default regex flags.
    Only these two fixed patterns are modelled, not a regex engine. */
module QuotedField {
  import opened Entries

  /** What precedes the captured text in each pattern. */
  const MsgidLead := "msgid \""
  const MsgstrLead := "msgstr \""

  /** The characters Java's `.` does not match and before which `$` may match. */
  predicate IsLineTerminator(c: char) {
    c == '\n' || c == '\r' || c == '\U{85}' || c == '\U{2028}' || c == '\U{2029}'
  }

  predicate NoLineTerminator(s: string) {
    forall j :: 0 <= j < |s| ==> !IsLineTerminator(s[j])
  }

  /** `$` without MULTILINE holds at position i: the end of the input, or just before
      a final line terminator (a final "\r\n" counts as one, so `$` never holds
      between its '\r' and its '\n'). */
  predicate LineEndAt(s: string, i: nat) {
    || i == |s|
    || (i + 1 == |s| && IsLineTerminator(s[i]) && !(s[i] == '\n' && i > 0 && s[i - 1] == '\r'))
    || (i + 2 == |s| && s[i] == '\r' && s[i + 1] == '\n')
  }

  /** The pattern `<lead>(.*)"$` matches s[p..k + 1]; its group is s[p + |lead|..k]. */
  predicate MatchAt(s: string, lead: string, p: nat, k: nat) {
    && p + |lead| <= k < |s|
    && s[p..p + |lead|] == lead
    && NoLineTerminator(s[p + |lead|..k])
    && s[k] == '"'
    && LineEndAt(s, k + 1)
  }

  /** The only position a closing quote followed by `$` can have. */
  function ClosingQuote(s: string): (r: Option<nat>)
    ensures r.Some? ==> r.value < |s| && s[r.value] == '"' && LineEndAt(s, r.value + 1)
    ensures forall k: nat :: k < |s| && s[k] == '"' && LineEndAt(s, k + 1) ==> r == Some(k)
  {
    var n := |s|;
    if n >= 1 && s[n - 1] == '"' then Some(n - 1)
    else if n >= 2 && IsLineTerminator(s[n - 1]) && s[n - 2] == '"' then Some(n - 2)
    else if n >= 3 && s[n - 2] == '\r' && s[n - 1] == '\n' && s[n - 3] == '"' then Some(n - 3)
    else None
  }

  /** The first start position at or after p where the pattern matches with its
      closing quote at k. */
  function LeftmostFrom(s: string, lead: string, k: nat, p: nat): (r: Option<nat>)
    requires k < |s| && s[k] == '"' && LineEndAt(s, k + 1)
    ensures r.Some? ==> p <= r.value && MatchAt(s, lead, r.value, k)
    ensures r.Some? ==> forall q: nat :: p <= q < r.value ==> !MatchAt(s, lead, q, k)
    ensures r.None? ==> forall q: nat :: p <= q ==> !MatchAt(s, lead, q, k)
    decreases |s| - p
  {
    if p + |lead| > k then None
    else if s[p..p + |lead|] == lead && NoLineTerminator(s[p + |lead|..k]) then Some(p)
    else LeftmostFrom(s, lead, k, p + 1)
  }

  /** The match the regex engine reports: the leftmost start, and at that start the
      longest match (`.*` is greedy). */
  function FirstMatch(s: string, lead: string): (r: Option<(nat, nat)>)
    ensures r.None? ==> forall p: nat, k: nat :: !MatchAt(s, lead, p, k)
    ensures r.Some? ==> MatchAt(s, lead, r.value.0, r.value.1)
    ensures r.Some? ==> forall p: nat, k: nat :: MatchAt(s, lead, p, k) ==>
              r.value.0 <= p && (p == r.value.0 ==> k <= r.value.1)
  {
    match ClosingQuote(s)
    case None => None
    case Some(k) =>
      match LeftmostFrom(s, lead, k, 0)
      case None => None
      case Some(p) => Some((p, k))
  }

  /** (p, k) is the match the regex engine reports: no match starts further left,
      and none at the same start reaches further right. */
  ghost predicate IsFirstMatch(s: string, lead: string, p: nat, k: nat) {
    && MatchAt(s, lead, p, k)
    && forall p': nat, k': nat :: MatchAt(s, lead, p', k') ==> p <= p' && (p' == p ==> k' <= k)
  }

  /** line.replaceFirst("<lead>(.*)\"$", "$1"): the first match is replaced by its
      group; text before and after the match is kept; a line without a match is
      returned unchanged. */
  function ReplaceFirst(line: string, lead: string): (r: string)
    ensures (forall p: nat, k: nat :: !MatchAt(line, lead, p, k)) ==> r == line
    ensures forall p: nat, k: nat :: IsFirstMatch(line, lead, p, k) ==>
              r == line[..p] + line[p + |lead|..k] + line[k + 1..]
  {
    match FirstMatch(line, lead)
    case None => line
    case Some((p, k)) => line[..p] + line[p + |lead|..k] + line[k + 1..]
  }

  /** A line that is exactly `<lead>t"` yields t, whenever t holds no line terminator
      (Java's `.` cannot step over one). */
  lemma ExtractEnclosed(lead: string, t: string)
    requires NoLineTerminator(t)
    ensures ReplaceFirst(lead + t + "\"", lead) == t
  {
    var s := lead + t + "\"";
    var k := |s| - 1;
    assert s[0..|lead|] == lead;
    assert s[|lead|..k] == t;
    assert MatchAt(s, lead, 0, k);
    forall p': nat, k': nat | MatchAt(s, lead, p', k') ensures 0 <= p' && (p' == 0 ==> k' <= k) {
      assert ClosingQuote(s) == Some(k');
    }
    assert IsFirstMatch(s, lead, 0, k);
    assert s[..0] + s[|lead|..k] + s[k + 1..] == t;
  }
}
