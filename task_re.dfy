/**
 * The card-title pattern of launchpad2trello/trello.py:17,
 * `re.compile('^Bug ([0-9]+): ', re.MULTILINE)`, applied with `re.search`.
 *
 * Under MULTILINE, `^` holds at offset 0 and right after every '\n'; `re.search`
 * tries the start offsets from left to right and the first one that matches wins.
 * `[0-9]+` is greedy; since the character after the digits must be ':', which is
 * not a digit, backtracking never finds a shorter run that succeeds, so at a given
 * offset the group is the maximal run of digits.
 */
module TaskRe {
  import opened Wrappers

  const Prefix: string := "Bug "
  const Suffix: string := ": "

  predicate IsDigit(c: char) { '0' <= c <= '9' }

  predicate AllDigits(s: string) { forall i :: 0 <= i < |s| ==> IsDigit(s[i]) }

  /** `^` under re.MULTILINE. */
  predicate LineStart(s: string, p: int) { 0 <= p <= |s| && (p == 0 || s[p - 1] == '\n') }

  /** Declarative reading of the pattern: the line of `s` starting at `p` begins with "Bug " + d + ": ". */
  predicate MatchesWith(s: string, p: int, d: string) {
    && LineStart(s, p)
    && |d| > 0
    && AllDigits(d)
    && p + |Prefix| + |d| + |Suffix| <= |s|
    && s[p .. p + |Prefix| + |d| + |Suffix|] == Prefix + d + Suffix
  }

  /** The first offset `q >= p` where the pattern matches, with group 1 equal to `d`. */
  ghost predicate LeftmostFrom(s: string, p: nat, q: int, d: string) {
    && p <= q <= |s|
    && MatchesWith(s, q, d)
    && forall r, e :: p <= r < q ==> !MatchesWith(s, r, e)
  }

  /** Length of the maximal run of digits starting at `p`. */
  function DigitRun(s: string, p: nat): (k: nat)
    requires p <= |s|
    ensures p + k <= |s|
    ensures forall i :: p <= i < p + k ==> IsDigit(s[i])
    ensures p + k == |s| || !IsDigit(s[p + k])
    decreases |s| - p
  {
    if p < |s| && IsDigit(s[p]) then 1 + DigitRun(s, p + 1) else 0
  }

  /** The pattern tried at one start offset: group 1, or None. */
  function MatchAt(s: string, p: nat): Option<string>
    requires p <= |s|
  {
    if LineStart(s, p) && p + |Prefix| <= |s| && s[p .. p + |Prefix|] == Prefix then
      var k := DigitRun(s, p + |Prefix|);
      var e := p + |Prefix| + k;
      if k > 0 && e + |Suffix| <= |s| && s[e .. e + |Suffix|] == Suffix
      then Some(s[p + |Prefix| .. e])
      else None
    else None
  }

  /** `re.search` from offset `p` onwards: the first offset that matches decides. */
  function SearchFrom(s: string, p: nat): Option<string>
    requires p <= |s|
    decreases |s| - p
  {
    if MatchAt(s, p).Some? then MatchAt(s, p)
    else if p == |s| then None
    else SearchFrom(s, p + 1)
  }

  /** `re.search(TASK_RE, name)` followed by `.group(1)`; None when there is no match. */
  function TaskId(name: string): Option<string>
  {
    SearchFrom(name, 0)
  }

  /** A run of digits followed by a non-digit is exactly what DigitRun measures. */
  lemma DigitRunOf(s: string, b: nat, d: string)
    requires b + |d| < |s| && AllDigits(d) && s[b .. b + |d|] == d && !IsDigit(s[b + |d|])
    ensures DigitRun(s, b) == |d|
  {
    assert forall i :: b <= i < b + |d| ==> s[i] == d[i - b];
  }

  /** The three parts of a match, read back from the name. */
  lemma MatchParts(s: string, p: nat, d: string)
    requires MatchesWith(s, p, d)
    ensures s[p .. p + |Prefix|] == Prefix
    ensures s[p + |Prefix| .. p + |Prefix| + |d|] == d
    ensures s[p + |Prefix| + |d|] == ':'
  {
    var b := p + |Prefix|;
    var e := b + |d|;
    var w := Prefix + d + Suffix;
    assert forall i :: 0 <= i < |w| ==> s[p + i] == w[i];
    assert forall i :: 0 <= i < |Prefix| ==> w[i] == Prefix[i];
    assert forall i :: 0 <= i < |d| ==> w[|Prefix| + i] == d[i];
    assert w[|Prefix| + |d|] == ':';
  }

  /** At one offset the greedy match finds exactly the digit strings the pattern allows. */
  lemma MatchAtMeaning(s: string, p: nat, d: string)
    requires p <= |s|
    ensures MatchAt(s, p) == Some(d) <==> MatchesWith(s, p, d)
  {
    var b := p + |Prefix|;
    var e := b + |d|;
    if MatchAt(s, p) == Some(d) {
      assert s[p .. e + |Suffix|] == s[p .. b] + s[b .. e] + s[e .. e + |Suffix|];
    }
    if MatchesWith(s, p, d) {
      MatchParts(s, p, d);
      assert s[e .. e + |Suffix|] == Suffix;
      DigitRunOf(s, b, d);
    }
  }

  /** Searching from `p` finds nothing exactly when no offset at or after `p` matches. */
  lemma {:induction false} SearchFromNone(s: string, p: nat)
    requires p <= |s|
    ensures SearchFrom(s, p).None? <==> forall q, d :: p <= q <= |s| ==> !MatchesWith(s, q, d)
    decreases |s| - p
  {
    forall d { MatchAtMeaning(s, p, d); }
    if MatchAt(s, p).None? && p < |s| {
      SearchFromNone(s, p + 1);
      assert forall q, d :: p <= q <= |s| ==> (q == p || p + 1 <= q) && (q == p ==> !MatchesWith(s, q, d));
    }
  }

  /** A match at `p` is the leftmost one from `p`, so it is the only candidate. */
  lemma LeftmostAtMatch(s: string, p: nat, d0: string, q: int, d: string)
    requires MatchesWith(s, p, d0) && LeftmostFrom(s, p, q, d)
    ensures q == p && MatchesWith(s, p, d)
  {
  }

  /** An offset where nothing matches can be skipped by the search. */
  lemma LeftmostSkip(s: string, p: nat, q: int, d: string)
    requires p < |s| && forall e :: !MatchesWith(s, p, e)
    ensures LeftmostFrom(s, p, q, d) <==> LeftmostFrom(s, p + 1, q, d)
  {
    if LeftmostFrom(s, p, q, d) {
      assert q != p;
    }
  }

  /** Searching from `p` yields `d` exactly when the leftmost match at or after `p` has group `d`. */
  lemma {:induction false} SearchFromSome(s: string, p: nat, d: string)
    requires p <= |s|
    ensures SearchFrom(s, p) == Some(d) <==> exists q :: LeftmostFrom(s, p, q, d)
    decreases |s| - p
  {
    MatchAtMeaning(s, p, d);
    match MatchAt(s, p)
    case Some(d0) =>
      MatchAtMeaning(s, p, d0);
      if d == d0 {
        assert LeftmostFrom(s, p, p, d);
      }
      if q :| LeftmostFrom(s, p, q, d) {
        LeftmostAtMatch(s, p, d0, q, d);
      }
    case None =>
      forall e ensures !MatchesWith(s, p, e) { MatchAtMeaning(s, p, e); }
      if p < |s| {
        var next := p + 1;
        SearchFromSome(s, next, d);
        forall q ensures LeftmostFrom(s, p, q, d) <==> LeftmostFrom(s, next, q, d) {
          LeftmostSkip(s, p, q, d);
        }
      } else {
        assert forall q :: !LeftmostFrom(s, p, q, d);
      }
  }

  /**
   * A card name yields an id exactly when one of its lines starts with "Bug <digits>: ",
   * and the id is the digit string of the first such line.
   */
  lemma TaskIdMeaning(name: string)
    ensures TaskId(name).None? <==> forall q, d :: !MatchesWith(name, q, d)
    ensures forall d :: TaskId(name) == Some(d) <==> exists q :: LeftmostFrom(name, 0, q, d)
  {
    SearchFromNone(name, 0);
    forall d { SearchFromSome(name, 0, d); }
  }

  /** A name that starts with "Bug " + d + ": " yields `d`, whatever follows. */
  lemma LeadingTaskLine(d: string, rest: string)
    requires |d| > 0 && AllDigits(d)
    ensures TaskId(Prefix + d + Suffix + rest) == Some(d)
  {
    var s := Prefix + d + Suffix + rest;
    assert s[0 .. |Prefix| + |d| + |Suffix|] == Prefix + d + Suffix;
    assert MatchesWith(s, 0, d);
    MatchAtMeaning(s, 0, d);
  }
}
