/**
 * The identity admission filter placed in front of every controller endpoint.
 *
 * The filter searches the first User-Agent value for the pattern
 *
 *   Bloxstrap/([0-9.]+) \((Production|Build [a-zA-Z0-9=+/]+|Artifact [0-9a-f]{40}, [a-zA-Z0-9/-]+)\)
 *
 * without anchors, takes the leftmost match, and admits the request only
 * when that match's qualifier (the second group) is exactly "Production".
 *
 * At any start position the pattern has at most one way to match: the
 * version class has no space in it, the three qualifiers begin with
 * different letters, and none of the qualifier classes contains ')'. So a
 * backtracking engine and the greedy scanner below agree. The scanner
 * (MatchAt, LeftmostMatch) is proved sound and complete against a
 * declarative reading of the grammar (IsMatch).
 */
module UserAgent {
  import opened Wrappers

  const Product: string := "Bloxstrap/"
  const Production: string := "Production"
  const BuildPrefix: string := "Build "
  const ArtifactPrefix: string := "Artifact "
  /** The hex digits of a commit hash in an Artifact qualifier. */
  const CommitLength: nat := 40

  /** The character classes of the pattern. */
  datatype CharClass = VersionChar | BuildChar | HexChar | PathChar

  predicate IsDigit(c: char) { '0' <= c <= '9' }

  predicate IsAsciiLetter(c: char) { 'a' <= c <= 'z' || 'A' <= c <= 'Z' }

  predicate InClass(c: char, k: CharClass) {
    match k
    case VersionChar => IsDigit(c) || c == '.'
    case BuildChar => IsAsciiLetter(c) || IsDigit(c) || c == '=' || c == '+' || c == '/'
    case HexChar => IsDigit(c) || 'a' <= c <= 'f'
    case PathChar => IsAsciiLetter(c) || IsDigit(c) || c == '/' || c == '-'
  }

  /** Every character of t is in class k. */
  predicate AllIn(t: string, k: CharClass) {
    forall n :: 0 <= n < |t| ==> InClass(t[n], k)
  }

  /** The characters of s from p up to e are all in class k. */
  predicate RunIn(s: string, p: nat, e: nat, k: CharClass) {
    p <= e <= |s| && forall n :: p <= n < e ==> InClass(s[n], k)
  }

  /** The literal w occurs in s at position p. */
  predicate StartsWithAt(s: string, p: nat, w: string) {
    p + |w| <= |s| && forall n :: 0 <= n < |w| ==> s[p + n] == w[n]
  }

  // ---------------------------------------------------------------------
  // Declarative grammar
  // ---------------------------------------------------------------------

  /**
   * s[p..e] is a word of the qualifier group (the second capture group):
   * "Production", "Build " and a non-empty build token, or "Artifact ", 40
   * hex digits, ", " and a non-empty path.
   */
  ghost predicate QualifierAt(s: string, p: nat, e: nat) {
    || (e == p + |Production| && StartsWithAt(s, p, Production))
    || (e > p + 6 && StartsWithAt(s, p, BuildPrefix) && RunIn(s, p + 6, e, BuildChar))
    || (e > p + 51 && StartsWithAt(s, p, ArtifactPrefix) && RunIn(s, p + 9, p + 9 + CommitLength, HexChar)
        && StartsWithAt(s, p + 49, ", ") && RunIn(s, p + 51, e, PathChar))
  }

  /** s[i..j] is a whole match of the pattern whose version run ends at v. */
  ghost predicate ShapeAt(s: string, i: nat, j: nat, v: nat) {
    && i + 10 < v && v + 2 < j <= |s|
    && StartsWithAt(s, i, Product)
    && RunIn(s, i + 10, v, VersionChar)
    && StartsWithAt(s, v, " (")
    && QualifierAt(s, v + 2, j - 1)
    && s[j - 1] == ')'
  }

  /** s[i..j], taken whole, matches the pattern with q as its qualifier group. */
  ghost predicate IsMatch(s: string, i: nat, j: nat, q: string) {
    exists v: nat :: ShapeAt(s, i, j, v) && q == s[v + 2..j - 1]
  }

  // ---------------------------------------------------------------------
  // The scanner
  // ---------------------------------------------------------------------

  /** The end of the longest run of class-k characters starting at p (a greedy `[...]*`). */
  function RunEnd(s: string, p: nat, k: CharClass): (e: nat)
    requires p <= |s|
    ensures RunIn(s, p, e, k)
    ensures e < |s| ==> !InClass(s[e], k)
    decreases |s| - p
  {
    if p < |s| && InClass(s[p], k) then RunEnd(s, p + 1, k) else p
  }

  /** A run that is all of class k and stops at a non-k character (or the end) is the one RunEnd finds. */
  lemma RunEndIsMaximal(s: string, p: nat, e: nat, k: CharClass)
    requires RunIn(s, p, e, k)
    requires e < |s| ==> !InClass(s[e], k)
    ensures RunEnd(s, p, k) == e
  {
  }

  /** The end of the qualifier group starting at p, if one can start there. */
  function QualifierEnd(s: string, p: nat): (r: Option<nat>)
    requires p <= |s|
    ensures r.Some? ==> p < r.value <= |s| && QualifierAt(s, p, r.value)
  {
    if StartsWithAt(s, p, Production) then
      Some(p + |Production|)
    else if StartsWithAt(s, p, BuildPrefix) then
      var e := RunEnd(s, p + 6, BuildChar);
      if e == p + 6 then None else Some(e)
    else if StartsWithAt(s, p, ArtifactPrefix) && RunIn(s, p + 9, p + 9 + CommitLength, HexChar)
            && StartsWithAt(s, p + 49, ", ") then
      var e := RunEnd(s, p + 51, PathChar);
      if e == p + 51 then None else Some(e)
    else None
  }

  /** A qualifier followed by ')' is the one QualifierEnd finds. */
  lemma QualifierEndComplete(s: string, p: nat, e: nat)
    requires p <= e < |s| && s[e] == ')'
    requires QualifierAt(s, p, e)
    ensures QualifierEnd(s, p) == Some(e)
  {
    if e == p + |Production| && StartsWithAt(s, p, Production) {
    } else if e > p + 6 && StartsWithAt(s, p, BuildPrefix) && RunIn(s, p + 6, e, BuildChar) {
      assert !StartsWithAt(s, p, Production) by {
        assert s[p + 0] == BuildPrefix[0] != Production[0];
      }
      RunEndIsMaximal(s, p + 6, e, BuildChar);
    } else {
      assert !StartsWithAt(s, p, Production) && !StartsWithAt(s, p, BuildPrefix) by {
        assert s[p + 0] == ArtifactPrefix[0] != Production[0] && ArtifactPrefix[0] != BuildPrefix[0];
      }
      RunEndIsMaximal(s, p + 51, e, PathChar);
    }
  }

  /** A match of the pattern: where it starts and ends, and its qualifier group. */
  datatype Match = Match(start: nat, end: nat, qualifier: string)

  /** The match of the pattern that starts exactly at i, if there is one. */
  function MatchAt(s: string, i: nat): (r: Option<Match>)
    ensures r.Some? ==> r.value.start == i && i < r.value.end <= |s|
  {
    if !StartsWithAt(s, i, Product) then None
    else
      var v := RunEnd(s, i + 10, VersionChar);
      if v == i + 10 || !StartsWithAt(s, v, " (") then None
      else
        match QualifierEnd(s, v + 2)
        case None => None
        case Some(e) =>
          if e < |s| && s[e] == ')' then Some(Match(i, e + 1, s[v + 2..e])) else None
  }

  /** Soundness: what MatchAt finds is a match of the pattern. */
  lemma MatchAtSound(s: string, i: nat)
    requires MatchAt(s, i).Some?
    ensures var m := MatchAt(s, i).value; IsMatch(s, i, m.end, m.qualifier)
  {
    var m := MatchAt(s, i).value;
    var v := RunEnd(s, i + 10, VersionChar);
    assert ShapeAt(s, i, m.end, v) && m.qualifier == s[v + 2..m.end - 1];
  }

  /** The scanner's steps at i, each taken as given, produce a match. */
  lemma MatchAtFromSteps(s: string, i: nat, v: nat, e: nat)
    requires StartsWithAt(s, i, Product)
    requires i + 10 < v && RunEnd(s, i + 10, VersionChar) == v
    requires StartsWithAt(s, v, " (")
    requires QualifierEnd(s, v + 2) == Some(e)
    requires e < |s| && s[e] == ')'
    ensures MatchAt(s, i) == Some(Match(i, e + 1, s[v + 2..e]))
  {
  }

  /** The space after the version stops the version run. */
  lemma VersionRunEnds(s: string, v: nat)
    requires StartsWithAt(s, v, " (")
    ensures v < |s| && !InClass(s[v], VersionChar)
  {
    assert s[v + 0] == " ("[0];
  }

  /** Completeness: every match of the pattern starting at i is the one MatchAt finds. */
  lemma MatchAtComplete(s: string, i: nat, j: nat, q: string)
    requires IsMatch(s, i, j, q)
    ensures MatchAt(s, i) == Some(Match(i, j, q))
  {
    var v: nat :| ShapeAt(s, i, j, v) && q == s[v + 2..j - 1];
    MatchAtOfShape(s, i, j, v);
  }

  /** A shape whose version ends at v is found by the scanner, with the qualifier between v + 2 and j - 1. */
  lemma MatchAtOfShape(s: string, i: nat, j: nat, v: nat)
    requires ShapeAt(s, i, j, v)
    ensures MatchAt(s, i) == Some(Match(i, j, s[v + 2..j - 1]))
  {
    VersionRunEnds(s, v);
    RunEndIsMaximal(s, i + 10, v, VersionChar);
    QualifierEndComplete(s, v + 2, j - 1);
    MatchAtFromSteps(s, i, v, j - 1);
  }

  /** The leftmost match that starts at or after i: the scan a regex engine makes. */
  function LeftmostFrom(s: string, i: nat): (r: Option<Match>)
    requires i <= |s|
    ensures r.Some? ==> i <= r.value.start <= |s| && MatchAt(s, r.value.start) == r
    ensures forall k :: i <= k <= |s| && (r.Some? ==> k < r.value.start) ==> MatchAt(s, k).None?
    decreases |s| - i
  {
    match MatchAt(s, i)
    case Some(m) => Some(m)
    case None => if i == |s| then None else LeftmostFrom(s, i + 1)
  }

  /** The result of the unanchored `Regex.Match` on s. */
  function LeftmostMatch(s: string): (r: Option<Match>)
    ensures r.Some? ==> MatchAt(s, r.value.start) == r
    ensures forall k :: 0 <= k <= |s| && (r.Some? ==> k < r.value.start) ==> MatchAt(s, k).None?
  {
    LeftmostFrom(s, 0)
  }

  /** A match at i with none further left is the leftmost one. */
  lemma LeftmostMatchAt(s: string, i: nat)
    requires MatchAt(s, i).Some?
    requires forall k :: 0 <= k < i ==> MatchAt(s, k).None?
    ensures LeftmostMatch(s) == MatchAt(s, i)
  {
    var r := LeftmostMatch(s);
    assert i <= |s|;
    assert r.Some? && r.value.start <= i;
  }

  /** The leftmost match, stated against the grammar: it matches, and no match starts further left. */
  lemma LeftmostMatchSpec(s: string)
    ensures LeftmostMatch(s).Some? ==>
      var m := LeftmostMatch(s).value;
      m.end <= |s| && IsMatch(s, m.start, m.end, m.qualifier)
      && forall i: nat, j: nat, q :: i < m.start ==> !IsMatch(s, i, j, q)
    ensures LeftmostMatch(s).None? ==> forall i: nat, j: nat, q :: !IsMatch(s, i, j, q)
  {
    var r := LeftmostMatch(s);
    if r.Some? {
      MatchAtSound(s, r.value.start);
    }
    forall i: nat, j: nat, q | r.Some? ==> i < r.value.start
      ensures !IsMatch(s, i, j, q)
    {
      if IsMatch(s, i, j, q) {
        MatchAtComplete(s, i, j, q);
      }
    }
  }

  // ---------------------------------------------------------------------
  // The endpoint filter
  // ---------------------------------------------------------------------

  /** What the filter decides; on acceptance it records the ClientVersion tag. */
  datatype Verdict = Accepted(clientVersion: string) | Rejected

  /** The endpoint filter over the values of the User-Agent header. */
  function EndpointFilter(userAgent: seq<string>): (r: Verdict)
    ensures r.Accepted? ==> |userAgent| > 0 && r.clientVersion == userAgent[0]
    ensures r.Accepted? ==> LeftmostMatch(userAgent[0]).Some? && LeftmostMatch(userAgent[0]).value.qualifier == Production
  {
    if |userAgent| == 0 then Rejected
    else
      var ua := userAgent[0];
      match LeftmostMatch(ua)
      case None => Rejected
      case Some(m) => if m.qualifier == Production then Accepted(ua) else Rejected
  }

  /**
   * The filter admits exactly the requests whose first User-Agent value has
   * a Production match with no match of any kind further left, and it then
   * records that whole value, not just the matched part.
   */
  lemma EndpointFilterSpec(userAgent: seq<string>)
    ensures EndpointFilter(userAgent).Accepted? <==>
      |userAgent| > 0 &&
      exists i: nat, j: nat :: IsMatch(userAgent[0], i, j, Production)
        && forall i': nat, j': nat, q :: i' < i ==> !IsMatch(userAgent[0], i', j', q)
    ensures EndpointFilter(userAgent).Accepted? ==> EndpointFilter(userAgent).clientVersion == userAgent[0]
  {
    if |userAgent| > 0 {
      var s := userAgent[0];
      LeftmostMatchSpec(s);
      var r := LeftmostMatch(s);
      if EndpointFilter(userAgent).Accepted? {
        var m := r.value;
        assert IsMatch(s, m.start, m.end, Production);
      }
      if exists i: nat, j: nat :: IsMatch(s, i, j, Production) && forall i': nat, j': nat, q :: i' < i ==> !IsMatch(s, i', j', q) {
        var i: nat, j: nat :| IsMatch(s, i, j, Production) && forall i': nat, j': nat, q :: i' < i ==> !IsMatch(s, i', j', q);
        MatchAtComplete(s, i, j, Production);
        var m := r.value;
        if m.start < i {
          MatchAtSound(s, m.start);
          assert false;
        }
        assert m.start == i;
      }
    }
  }

  /** No User-Agent value at all is refused. */
  lemma MissingHeaderRejected()
    ensures EndpointFilter([]) == Rejected
  {
  }

  /** Only the first User-Agent value is examined. */
  lemma OnlyFirstValueExamined(userAgent: seq<string>, more: seq<string>)
    requires |userAgent| > 0
    ensures EndpointFilter(userAgent + more) == EndpointFilter(userAgent[..1])
  {
    assert (userAgent + more)[0] == userAgent[..1][0];
  }

  /** Every match begins with 'B'. */
  lemma NoMatchWithoutB(s: string, k: nat)
    requires k < |s| && s[k] != 'B'
    ensures MatchAt(s, k).None?
  {
    assert Product[0] == 'B';
  }

  lemma ShiftStartsWith(s: string, i: nat, t: string, p: nat, w: string)
    requires StartsWithAt(s, i, t) && StartsWithAt(t, p, w)
    ensures StartsWithAt(s, i + p, w)
  {
  }

  lemma ShiftRun(s: string, i: nat, t: string, p: nat, e: nat, k: CharClass)
    requires StartsWithAt(s, i, t) && RunIn(t, p, e, k)
    ensures RunIn(s, i + p, i + e, k)
  {
    forall n | i + p <= n < i + e ensures InClass(s[n], k) {
      assert s[i + (n - i)] == t[n - i];
    }
  }

  lemma ShiftQualifier(s: string, i: nat, t: string, p: nat, e: nat)
    requires StartsWithAt(s, i, t) && QualifierAt(t, p, e)
    ensures QualifierAt(s, i + p, i + e)
  {
    if e == p + |Production| && StartsWithAt(t, p, Production) {
      ShiftStartsWith(s, i, t, p, Production);
    } else if e > p + 6 && StartsWithAt(t, p, BuildPrefix) && RunIn(t, p + 6, e, BuildChar) {
      ShiftStartsWith(s, i, t, p, BuildPrefix);
      ShiftRun(s, i, t, p + 6, e, BuildChar);
    } else {
      ShiftStartsWith(s, i, t, p, ArtifactPrefix);
      ShiftRun(s, i, t, p + 9, p + 9 + CommitLength, HexChar);
      ShiftStartsWith(s, i, t, p + 49, ", ");
      ShiftRun(s, i, t, p + 51, e, PathChar);
    }
  }

  /** A match found in t is a match wherever t occurs. */
  lemma ShiftMatch(s: string, i: nat, t: string, q: string)
    requires StartsWithAt(s, i, t) && IsMatch(t, 0, |t|, q)
    ensures IsMatch(s, i, i + |t|, q)
  {
    var v: nat :| ShapeAt(t, 0, |t|, v) && q == t[v + 2..|t| - 1];
    ShiftShape(s, i, t, v);
    ShiftSlice(s, i, t, v + 2, |t| - 1);
  }

  lemma ShiftShape(s: string, i: nat, t: string, v: nat)
    requires StartsWithAt(s, i, t) && ShapeAt(t, 0, |t|, v)
    ensures ShapeAt(s, i, i + |t|, i + v)
  {
    ShiftStartsWith(s, i, t, 0, Product);
    ShiftRun(s, i, t, 10, v, VersionChar);
    ShiftStartsWith(s, i, t, v, " (");
    ShiftQualifier(s, i, t, v + 2, |t| - 1);
    assert s[i + (|t| - 1)] == t[|t| - 1];
  }

  lemma ShiftSlice(s: string, i: nat, t: string, a: nat, b: nat)
    requires StartsWithAt(s, i, t) && a <= b <= |t|
    ensures s[i + a..i + b] == t[a..b]
  {
  }

  /** Bloxstrap/<version> (<qualifier>) is, taken whole, a match with that qualifier. */
  lemma HeaderMatches(version: string, q: string)
    requires |version| > 0 && AllIn(version, VersionChar)
    requires QualifierAt(q, 0, |q|)
    ensures IsMatch(Product + version + " (" + q + ")", 0, |version| + |q| + 13, q)
  {
    var t := Product + version + " (" + q + ")";
    var v := 10 + |version|;
    assert StartsWithAt(t, 0, Product);
    assert StartsWithAt(t, 10, version);
    assert StartsWithAt(t, v, " (");
    assert StartsWithAt(t, v + 2, q);
    assert StartsWithAt(t, 0, Product);
    assert RunIn(t, 10, v, VersionChar) by {
      forall n | 10 <= n < v ensures InClass(t[n], VersionChar) {
        assert t[10 + (n - 10)] == version[n - 10];
      }
    }
    ShiftQualifier(t, v + 2, q, 0, |q|);
    assert t[v + 2..|t| - 1] == q;
    assert ShapeAt(t, 0, |t|, v);
  }

  /** The header a production build sends is admitted, and becomes the ClientVersion tag. */
  lemma ProductionHeaderAccepted(prefix: string, version: string, suffix: string)
    requires 'B' !in prefix
    requires |version| > 0 && AllIn(version, VersionChar)
    ensures var ua := prefix + Product + version + " (" + Production + ")" + suffix;
      EndpointFilter([ua]) == Accepted(ua)
  {
    var t := Product + version + " (" + Production + ")";
    var ua := prefix + t + suffix;
    assert ua == prefix + Product + version + " (" + Production + ")" + suffix;
    var i := |prefix|;
    assert QualifierAt(Production, 0, |Production|);
    HeaderMatches(version, Production);
    assert StartsWithAt(ua, i, t);
    ShiftMatch(ua, i, t, Production);
    MatchAtComplete(ua, i, i + |t|, Production);
    forall k | 0 <= k < i ensures MatchAt(ua, k).None? {
      assert ua[k] == prefix[k];
      NoMatchWithoutB(ua, k);
    }
    LeftmostMatchAt(ua, i);
  }

  /** A leftmost Build qualifier is refused, even when a Production match follows it. */
  lemma BuildHeaderRejected(version: string, token: string, suffix: string)
    requires |version| > 0 && AllIn(version, VersionChar)
    requires |token| > 0 && AllIn(token, BuildChar)
    ensures EndpointFilter([Product + version + " (" + BuildPrefix + token + ")" + suffix]) == Rejected
  {
    var q := BuildPrefix + token;
    var t := Product + version + " (" + q + ")";
    var ua := t + suffix;
    assert ua == Product + version + " (" + BuildPrefix + token + ")" + suffix;
    assert QualifierAt(q, 0, |q|) by {
      assert StartsWithAt(q, 0, BuildPrefix);
      forall n | 6 <= n < |q| ensures InClass(q[n], BuildChar) {
        assert q[n] == token[n - 6];
      }
    }
    HeaderMatches(version, q);
    assert StartsWithAt(ua, 0, t);
    ShiftMatch(ua, 0, t, q);
    MatchAtComplete(ua, 0, |t|, q);
    LeftmostMatchAt(ua, 0);
    assert q[0] != Production[0];
  }
}
