/** Wildcard matching of file names. */
module Glob {

  /** A character; 0 ends a string. */
  type Unit = nat

  const QUESTION: Unit := 0x3F
  const STAR: Unit := 0x2A

  predicate IsWild(c: Unit) {
    c == QUESTION || c == STAR
  }

  /** A string without its end mark. */
  ghost predicate IsText(s: seq<Unit>) {
    forall i :: 0 <= i < |s| ==> s[i] != 0
  }

  /** The up-case mapping of get_achar: only the end mark maps to the end mark. */
  ghost predicate IsCaseMap(up: Unit -> Unit) {
    forall c :: up(c) == 0 <==> c == 0
  }

  /** The pattern from position i on matches the name from position j on: ? stands for one character, * for any run. */
  ghost predicate Matches(up: Unit -> Unit, p: seq<Unit>, i: nat, s: seq<Unit>, j: nat)
    requires i <= |p| && j <= |s|
    decreases |p| - i, 0
  {
    if i == |p| then j == |s|
    else if p[i] == STAR then MatchesLater(up, p, i + 1, s, j)
    else j < |s| && (p[i] == QUESTION || up(p[i]) == up(s[j])) && Matches(up, p, i + 1, s, j + 1)
  }

  /** The pattern from position i on matches the name from position j or some later one on. */
  ghost predicate MatchesLater(up: Unit -> Unit, p: seq<Unit>, i: nat, s: seq<Unit>, j: nat)
    requires i <= |p| && j <= |s|
    decreases |p| - i, 1
  {
    exists k :: j <= k <= |s| && Matches(up, p, i, s, k)
  }

  /** The relation by the characters' codes. */
  lemma MatchMeans(up: Unit -> Unit, p: seq<Unit>, i: nat, s: seq<Unit>, j: nat)
    requires i <= |p| && j <= |s|
    ensures i == |p| ==> (Matches(up, p, i, s, j) <==> j == |s|)
    ensures i < |p| && p[i] == 0x2A ==> (Matches(up, p, i, s, j) <==> MatchesLater(up, p, i + 1, s, j))
    ensures i < |p| && p[i] == 0x3F ==> (Matches(up, p, i, s, j) <==> j < |s| && Matches(up, p, i + 1, s, j + 1))
    ensures i < |p| && p[i] != 0x2A && p[i] != 0x3F ==>
              (Matches(up, p, i, s, j) <==> j < |s| && up(p[i]) == up(s[j]) && Matches(up, p, i + 1, s, j + 1))
  {
  }

  /** Later positions are this one and those after it. */
  lemma LaterMeans(up: Unit -> Unit, p: seq<Unit>, i: nat, s: seq<Unit>, j: nat)
    requires i <= |p| && j <= |s|
    ensures MatchesLater(up, p, i, s, j) <==> Matches(up, p, i, s, j) || (j < |s| && MatchesLater(up, p, i, s, j + 1))
  {
  }

  /** The same after skipping some characters, and any more of them if inf. */
  ghost predicate MatchesFrom(up: Unit -> Unit, p: seq<Unit>, i: nat, s: seq<Unit>, j: nat, skip: nat, inf: bool)
    requires i <= |p| && j <= |s|
  {
    j + skip <= |s| &&
    if inf then MatchesLater(up, p, i, s, j + skip) else Matches(up, p, i, s, j + skip)
  }

  /** What a block of wildcards asks for: its question marks, and whether it holds a star. */
  function Questions(p: seq<Unit>, i: nat, i': nat): nat
    requires i <= i' <= |p|
    decreases i' - i
  {
    if i == i' then 0 else (if p[i] == QUESTION then 1 else 0) + Questions(p, i + 1, i')
  }

  predicate HasStar(p: seq<Unit>, i: nat, i': nat)
    requires i <= i' <= |p|
    decreases i' - i
  {
    i < i' && (p[i] == STAR || HasStar(p, i + 1, i'))
  }

  lemma {:induction false} BlockStep(p: seq<Unit>, i: nat, i': nat)
    requires i <= i' < |p| && IsWild(p[i'])
    ensures Questions(p, i, i' + 1) == Questions(p, i, i') + if p[i'] == QUESTION then 1 else 0
    ensures HasStar(p, i, i' + 1) == (HasStar(p, i, i') || p[i'] == STAR)
    decreases i' - i
  {
    if i < i' {
      BlockStep(p, i + 1, i');
    }
  }

  /** A block of wildcards, in whatever order, is a skip followed by a free run if it holds a star. */
  lemma {:induction false} BlockMatches(up: Unit -> Unit, p: seq<Unit>, i: nat, i': nat, s: seq<Unit>, j: nat)
    requires i <= i' <= |p| && j <= |s| && forall h :: i <= h < i' ==> IsWild(p[h])
    ensures Matches(up, p, i, s, j) <==> MatchesFrom(up, p, i', s, j, Questions(p, i, i'), HasStar(p, i, i'))
    decreases i' - i
  {
    var q, st := Questions(p, i, i'), HasStar(p, i, i');
    if i < i' {
      if p[i] == QUESTION {
        if j < |s| {
          BlockMatches(up, p, i + 1, i', s, j + 1);
        }
      } else {
        var i1, st1 := i + 1, HasStar(p, i + 1, i');
        forall k | j <= k <= |s|
          ensures Matches(up, p, i1, s, k) <==> MatchesFrom(up, p, i', s, k, q, st1)
        {
          BlockMatches(up, p, i1, i', s, k);
        }
        StarRun(up, p, i1, i', s, j, q, st1);
      }
    }
  }

  /** A free run before a skip and perhaps another free run is the skip and a free run. */
  lemma StarRun(up: Unit -> Unit, p: seq<Unit>, i: nat, i': nat, s: seq<Unit>, j: nat, q: nat, st: bool)
    requires i <= i' <= |p| && j <= |s|
    requires forall k :: j <= k <= |s| ==> (Matches(up, p, i, s, k) <==> MatchesFrom(up, p, i', s, k, q, st))
    ensures MatchesLater(up, p, i, s, j) <==> MatchesFrom(up, p, i', s, j, q, true)
  {
    if MatchesFrom(up, p, i', s, j, q, true) {
      assert MatchesLater(up, p, i', s, j + q);
      var m :| j + q <= m <= |s| && Matches(up, p, i', s, m);
      assert MatchesLater(up, p, i', s, m);
      assert MatchesFrom(up, p, i', s, m - q, q, st);
    }
  }

  /** More plain characters than the name has left cannot match. */
  lemma {:induction false} TooFewLeft(up: Unit -> Unit, p: seq<Unit>, i: nat, l: nat, s: seq<Unit>, j: nat)
    requires i + l <= |p| && j <= |s| && |s| - j < l && forall h :: i <= h < i + l ==> !IsWild(p[h])
    ensures !Matches(up, p, i, s, j)
    decreases l
  {
    if j < |s| {
      TooFewLeft(up, p, i + 1, l - 1, s, j + 1);
    }
  }

  function UnitAt(s: seq<Unit>, i: nat): Unit {
    if i < |s| then s[i] else 0
  }

  /** Skip the wildcards from pp on. */
  method WildcardBlock(pat: seq<Unit>, pp: nat) returns (end: nat, nm: nat, nx: bool)
    requires pp < |pat| && IsWild(pat[pp])
    ensures pp < end <= |pat| && forall h :: pp <= h < end ==> IsWild(pat[h])
    ensures nm == Questions(pat, pp, end) && nx == HasStar(pat, pp, end)
    ensures !IsWild(UnitAt(pat, end))
  {
    end, nm, nx := pp, 0, false;
    while IsWild(UnitAt(pat, end))
      invariant pp <= end <= |pat| && forall h :: pp <= h < end ==> IsWild(pat[h])
      invariant nm == Questions(pat, pp, end) && nx == HasStar(pat, pp, end)
      decreases |pat| - end
    {
      BlockStep(pat, pp, end);
      if pat[end] == QUESTION {
        nm := nm + 1;
      } else {
        nx := true;
      }
      end := end + 1;
    }
  }

  /** One comparison of the pattern with the name from position k on: either the match, or the character of the name it
      failed at. That character being the end mark shows that no later position can match. */
  method TryAt(up: Unit -> Unit, pat: seq<Unit>, i: nat, nam: seq<Unit>, k: nat) returns (ok: bool, nc: Unit)
    requires IsText(pat) && IsText(nam) && IsCaseMap(up) && i <= |pat| && k <= |nam|
    ensures ok <==> Matches(up, pat, i, nam, k)
    ensures !ok && nc == 0 ==> forall m :: k < m <= |nam| ==> !Matches(up, pat, i, nam, m)
    ensures !ok && nc != 0 ==> k < |nam|
    decreases |pat| - i, 0
  {
    var pp, np := i, k;
    while true
      invariant i <= pp <= |pat| && k <= np <= |nam| && pp - i == np - k
      invariant forall h :: i <= h < pp ==> !IsWild(pat[h])
      invariant Matches(up, pat, i, nam, k) <==> Matches(up, pat, pp, nam, np)
      decreases |pat| - pp
    {
      if IsWild(UnitAt(pat, pp)) {
        var end, nm, nx := WildcardBlock(pat, pp);
        BlockMatches(up, pat, pp, end, nam, np);
        ok := PatternMatching(up, pat, end, nam, np, nm, nx);
        nc := UnitAt(nam, np);
        break;
      }
      var pc := up(UnitAt(pat, pp));
      nc := up(UnitAt(nam, np));
      if pc != nc {
        ok := false;
        break;
      }
      if pc == 0 {
        return true, nc;
      }
      pp, np := pp + 1, np + 1;
    }
    if !ok && nc == 0 {
      forall m | k < m <= |nam| ensures !Matches(up, pat, i, nam, m) {
        TooFewLeft(up, pat, i, pp - i, nam, m);
      }
    }
  }

  /** pattern_matching: exactly the declarative matching relation. */
  method PatternMatching(up: Unit -> Unit, pat: seq<Unit>, i: nat, nam: seq<Unit>, j: nat, skip: nat, inf: bool) returns (ok: bool)
    requires IsText(pat) && IsText(nam) && IsCaseMap(up) && i <= |pat| && j <= |nam|
    ensures ok <==> MatchesFrom(up, pat, i, nam, j, skip, inf)
    decreases |pat| - i, 1
  {
    var k, left := j, skip;
    while left > 0
      invariant j <= k <= |nam| && k + left == j + skip
    {
      if up(UnitAt(nam, k)) == 0 {
        return false;
      }
      k, left := k + 1, left - 1;
    }
    if i == |pat| && inf {
      assert Matches(up, pat, i, nam, |nam|);
      return true;
    }
    while true
      invariant j + skip <= k <= |nam| && (!inf ==> k == j + skip)
      invariant forall m :: j + skip <= m < k ==> !Matches(up, pat, i, nam, m)
      decreases |nam| - k
    {
      var nc;
      ok, nc := TryAt(up, pat, i, nam, k);
      if ok {
        assert MatchesLater(up, pat, i, nam, j + skip);
        assert MatchesFrom(up, pat, i, nam, j, skip, inf);
        return;
      }
      if !(inf && nc != 0) {
        assert inf ==> !MatchesLater(up, pat, i, nam, j + skip);
        assert !MatchesFrom(up, pat, i, nam, j, skip, inf);
        return;
      }
      k := k + 1;
    }
  }

  /** f_findnext's call: the whole pattern against the whole name. */
  method MatchName(up: Unit -> Unit, pat: seq<Unit>, nam: seq<Unit>) returns (ok: bool)
    requires IsText(pat) && IsText(nam) && IsCaseMap(up)
    ensures ok <==> Matches(up, pat, 0, nam, 0)
  {
    ok := PatternMatching(up, pat, 0, nam, 0, 0, false);
  }
}
