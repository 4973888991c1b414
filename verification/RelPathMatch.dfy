/** How RelPath finds the common directories of two normalised paths: character by character, remembering
    the last separator at which both still agreed (lines 206 to 235). The result is the longest
    common prefix of the components. */
module RelPathMatch {
  import opened PathSpec
  import opened RelPathSpec

  /** Where the paths go their own ways: what the loop from index t on, and the tests after it, leave in
      path_iter and dir_iter. */
  function Match(path: string, dir: string, t: nat, p: nat, d: nat): (nat, nat)
    requires t <= |path| && t <= |dir|
    decreases |path| - t
  {
    if At(path, t) == At(dir, t) then
      if t == |path| || t == |dir| then (t, t)
      else if IsSep(path[t]) then Match(path, dir, t + 1, t + 1, t + 1)
      else Match(path, dir, t + 1, p, d)
    else if t == |dir| then (if IsSep(At(path, t)) then (t + 1, t) else (p, d))
    else if t == |path| then (if IsSep(At(dir, t)) then (t, t + 1) else (p, d))
    else (p, d)
  }

  /** A common beginning that ends in a separator is passed over. */
  lemma {:induction false} MatchShift(x: string, path: string, dir: string, t: nat, p: nat, d: nat)
    requires t <= |path| && t <= |dir|
    ensures Match(x + path, x + dir, |x| + t, |x| + p, |x| + d) ==
            (|x| + Match(path, dir, t, p, d).0, |x| + Match(path, dir, t, p, d).1)
    decreases |path| - t
  {
    assert t < |path| ==> (x + path)[|x| + t] == path[t];
    assert t < |dir| ==> (x + dir)[|x| + t] == dir[t];
    if t < |path| && t < |dir| && path[t] == dir[t] {
      if IsSep(path[t]) {
        MatchShift(x, path, dir, t + 1, t + 1, t + 1);
      } else {
        MatchShift(x, path, dir, t + 1, p, d);
      }
    }
  }

  lemma {:induction false} MatchThrough(c: string, path: string, dir: string, t: nat)
    requires IsComponent(c) && '\0' !in c && t <= |c|
    requires c <= path && c <= dir
    ensures Match(path, dir, t, 0, 0) == Match(path, dir, |c|, 0, 0)
    decreases |c| - t
  {
    if t < |c| {
      assert path[t] == c[t] && dir[t] == c[t];
      MatchThrough(c, path, dir, t + 1);
    }
  }

  /** What follows the first component of joined components. */
  function After(comps: seq<string>): string
    requires comps != []
  {
    if |comps| == 1 then "" else [SEP] + Joined(comps[1..])
  }

  /** Different first components share no directory, even if one begins with the other. */
  lemma {:induction false} MatchDiffers(a: string, restA: string, b: string, restB: string, t: nat)
    requires IsComponent(a) && IsComponent(b) && '\0' !in a && '\0' !in b && a != b
    requires restA == "" || restA[0] == SEP
    requires restB == "" || restB[0] == SEP
    requires t <= |a| && t <= |b| && a[..t] == b[..t]
    ensures Match(a + restA, b + restB, t, 0, 0) == (0, 0)
    decreases |a| - t
  {
    assert (a + restA)[..t] == a[..t];
    if t < |a| {
      assert (a + restA)[t] == a[t] && a[t] != '\0';
    }
    if t < |b| {
      assert (b + restB)[t] == b[t] && b[t] != '\0';
    }
    if t < |a| && t < |b| && a[t] == b[t] {
      assert a[..t + 1] == a[..t] + [a[t]] && b[..t + 1] == b[..t] + [b[t]];
      MatchDiffers(a, restA, b, restB, t + 1);
    } else if t == |a| && restA != "" {
      assert (a + restA)[t] == SEP;
    } else if t == |b| && restB != "" {
      assert (b + restB)[t] == SEP;
    }
    assert t == |a| == |b| ==> a == b;
  }

  /** What the match leaves of both strings are the components after the longest common prefix. */
  ghost predicate LeavesRest(p: seq<string>, d: seq<string>, i: nat, j: nat) {
    var l := Common(p, d);
    && i <= |Joined(p)| && Joined(p)[i..] == Joined(p[l..])
    && j <= |Joined(d)| && Joined(d)[j..] == Joined(d[l..])
  }

  /** The characters agree with the components. */
  lemma {:induction false} MatchIsCommon(p: seq<string>, d: seq<string>)
    requires AreComponents(p) && AreComponents(d) && NulFree(p) && NulFree(d)
    ensures var (i, j) := Match(Joined(p), Joined(d), 0, 0, 0); LeavesRest(p, d, i, j)
    decreases |p|
  {
    if p == [] || d == [] {
      MatchNothing(p, d);
      NothingCommon(p, d);
    } else if p[0] != d[0] {
      MatchDifferentFirst(p, d);
      NothingCommon(p, d);
    } else if |p| > 1 && |d| > 1 {
      MatchIsCommon(p[1..], d[1..]);
      var (i, j) := Match(Joined(p[1..]), Joined(d[1..]), 0, 0, 0);
      MatchSameFirst(p, d);
      SameFirst(p, d, i, j);
    } else {
      MatchOnlyFirst(p, d);
    }
  }

  lemma NothingCommon(p: seq<string>, d: seq<string>)
    requires p == [] || d == [] || p[0] != d[0]
    ensures LeavesRest(p, d, 0, 0)
  {
    assert Common(p, d) == 0;
    assert p[0..] == p && d[0..] == d;
  }

  lemma MatchNothing(p: seq<string>, d: seq<string>)
    requires AreComponents(p) && AreComponents(d) && NulFree(p) && NulFree(d) && (p == [] || d == [])
    ensures Match(Joined(p), Joined(d), 0, 0, 0) == (0, 0)
  {
    FirstCharacter(p);
    FirstCharacter(d);
  }

  lemma MatchDifferentFirst(p: seq<string>, d: seq<string>)
    requires AreComponents(p) && AreComponents(d) && NulFree(p) && NulFree(d)
    requires p != [] && d != [] && p[0] != d[0]
    ensures Match(Joined(p), Joined(d), 0, 0, 0) == (0, 0)
  {
    JoinedIsFirst(p);
    JoinedIsFirst(d);
    MatchDiffers(p[0], After(p), d[0], After(d), 0);
  }

  lemma MatchSameFirst(p: seq<string>, d: seq<string>)
    requires AreComponents(p) && NulFree(p) && |p| > 1 && |d| > 1 && p[0] == d[0]
    ensures var (i, j) := Match(Joined(p[1..]), Joined(d[1..]), 0, 0, 0);
            Match(Joined(p), Joined(d), 0, 0, 0) == (|p[0]| + 1 + i, |p[0]| + 1 + j)
  {
    JoinedFirst(p);
    JoinedFirst(d);
    MatchPastFirst(p[0], Joined(p[1..]), Joined(d[1..]), Joined(p), Joined(d));
  }

  lemma MatchOnlyFirst(p: seq<string>, d: seq<string>)
    requires AreComponents(p) && NulFree(p) && p != [] && d != [] && p[0] == d[0] && (|p| == 1 || |d| == 1)
    ensures var (i, j) := Match(Joined(p), Joined(d), 0, 0, 0); LeavesRest(p, d, i, j)
  {
    ThroughFirst(p, d);
    CommonTail(p, d);
    MatchAtEnd(p, d);
    AfterFirst(p);
    AfterFirst(d);
  }

  lemma JoinedIsFirst(comps: seq<string>)
    requires comps != []
    ensures Joined(comps) == comps[0] + After(comps)
  {
  }

  lemma ThroughFirst(p: seq<string>, d: seq<string>)
    requires AreComponents(p) && NulFree(p) && p != [] && d != [] && p[0] == d[0]
    ensures |p[0]| <= |Joined(p)| && |p[0]| <= |Joined(d)|
    ensures Match(Joined(p), Joined(d), 0, 0, 0) == Match(Joined(p), Joined(d), |p[0]|, 0, 0)
  {
    JoinedIsFirst(p);
    JoinedIsFirst(d);
    MatchThrough(p[0], Joined(p), Joined(d), 0);
  }

  lemma FirstCharacter(comps: seq<string>)
    requires AreComponents(comps) && NulFree(comps)
    ensures comps != [] ==> Joined(comps) != "" && !IsSep(Joined(comps)[0]) && Joined(comps)[0] != '\0'
  {
    if comps != [] {
      assert Joined(comps)[0] == comps[0][0];
    }
  }

  lemma CommonTail(p: seq<string>, d: seq<string>)
    requires p != [] && d != [] && p[0] == d[0]
    ensures Common(p, d) == Common(p[1..], d[1..]) + 1
  {
  }

  lemma JoinedFirst(comps: seq<string>)
    requires |comps| > 1
    ensures Joined(comps) == (comps[0] + [SEP]) + Joined(comps[1..])
  {
  }

  lemma SuffixOf(x: string, s: string, i: nat)
    requires i <= |s|
    ensures (x + s)[|x| + i..] == s[i..]
  {
  }

  /** Both strings go on after the same first component. */
  lemma MatchBothGoOn(c: string, restP: string, restD: string, path: string, dir: string)
    requires path == (c + [SEP]) + restP && dir == (c + [SEP]) + restD
    ensures var (i, j) := Match(restP, restD, 0, 0, 0);
            Match(path, dir, |c|, 0, 0) == (|c| + 1 + i, |c| + 1 + j)
  {
    assert path[|c|] == SEP && dir[|c|] == SEP;
    MatchShift(c + [SEP], restP, restD, 0, 0, 0);
    assert Match(path, dir, |c|, 0, 0) == Match(path, dir, |c| + 1, |c| + 1, |c| + 1);
  }

  lemma MatchPastFirst(c: string, restP: string, restD: string, path: string, dir: string)
    requires IsComponent(c) && '\0' !in c
    requires path == (c + [SEP]) + restP && dir == (c + [SEP]) + restD
    ensures var (i, j) := Match(restP, restD, 0, 0, 0);
            Match(path, dir, 0, 0, 0) == (|c| + 1 + i, |c| + 1 + j)
  {
    MatchThrough(c, path, dir, 0);
    MatchBothGoOn(c, restP, restD, path, dir);
  }

  /** One of the strings, or both, end after the same first component. */
  lemma MatchOneEnds(c: string, restP: string, restD: string)
    requires restP == "" || restP[0] == SEP
    requires restD == "" || restD[0] == SEP
    requires restP == "" || restD == ""
    ensures Match(c + restP, c + restD, |c|, 0, 0) ==
            (|c| + (if restP == "" then 0 else 1), |c| + (if restD == "" then 0 else 1))
  {
    assert restP != "" ==> (c + restP)[|c|] == SEP;
    assert restD != "" ==> (c + restD)[|c|] == SEP;
  }

  lemma SameFirst(p: seq<string>, d: seq<string>, i: nat, j: nat)
    requires |p| > 1 && |d| > 1 && p[0] == d[0]
    requires LeavesRest(p[1..], d[1..], i, j)
    ensures LeavesRest(p, d, |p[0]| + 1 + i, |p[0]| + 1 + j)
  {
    RestShift(p, i, Common(p[1..], d[1..]));
    RestShift(d, j, Common(p[1..], d[1..]));
    CommonTail(p, d);
  }

  lemma RestShift(comps: seq<string>, i: nat, l: nat)
    requires |comps| > 1 && l < |comps| && i <= |Joined(comps[1..])| && Joined(comps[1..])[i..] == Joined(comps[1..][l..])
    ensures var k := |comps[0]| + 1 + i;
            k <= |Joined(comps)| && Joined(comps)[k..] == Joined(comps[l + 1..])
  {
    JoinedFirst(comps);
    SuffixOf(comps[0] + [SEP], Joined(comps[1..]), i);
    assert comps[1..][l..] == comps[l + 1..];
  }

  lemma AfterFirst(comps: seq<string>)
    requires comps != []
    ensures var i := |comps[0]| + (if |comps| > 1 then 1 else 0);
            i <= |Joined(comps)| && Joined(comps)[i..] == Joined(comps[1..])
  {
    if |comps| > 1 {
      JoinedFirst(comps);
      SuffixOf(comps[0] + [SEP], Joined(comps[1..]), 0);
    }
  }

  lemma MatchAtEnd(p: seq<string>, d: seq<string>)
    requires p != [] && d != [] && p[0] == d[0] && (|p| == 1 || |d| == 1)
    ensures |p[0]| <= |Joined(p)| && |p[0]| <= |Joined(d)|
    ensures Match(Joined(p), Joined(d), |p[0]|, 0, 0) ==
            (|p[0]| + (if |p| > 1 then 1 else 0), |p[0]| + (if |d| > 1 then 1 else 0))
  {
    JoinedIsFirst(p);
    JoinedIsFirst(d);
    MatchOneEnds(p[0], After(p), After(d));
  }

  // ----- counting the directories left -----

  function SepCount(s: string): nat {
    if s == "" then 0 else (if IsSep(s[0]) then 1 else 0) + SepCount(s[1..])
  }

  lemma {:induction false} SepCountConcat(a: string, b: string)
    ensures SepCount(a + b) == SepCount(a) + SepCount(b)
    decreases |a|
  {
    if a == "" {
      assert a + b == b;
    } else {
      assert (a + b)[1..] == a[1..] + b;
      SepCountConcat(a[1..], b);
    }
  }

  lemma {:induction false} NoSepCount(c: string)
    requires forall k | 0 <= k < |c| :: !IsSep(c[k])
    ensures SepCount(c) == 0
  {
    if c != "" {
      NoSepCount(c[1..]);
    }
  }

  /** One separator fewer than components. */
  lemma {:induction false} JoinedSepCount(comps: seq<string>)
    requires AreComponents(comps) && comps != []
    ensures SepCount(Joined(comps)) == |comps| - 1
    decreases |comps|
  {
    NoSepCount(comps[0]);
    if |comps| > 1 {
      JoinedSepCount(comps[1..]);
      SepCountConcat(comps[0], [SEP] + Joined(comps[1..]));
      SepCountConcat([SEP], Joined(comps[1..]));
      assert Joined(comps) == comps[0] + ([SEP] + Joined(comps[1..]));
      assert SepCount([SEP]) == 1 by { assert [SEP][1..] == ""; }
    }
  }
}
