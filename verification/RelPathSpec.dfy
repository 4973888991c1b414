/** Relative paths and joined paths: what RelPath and JoinPaths compute, and how they fit together. */
module RelPathSpec {
  import opened PathSpec

  // ----- components -----

  /** The length of the longest common prefix. */
  function Common(p: seq<string>, d: seq<string>): (l: nat)
    ensures l <= |p| && l <= |d| && p[..l] == d[..l]
    ensures l < |p| && l < |d| ==> p[l] != d[l]
    decreases |p|
  {
    if p != [] && d != [] && p[0] == d[0] then
      var l := Common(p[1..], d[1..]);
      assert p[..l + 1] == [p[0]] + p[1..][..l] && d[..l + 1] == [d[0]] + d[1..][..l];
      l + 1
    else 0
  }

  function Ups(k: nat): (r: seq<string>)
    ensures |r| == k && forall i | 0 <= i < k :: r[i] == ".."
  {
    seq(k, _ => "..")
  }

  /** From directory d to p: up to the common part, and down again. */
  function Relative(p: seq<string>, d: seq<string>): seq<string> {
    Ups(|d| - Common(p, d)) + p[Common(p, d)..]
  }

  /** Following k times ".." from a normal form that ends in k names takes these away. */
  lemma {:induction false} FoldUps(stack: seq<string>, k: nat)
    requires IsNormal(stack) && k <= |stack|
    requires forall i | |stack| - k <= i < |stack| :: stack[i] != ".."
    ensures Fold(Norm(false, stack), Ups(k)) == Norm(false, stack[..|stack| - k])
    decreases k
  {
    if k > 0 {
      var last := |stack| - 1;
      assert Push(Norm(false, stack), "..") == Norm(false, stack[..last]);
      assert Ups(k)[1..] == Ups(k - 1);
      FoldUps(stack[..last], k - 1);
      assert stack[..last][..last - (k - 1)] == stack[..|stack| - k];
    } else {
      assert stack[..|stack|] == stack;
    }
  }

  /** Going from d to p by the relative path arrives at p, if no ".." lies beyond the common part of d. */
  lemma RelativeReturns(p: seq<string>, d: seq<string>)
    requires IsNormal(p) && IsNormal(d)
    requires forall i | Common(p, d) <= i < |d| :: d[i] != ".."
    ensures Fold(Norm(false, d), Relative(p, d)) == Norm(false, p)
  {
    var l := Common(p, d);
    FoldRelative(p, d);
    FoldUps(d, |d| - l);
    FoldNormalForm(Norm(false, p), l);
  }

  /** How many leading ".." a path has. */
  function Climb(stack: seq<string>): (n: nat)
    ensures n <= |stack|
    ensures forall i | 0 <= i < n :: stack[i] == ".."
    ensures n < |stack| ==> stack[n] != ".."
    decreases |stack|
  {
    if stack != [] && stack[0] == ".." then
      var n := Climb(stack[1..]);
      assert forall i | 0 < i <= n :: stack[i] == stack[1..][i - 1];
      n + 1
    else 0
  }

  lemma {:induction false} ClimbFold(n: Norm, comps: seq<string>)
    requires !n.rooted && IsNormal(n.stack) && AreComponents(comps)
    ensures IsNormal(Fold(n, comps).stack) && Climb(Fold(n, comps).stack) >= Climb(n.stack)
    decreases |comps|
  {
    if comps != [] {
      PushNormal(n, comps[0]);
      ClimbPush(n.stack, comps[0]);
      ClimbFold(Push(n, comps[0]), comps[1..]);
    }
  }

  lemma ClimbPush(stack: seq<string>, c: string)
    requires IsNormal(stack)
    ensures Climb(Push(Norm(false, stack), c).stack) >= Climb(stack)
  {
    var s' := Push(Norm(false, stack), c).stack;
    ClimbAtLeast(s', Climb(stack));
  }

  lemma {:induction false} ClimbAtLeast(stack: seq<string>, n: nat)
    requires n <= |stack| && forall i | 0 <= i < n :: stack[i] == ".."
    ensures Climb(stack) >= n
  {
  }

  /** ".." either takes a name away or adds one more ".." */
  lemma UpStep(stack: seq<string>)
    requires IsNormal(stack)
    ensures var s' := Push(Norm(false, stack), "..").stack;
            if Climb(stack) == |stack| then s' == stack + [".."] && Climb(s') == |s'|
            else s' == stack[..|stack| - 1] && Climb(s') == Climb(stack)
  {
    var last := |stack| - 1;
    var s' := Push(Norm(false, stack), "..").stack;
    if Climb(stack) == |stack| {
      assert s' == stack + [".."];
      ClimbAtLeast(s', |s'|);
    } else {
      NamesAfterClimb(stack, last);
      assert s' == stack[..last];
      ClimbOfFront(stack, last);
    }
  }

  lemma ClimbOfFront(stack: seq<string>, k: nat)
    requires Climb(stack) <= k <= |stack|
    ensures Climb(stack[..k]) == Climb(stack)
  {
    var front := stack[..k];
    ClimbAtLeast(front, Climb(stack));
    if Climb(stack) < k {
      assert front[Climb(stack)] == stack[Climb(stack)];
    }
  }

  /** Following m times ".." with m at least the number of names leaves only "..", as often as ".." was
      there before plus the times left when the names are gone. */
  lemma {:induction false} FoldManyUps(stack: seq<string>, m: nat)
    requires IsNormal(stack) && m >= |stack| - Climb(stack)
    ensures Fold(Norm(false, stack), Ups(m)) == Norm(false, Ups(2 * Climb(stack) + m - |stack|))
    decreases m
  {
    if m == 0 {
      assert stack == Ups(|stack|);
    } else {
      FirstUp(Norm(false, stack), m);
      UpStepCounts(stack);
      FoldManyUps(Push(Norm(false, stack), "..").stack, m - 1);
    }
  }

  lemma UpStepCounts(stack: seq<string>)
    requires IsNormal(stack)
    ensures var n := Push(Norm(false, stack), "..");
            && n == Norm(false, n.stack) && IsNormal(n.stack)
            && 2 * Climb(n.stack) - |n.stack| == 2 * Climb(stack) - |stack| + 1
            && |n.stack| - Climb(n.stack) == if Climb(stack) == |stack| then 0 else |stack| - Climb(stack) - 1
  {
    PushNormal(Norm(false, stack), "..");
    UpStep(stack);
  }

  lemma FirstUp(n: Norm, m: nat)
    requires m > 0
    ensures Fold(n, Ups(m)) == Fold(Push(n, ".."), Ups(m - 1))
  {
    assert Ups(m)[1..] == Ups(m - 1);
  }

  lemma NamesAfterClimb(stack: seq<string>, i: nat)
    requires IsNormal(stack) && Climb(stack) <= i < |stack|
    ensures stack[i] != ".."
  {
    assert stack[Climb(stack)] != "..";
  }

  /** From a directory that climbs beyond the common part, going up climbs even further. */
  lemma UpsClimbFurther(d: seq<string>, l: nat)
    requires IsNormal(d) && l < Climb(d)
    ensures var n := Fold(Norm(false, d), Ups(|d| - l));
            !n.rooted && IsNormal(n.stack) && n.stack == Ups(2 * Climb(d) - l) && Climb(n.stack) > l
  {
    FoldManyUps(d, |d| - l);
    ClimbAtLeast(Ups(2 * Climb(d) - l), 2 * Climb(d) - l);
  }

  /** Otherwise it arrives somewhere else: ".." cannot undo "..". */
  lemma RelativeStrays(p: seq<string>, d: seq<string>, i: nat)
    requires IsNormal(p) && IsNormal(d)
    requires Common(p, d) <= i < |d| && d[i] == ".."
    ensures Fold(Norm(false, d), Relative(p, d)) != Norm(false, p)
  {
    ClimbBeyond(p, d, i);
    UpsClimbFurther(d, Common(p, d));
    FoldRelative(p, d);
    StaysTooHigh(p, Common(p, d), Fold(Norm(false, d), Ups(|d| - Common(p, d))));
  }

  lemma ClimbBeyond(p: seq<string>, d: seq<string>, i: nat)
    requires IsNormal(p) && IsNormal(d)
    requires Common(p, d) <= i < |d| && d[i] == ".."
    ensures Climb(p) <= Common(p, d) < Climb(d)
  {
    ClimbsTo(d, Common(p, d), i);
    ClimbBelow(p, d);
  }

  lemma FoldRelative(p: seq<string>, d: seq<string>)
    ensures Fold(Norm(false, d), Relative(p, d))
         == Fold(Fold(Norm(false, d), Ups(|d| - Common(p, d))), p[Common(p, d)..])
  {
    FoldConcat(Norm(false, d), Ups(|d| - Common(p, d)), p[Common(p, d)..]);
  }

  /** A ".." at i makes a normal form climb beyond everything up to i. */
  lemma ClimbsTo(d: seq<string>, l: nat, i: nat)
    requires IsNormal(d) && l <= i < |d| && d[i] == ".."
    ensures l < Climb(d) && d[l] == ".."
  {
    UpsBefore(d, i);
    ClimbAtLeast(d, i + 1);
  }

  lemma UpsBefore(d: seq<string>, i: nat)
    requires IsNormal(d) && i < |d| && d[i] == ".."
    ensures forall j | 0 <= j < i + 1 :: d[j] == ".."
  {
  }

  lemma StaysTooHigh(p: seq<string>, l: nat, n: Norm)
    requires IsNormal(p) && l <= |p| && Climb(p) <= l
    requires !n.rooted && IsNormal(n.stack) && l < Climb(n.stack)
    ensures Fold(n, p[l..]) != Norm(false, p)
  {
    ClimbFold(n, p[l..]);
  }

  /** If d goes on with "..", p does not: it climbs exactly as far as the common part. */
  lemma ClimbBelow(p: seq<string>, d: seq<string>)
    requires IsNormal(p) && IsNormal(d) && Common(p, d) < |d| && d[Common(p, d)] == ".."
    ensures Climb(p) <= Common(p, d)
  {
  }

  // ----- roots -----

  /** The components of what RelPath writes. If only one of the two normal forms is rooted nothing is common;
      the root of the directory counts as one more directory to leave, unless the path is empty. */
  function PathFrom(p: Norm, d: Norm): seq<string> {
    if p.rooted == d.rooted then Relative(p.stack, d.stack)
    else if p.rooted || p.stack == [] then Ups(|d.stack|) + p.stack
    else Ups(|d.stack| + 1) + p.stack
  }

  /** When following these components from the directory arrives at the path. */
  predicate LeadsBack(p: Norm, d: Norm) {
    if p.rooted && d.rooted then d.stack == [] || Common(p.stack, d.stack) > 0
    else if p.rooted then false
    else if d.rooted then p.stack == [] && d.stack != []
    else forall i | Common(p.stack, d.stack) <= i < |d.stack| :: d.stack[i] != ".."
  }

  /** Below the root, ".." takes names away; the last one takes the root along. */
  lemma {:induction false} FoldRootedUps(stack: seq<string>, k: nat)
    requires IsNormalForm(Norm(true, stack)) && k <= |stack|
    ensures Fold(Norm(true, stack), Ups(k)) == Norm(k == 0 || k < |stack|, stack[..|stack| - k])
    decreases k
  {
    if k > 0 {
      var last := |stack| - 1;
      assert Ups(k)[1..] == Ups(k - 1);
      assert Push(Norm(true, stack), "..") == Norm(last > 0, stack[..last]);
      if last > 0 {
        FoldRootedUps(stack[..last], k - 1);
        assert stack[..last][..last - (k - 1)] == stack[..|stack| - k];
      }
    } else {
      assert stack[..|stack|] == stack;
    }
  }

  /** Two rooted paths: the way leads back if it does not go up to the root. */
  lemma RootedLeadsBackIff(p: seq<string>, d: seq<string>)
    requires IsNormalForm(Norm(true, p)) && IsNormalForm(Norm(true, d))
    ensures Fold(Norm(true, d), Relative(p, d)) == Norm(true, p) <==> d == [] || Common(p, d) > 0
  {
    var l := Common(p, d);
    FoldConcat(Norm(true, d), Ups(|d| - l), p[l..]);
    FoldRootedUps(d, |d| - l);
    if d == [] || l > 0 {
      FoldNormalForm(Norm(true, p), l);
    } else {
      UnrootedStays(Norm(false, []), p[l..]);
    }
  }

  /** A relative path from a rooted directory: only the empty one is reached, by leaving the root. */
  lemma UnrootedLeadsBackIff(p: seq<string>, d: seq<string>)
    requires IsNormal(p) && IsNormalForm(Norm(true, d))
    ensures Fold(Norm(true, d), PathFrom(Norm(false, p), Norm(true, d))) == Norm(false, p) <==> p == [] && d != []
  {
    FoldRootedUps(d, |d|);
    assert d[..|d| - |d|] == [];
    if p == [] {
      assert Ups(|d|) + p == Ups(|d|);
    } else {
      var n := Push(Norm(d == [], []), "..");
      assert Ups(|d| + 1) == Ups(|d|) + [".."];
      FoldConcat(Norm(true, d), Ups(|d|), [".."]);
      assert n == Norm(d == [], [".."]) && [".."][1..] == [];
      assert Fold(Norm(d == [], []), [".."]) == n;
      FoldConcat(Norm(true, d), Ups(|d| + 1), p);
      if d == [] {
        FromAboveRoot(p);
      } else {
        StaysTooHighFrom(p);
      }
    }
  }

  /** From "/..": a first ".." leads nowhere, and otherwise the path stays rooted. */
  lemma FromAboveRoot(p: seq<string>)
    requires IsNormal(p) && p != []
    ensures Fold(Norm(true, [".."]), p) != Norm(false, p)
  {
    if p[0] == ".." {
      assert Fold(Norm(true, [".."]), p) == Fold(Norm(false, []), p[1..]);
      FoldNormalForm(Norm(false, p[1..]), 0);
      assert p[1..][..0] == [] && p[1..][0..] == p[1..];
    } else {
      var n := Norm(true, [".."] + p);
      FoldNormalForm(n, 1);
      assert n.stack[..1] == [".."] && n.stack[1..] == p;
    }
  }

  lemma StaysTooHighFrom(p: seq<string>)
    requires IsNormal(p)
    ensures Fold(Norm(false, [".."]), p) == Norm(false, [".."] + p) != Norm(false, p)
  {
    var n := Norm(false, [".."] + p);
    FoldNormalForm(n, 1);
    assert n.stack[..1] == [".."] && n.stack[1..] == p;
  }

  /** Following the components RelPath writes arrives at the path exactly in these cases. */
  lemma PathFromLeadsBackIff(p: Norm, d: Norm)
    requires IsNormalForm(p) && IsNormalForm(d)
    ensures Fold(d, PathFrom(p, d)) == p <==> LeadsBack(p, d)
  {
    if p.rooted && d.rooted {
      RootedLeadsBackIff(p.stack, d.stack);
    } else if p.rooted {
      UnrootedStays(d, PathFrom(p, d));
    } else if d.rooted {
      UnrootedLeadsBackIff(p.stack, d.stack);
    } else {
      RelativeLeadsBackIff(p.stack, d.stack);
    }
  }

  lemma RelativeLeadsBackIff(p: seq<string>, d: seq<string>)
    requires IsNormal(p) && IsNormal(d)
    ensures Fold(Norm(false, d), Relative(p, d)) == Norm(false, p) <==>
            forall i | Common(p, d) <= i < |d| :: d[i] != ".."
  {
    if forall i | Common(p, d) <= i < |d| :: d[i] != ".." {
      RelativeReturns(p, d);
    } else {
      var i :| Common(p, d) <= i < |d| && d[i] == "..";
      RelativeStrays(p, d, i);
    }
  }

  // ----- strings -----

  /** JoinPaths, lines 17 to 52, when everything fits. */
  function JoinString(dir: string, path: string): string {
    if IsAbs(path) then path
    else dir + (if dir != "" && !IsSep(dir[|dir| - 1]) then [SEP] else "") + path
  }

  /** k times ".." with a separator. */
  function UpString(k: nat): string {
    if k == 0 then "" else ['.', '.', SEP] + UpString(k - 1)
  }

  /** What RelPath writes if both normal forms are rooted, or neither. */
  function RelativeString(p: seq<string>, d: seq<string>): string {
    UpString(|d| - Common(p, d)) + Joined(p[Common(p, d)..])
  }

  /** What RelPath writes. A rooted path keeps its leading separator after the "..". */
  function RelativeText(p: Norm, d: Norm): string {
    if p.rooted == d.rooted then RelativeString(p.stack, d.stack)
    else if p.rooted then UpString(|d.stack|) + (if d.stack == [] then "" else [SEP]) + Joined(p.stack)
    else UpString(if p.stack == [] then |d.stack| else |d.stack| + 1) + Joined(p.stack)
  }

  lemma {:induction false} ComponentsOfUps(k: nat, rest: string)
    ensures Components(UpString(k) + rest, 0) == Ups(k) + Components(rest, 0)
  {
    if k == 0 {
      assert UpString(0) + rest == rest;
      assert Ups(0) + Components(rest, 0) == Components(rest, 0);
    } else {
      var s := UpString(k - 1) + rest;
      var comps := Components(rest, 0);
      calc {
        Components(UpString(k) + rest, 0);
        { UpsCons(k, rest); }
        Components(".." + ([SEP] + s), 0);
        { ComponentsCons("..", [SEP] + s); }
        [".."] + Components([SEP] + s, 0);
        { ComponentsSep(SEP, s); }
        [".."] + Components(s, 0);
        { ComponentsOfUps(k - 1, rest); }
        [".."] + (Ups(k - 1) + comps);
        { assert [".."] + Ups(k - 1) == Ups(k); }
        Ups(k) + comps;
      }
    }
  }

  lemma UpsCons(k: nat, rest: string)
    requires k > 0
    ensures UpString(k) + rest == ".." + ([SEP] + (UpString(k - 1) + rest))
  {
  }

  lemma ComponentsOfRelative(p: seq<string>, d: seq<string>)
    requires AreComponents(p)
    ensures Components(RelativeString(p, d), 0) == Relative(p, d)
    ensures !IsAbs(RelativeString(p, d))
  {
    var rest := p[Common(p, d)..];
    JoinedRelative(rest);
    ComponentsOfJoined(rest);
    ComponentsOfUps(|d| - Common(p, d), Joined(rest));
    assert Common(p, d) == |d| ==> RelativeString(p, d) == Joined(rest);
  }

  lemma ComponentsOfText(p: Norm, d: Norm)
    requires AreComponents(p.stack)
    ensures Components(RelativeText(p, d), 0) == PathFrom(p, d)
    ensures !IsAbs(RelativeText(p, d))
  {
    if p.rooted == d.rooted {
      ComponentsOfRelative(p.stack, d.stack);
    } else {
      var k := if p.rooted || p.stack == [] then |d.stack| else |d.stack| + 1;
      var sep := if p.rooted && d.stack != [] then [SEP] else "";
      assert RelativeText(p, d) == UpString(k) + (sep + Joined(p.stack));
      ComponentsOfUps(k, sep + Joined(p.stack));
      SepAndJoined(sep, p.stack);
    }
  }

  lemma SepAndJoined(sep: string, comps: seq<string>)
    requires AreComponents(comps) && (sep == "" || sep == [SEP])
    ensures Components(sep + Joined(comps), 0) == comps
    ensures IsAbs(sep + Joined(comps)) <==> sep == [SEP]
  {
    ComponentsOfJoined(comps);
    JoinedRelative(comps);
    if sep == "" {
      assert sep + Joined(comps) == Joined(comps);
    } else {
      ComponentsSep(SEP, Joined(comps));
    }
  }

  /** Splitting a directory, a separator and a path. */
  lemma {:induction false} ComponentsOfConcat(dir: string, rest: string, i: nat)
    requires i <= |dir|
    requires rest == "" || IsSep(rest[0]) || dir == "" || IsSep(dir[|dir| - 1])
    ensures Components(dir + rest, i) == Components(dir, i) + Components(rest, 0)
    decreases |dir| - i
  {
    var s := dir + rest;
    if i == |dir| {
      ComponentsSuffix(s, |dir|, |dir|);
      assert s[|dir|..] == rest;
    } else if IsSep(dir[i]) {
      assert s[i] == dir[i];
      ComponentsOfConcat(dir, rest, i + 1);
    } else {
      assert s[i] == dir[i];
      EndInFront(dir, rest, i);
      EndLater(dir, i);
      var e := ComponentEnd(dir, i);
      calc {
        Components(s, i);
        [s[i..e]] + Components(s, e);
        { assert s[i..e] == dir[i..e]; ComponentsOfConcat(dir, rest, e); }
        [dir[i..e]] + (Components(dir, e) + Components(rest, 0));
        Components(dir, i) + Components(rest, 0);
      }
    }
  }

  lemma {:induction false} EndInFront(dir: string, rest: string, i: nat)
    requires i < |dir| && !IsSep(dir[i])
    requires rest == "" || IsSep(rest[0]) || IsSep(dir[|dir| - 1])
    ensures ComponentEnd(dir + rest, i) == ComponentEnd(dir, i)
    decreases |dir| - i
  {
    var s := dir + rest;
    assert s[i] == dir[i];
    if i + 1 < |dir| && !IsSep(dir[i + 1]) {
      EndInFront(dir, rest, i + 1);
    } else if i + 1 < |dir| {
      assert s[i + 1] == dir[i + 1];
    } else if rest != "" {
      assert s[i + 1] == rest[0];
    }
  }

  lemma ComponentsOfJoin(dir: string, path: string)
    requires !IsAbs(path)
    ensures Components(JoinString(dir, path), 0) == Components(dir, 0) + Components(path, 0)
  {
    if dir != "" && !IsSep(dir[|dir| - 1]) {
      assert JoinString(dir, path) == dir + ([SEP] + path);
      ComponentsOfConcat(dir, [SEP] + path, 0);
      ComponentsSep(SEP, path);
    } else {
      assert JoinString(dir, path) == dir + path;
      ComponentsOfConcat(dir, path, 0);
    }
  }

  /** Main result: joining dir with the path from dir to `path` normalises to the normal form of `path` exactly
      if these lead back. */
  lemma JoinRelativeRoundTrip(path: string, dir: string)
    ensures var p, d := Normalize(path), Normalize(dir);
            Render(Normalize(JoinString(dir, RelativeText(p, d)))) == Render(p) <==> LeadsBack(p, d)
  {
    var p, d := Normalize(path), Normalize(dir);
    NormalizeIsNormal(path);
    NormalizeIsNormal(dir);
    ComponentsOfText(p, d);
    NormalizeJoined(dir, RelativeText(p, d));
    PathFromLeadsBackIff(p, d);
    NormalizeIsNormal(JoinString(dir, RelativeText(p, d)));
    SameRendering(Normalize(JoinString(dir, RelativeText(p, d))), p);
  }

  /** A joined path is followed from the normal form of the directory. */
  lemma NormalizeJoined(dir: string, path: string)
    requires !IsAbs(path)
    ensures Normalize(JoinString(dir, path)) == Fold(Normalize(dir), Components(path, 0))
  {
    ComponentsOfJoin(dir, path);
    FoldConcat(Norm(IsAbs(dir), []), Components(dir, 0), Components(path, 0));
    if dir != "" {
      assert JoinString(dir, path)[0] == dir[0];
    } else {
      assert JoinString(dir, path) == path;
    }
  }

  /** Joining what was rendered renders the components of both. */
  lemma JoinRendered(n: Norm, comps: seq<string>)
    requires AreComponents(n.stack) && AreComponents(comps) && comps != []
    ensures JoinString(Render(n), Joined(comps)) == Render(Norm(n.rooted, n.stack + comps))
  {
    JoinedRelative(comps);
    if n.stack == [] {
      assert n.stack + comps == comps;
      JoinRoot(n.rooted, comps);
    } else {
      JoinBelow(n, comps);
    }
  }

  lemma JoinRoot(rooted: bool, comps: seq<string>)
    requires AreComponents(comps)
    ensures JoinString(Render(Norm(rooted, [])), Joined(comps)) == Render(Norm(rooted, comps))
  {
    JoinedRelative(comps);
    if rooted {
      RenderRooted([]);
      RenderRooted(comps);
      JoinSep(Joined(comps));
    } else {
      JoinedRelative([]);
      JoinEmpty(Joined(comps));
    }
  }

  lemma JoinEmpty(path: string)
    requires !IsAbs(path)
    ensures JoinString("", path) == path
  {
  }

  lemma JoinSep(path: string)
    requires !IsAbs(path)
    ensures JoinString([SEP], path) == [SEP] + path && [SEP] + "" == [SEP]
  {
  }

  lemma JoinBelow(n: Norm, comps: seq<string>)
    requires AreComponents(n.stack) && AreComponents(comps) && n.stack != [] && comps != []
    ensures JoinString(Render(n), Joined(comps)) == Render(Norm(n.rooted, n.stack + comps))
  {
    JoinedRelative(comps);
    JoinedRelative(n.stack);
    JoinedRelative(n.stack + comps);
    JoinedConcat(n.stack, comps);
    LastCharacter(n.stack);
    JoinWithSep(Joined(n.stack), Joined(comps));
    if n.rooted {
      RenderRooted(n.stack);
      RenderRooted(n.stack + comps);
    }
  }

  /** A directory that does not end in a separator gets one. */
  lemma JoinWithSep(dir: string, path: string)
    requires !IsAbs(path) && dir != "" && !IsSep(dir[|dir| - 1])
    ensures JoinString(dir, path) == dir + [SEP] + path
    ensures JoinString([SEP] + dir, path) == [SEP] + (dir + [SEP] + path)
  {
    assert ([SEP] + dir)[|dir|] == dir[|dir| - 1];
    assert ([SEP] + dir) + [SEP] + path == [SEP] + (dir + [SEP] + path);
  }

  lemma {:induction false} JoinedConcat(a: seq<string>, b: seq<string>)
    requires b != []
    ensures Joined(a + b) == (if a == [] then "" else Joined(a) + [SEP]) + Joined(b)
    decreases |a|
  {
    if a == [] {
      assert a + b == b;
    } else {
      assert (a + b)[1..] == a[1..] + b;
      JoinedConcat(a[1..], b);
    }
  }

  /** The directory that a path names, followed from the directory `base`. */
  function Place(base: seq<string>, path: string): seq<string> {
    Walk(if IsAbs(path) then [] else base, Components(path, 0))
  }

  /** The joined path, absolute or not, names the place that `path` names from the directory that `dir` names. */
  lemma JoinMeaning(base: seq<string>, dir: string, path: string)
    ensures Place(base, JoinString(dir, path)) == Place(Place(base, dir), path)
    ensures IsAbs(JoinString(dir, path)) <==> IsAbs(path) || IsAbs(dir)
  {
    if !IsAbs(path) {
      var start := if IsAbs(dir) then [] else base;
      ComponentsOfJoin(dir, path);
      WalkConcat(start, Components(dir, 0), Components(path, 0));
      if dir != "" {
        assert JoinString(dir, path)[0] == dir[0];
      } else {
        assert JoinString(dir, path) == path;
      }
    }
  }

  /** Different normal forms are rendered differently. */
  lemma SameRendering(a: Norm, b: Norm)
    requires AreComponents(a.stack) && AreComponents(b.stack)
    ensures Render(a) == Render(b) <==> a == b
  {
    RenderedForm(a);
    RenderedForm(b);
  }
}
