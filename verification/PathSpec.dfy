/** Paths as lists of components: what ycommon/platform/file_path.cpp computes, free of buffers. */
module PathSpec {

  /** Whether the Windows separators are compiled in; both builds are covered. */
  const WIN: bool

  const SEP: char := if WIN then '\\' else '/'

  predicate IsSep(c: char) {
    c == '/' || (WIN && c == '\\')
  }

  predicate IsAbs(path: string) {
    path != "" && IsSep(path[0])
  }

  /** The character at index i of a C string: a string without '\0', followed by one. */
  function At(s: string, i: nat): char
    requires i <= |s|
  {
    if i < |s| then s[i] else '\0'
  }

  // ----- splitting -----

  /** The end of the stretch without separators that starts at i. */
  function ComponentEnd(path: string, i: nat): (e: nat)
    requires i <= |path|
    ensures i <= e <= |path|
    ensures forall k | i <= k < e :: !IsSep(path[k])
    ensures e < |path| ==> IsSep(path[e])
    decreases |path| - i
  {
    if i == |path| || IsSep(path[i]) then i else ComponentEnd(path, i + 1)
  }

  function Components(path: string, i: nat): seq<string>
    requires i <= |path|
    decreases |path| - i
  {
    if i == |path| then []
    else if IsSep(path[i]) then Components(path, i + 1)
    else [path[i..ComponentEnd(path, i)]] + Components(path, ComponentEnd(path, i))
  }

  // ----- normalising -----

  /** A normalised path: `rooted` says whether it starts with a separator. */
  datatype Norm = Norm(rooted: bool, stack: seq<string>)

  /** Whether ".." takes the last component away. The very first component after the root always
      goes, and the root with it; otherwise ".." itself stays. */
  predicate CanPop(n: Norm) {
    n.stack != [] && (n.stack[|n.stack| - 1] != ".." || (n.rooted && |n.stack| == 1))
  }

  function Pop(n: Norm): Norm
    requires n.stack != []
  {
    Norm(n.rooted && |n.stack| > 1, n.stack[..|n.stack| - 1])
  }

  function Push(n: Norm, c: string): Norm {
    if c == "." then n
    else if c == ".." && CanPop(n) then Pop(n)
    else n.(stack := n.stack + [c])
  }

  function Fold(n: Norm, comps: seq<string>): Norm
    decreases |comps|
  {
    if comps == [] then n else Fold(Push(n, comps[0]), comps[1..])
  }

  function Normalize(path: string): Norm {
    Fold(Norm(IsAbs(path), []), Components(path, 0))
  }

  // ----- rendering -----

  /** Every component followed by a separator. */
  function Slashed(stack: seq<string>): string {
    if stack == [] then "" else Slashed(stack[..|stack| - 1]) + stack[|stack| - 1] + [SEP]
  }

  function SlashedPath(n: Norm): string {
    (if n.rooted then [SEP] else "") + Slashed(n.stack)
  }

  /** Without the separator at the end, unless it is all there is. */
  function Render(n: Norm): string {
    var s := SlashedPath(n);
    if |s| > 1 then s[..|s| - 1] else s
  }

  /** A non-empty component without separators. */
  predicate IsComponent(c: string) {
    c != "" && forall k | 0 <= k < |c| :: !IsSep(c[k])
  }

  predicate AreComponents(comps: seq<string>) {
    forall k | 0 <= k < |comps| :: IsComponent(comps[k])
  }

  /** No "." and ".." only at the front. */
  predicate IsNormal(stack: seq<string>) {
    && AreComponents(stack)
    && (forall k | 0 <= k < |stack| :: stack[k] != ".")
    && (forall j, k | 0 <= j < k < |stack| :: stack[k] == ".." ==> stack[j] == "..")
  }

  /** After the root, ".." can be the first component only. */
  predicate IsNormalForm(n: Norm) {
    IsNormal(n.stack) && (n.rooted ==> forall k | 0 < k < |n.stack| :: n.stack[k] != "..")
  }

  lemma {:induction false} ComponentsAre(path: string, i: nat)
    requires i <= |path|
    ensures AreComponents(Components(path, i))
    decreases |path| - i
  {
    if i < |path| {
      if IsSep(path[i]) {
        ComponentsAre(path, i + 1);
      } else {
        ComponentsAre(path, ComponentEnd(path, i));
      }
    }
  }

  // ----- normal forms -----

  lemma PushNormal(n: Norm, c: string)
    requires IsNormalForm(n) && IsComponent(c)
    ensures IsNormalForm(Push(n, c)) && (!n.rooted ==> !Push(n, c).rooted)
  {
  }

  lemma {:induction false} FoldNormal(n: Norm, comps: seq<string>)
    requires IsNormalForm(n) && AreComponents(comps)
    ensures IsNormalForm(Fold(n, comps)) && (!n.rooted ==> !Fold(n, comps).rooted)
    decreases |comps|
  {
    if comps != [] {
      PushNormal(n, comps[0]);
      FoldNormal(Push(n, comps[0]), comps[1..]);
    }
  }

  lemma {:induction false} FoldConcat(n: Norm, a: seq<string>, b: seq<string>)
    ensures Fold(n, a + b) == Fold(Fold(n, a), b)
    decreases |a|
  {
    if a == [] {
      assert a + b == b;
    } else {
      assert (a + b)[1..] == a[1..] + b;
      FoldConcat(Push(n, a[0]), a[1..], b);
    }
  }

  /** Pushing the rest of a normal form onto its beginning completes it. */
  lemma {:induction false} FoldNormalForm(n: Norm, k: nat)
    requires IsNormalForm(n) && k <= |n.stack|
    ensures Fold(Norm(n.rooted, n.stack[..k]), n.stack[k..]) == n
    decreases |n.stack| - k
  {
    if k == |n.stack| {
      assert n.stack[..k] == n.stack;
    } else {
      assert Push(Norm(n.rooted, n.stack[..k]), n.stack[k]) == Norm(n.rooted, n.stack[..k + 1]) by {
        assert n.stack[..k] + [n.stack[k]] == n.stack[..k + 1];
      }
      assert n.stack[k..][0] == n.stack[k] && n.stack[k..][1..] == n.stack[k + 1..];
      FoldNormalForm(n, k + 1);
    }
  }

  /** Normalising gives a normal form, and a relative one for a relative path. */
  lemma NormalizeIsNormal(path: string)
    ensures IsNormalForm(Normalize(path)) && (!IsAbs(path) ==> !Normalize(path).rooted)
  {
    ComponentsAre(path, 0);
    FoldNormal(Norm(IsAbs(path), []), Components(path, 0));
  }

  lemma RelativeIsNormal(path: string)
    requires !IsAbs(path)
    ensures !Normalize(path).rooted && IsNormal(Normalize(path).stack)
  {
    NormalizeIsNormal(path);
  }

  // ----- splitting what was rendered -----

  lemma {:induction false} EndAfter(c: string, rest: string, i: nat)
    requires forall k | 0 <= k < |c| :: !IsSep(c[k])
    requires rest == "" || IsSep(rest[0])
    requires i <= |c|
    ensures ComponentEnd(c + rest, i) == |c|
    decreases |c| - i
  {
    if i < |c| {
      EndAfter(c, rest, i + 1);
    }
  }

  /** Components depends only on what is left of the path. */
  lemma {:induction false} ComponentsSuffix(path: string, i: nat, j: nat)
    requires j <= i <= |path|
    ensures Components(path[j..], i - j) == Components(path, i)
    decreases |path| - i
  {
    var s := path[j..];
    if i < |path| {
      assert s[i - j] == path[i];
      if IsSep(path[i]) {
        ComponentsSuffix(path, i + 1, j);
        assert Components(s, i - j) == Components(s, i + 1 - j);
      } else {
        var e := ComponentEnd(path, i);
        EndSuffix(path, i, j);
        EndLater(path, i);
        ComponentsSuffix(path, e, j);
        assert s[i - j..e - j] == path[i..e];
        ComponentsHead(path, i);
        ComponentsHead(s, i - j);
      }
    }
  }

  lemma ComponentsHead(path: string, i: nat)
    requires i < |path| && !IsSep(path[i])
    ensures Components(path, i) == [path[i..ComponentEnd(path, i)]] + Components(path, ComponentEnd(path, i))
  {
  }

  lemma EndLater(path: string, i: nat)
    requires i < |path| && !IsSep(path[i])
    ensures ComponentEnd(path, i) > i
  {
  }

  lemma {:induction false} EndSuffix(path: string, i: nat, j: nat)
    requires j <= i <= |path|
    ensures ComponentEnd(path[j..], i - j) == ComponentEnd(path, i) - j
    decreases |path| - i
  {
    if i < |path| {
      assert path[j..][i - j] == path[i];
      if !IsSep(path[i]) {
        EndSuffix(path, i + 1, j);
      }
    }
  }

  /** A first component followed by a separator, or by nothing. */
  lemma ComponentsCons(c: string, rest: string)
    requires IsComponent(c) && (rest == "" || IsSep(rest[0]))
    ensures Components(c + rest, 0) == [c] + Components(rest, 0)
  {
    EndAfter(c, rest, 0);
    assert (c + rest)[0..|c|] == c;
    ComponentsSuffix(c + rest, |c|, |c|);
    assert (c + rest)[|c|..] == rest;
  }

  lemma ComponentsSep(s: char, rest: string)
    requires IsSep(s)
    ensures Components([s] + rest, 0) == Components(rest, 0)
  {
    ComponentsSuffix([s] + rest, 1, 1);
    assert ([s] + rest)[1..] == rest;
  }

  /** The components joined by single separators. */
  function Joined(comps: seq<string>): string {
    if comps == [] then "" else if |comps| == 1 then comps[0] else comps[0] + [SEP] + Joined(comps[1..])
  }

  lemma {:induction false} JoinedIsSlashed(comps: seq<string>)
    ensures Slashed(comps) == if comps == [] then "" else Joined(comps) + [SEP]
    decreases |comps|
  {
    if |comps| == 1 {
      assert comps[..0] == [];
    } else if |comps| > 1 {
      var last := |comps| - 1;
      JoinedIsSlashed(comps[..last]);
      JoinedSnoc(comps[..last], comps[last]);
      assert comps[..last] + [comps[last]] == comps;
    }
  }

  lemma {:induction false} JoinedSnoc(comps: seq<string>, c: string)
    requires comps != []
    ensures Joined(comps + [c]) == Joined(comps) + [SEP] + c
    decreases |comps|
  {
    if |comps| > 1 {
      JoinedSnoc(comps[1..], c);
      assert (comps + [c])[1..] == comps[1..] + [c];
    } else {
      assert (comps + [c])[1..] == [c];
    }
  }

  /** Splitting undoes joining. */
  lemma {:induction false} ComponentsOfJoined(comps: seq<string>)
    requires AreComponents(comps)
    ensures Components(Joined(comps), 0) == comps
    decreases |comps|
  {
    if |comps| == 1 {
      ComponentsCons(comps[0], "");
      assert comps[0] + "" == comps[0];
    } else if |comps| > 1 {
      var rest := [SEP] + Joined(comps[1..]);
      ComponentsCons(comps[0], rest);
      assert Joined(comps) == comps[0] + rest;
      ComponentsSep(SEP, Joined(comps[1..]));
      ComponentsOfJoined(comps[1..]);
    }
  }

  lemma {:induction false} LastCharacter(comps: seq<string>)
    requires AreComponents(comps) && comps != []
    ensures Joined(comps) != "" && !IsSep(Joined(comps)[|Joined(comps)| - 1])
    decreases |comps|
  {
    if |comps| > 1 {
      LastCharacter(comps[1..]);
    }
  }

  lemma JoinedRelative(comps: seq<string>)
    requires AreComponents(comps)
    ensures !IsAbs(Joined(comps)) && (comps != [] ==> Joined(comps) != "")
    ensures Render(Norm(false, comps)) == Joined(comps)
  {
    JoinedIsSlashed(comps);
    if comps != [] {
      assert Joined(comps)[0] == comps[0][0];
    }
  }

  lemma RenderRooted(stack: seq<string>)
    requires AreComponents(stack)
    ensures Render(Norm(true, stack)) == [SEP] + Joined(stack)
  {
    JoinedIsSlashed(stack);
    JoinedRelative(stack);
  }

  /** Reading a rendered normal form gives its root and its components back. */
  lemma RenderedForm(n: Norm)
    requires AreComponents(n.stack)
    ensures IsAbs(Render(n)) <==> n.rooted
    ensures Components(Render(n), 0) == n.stack
  {
    JoinedIsSlashed(n.stack);
    JoinedRelative(n.stack);
    ComponentsOfJoined(n.stack);
    if n.rooted {
      assert Render(n) == [SEP] + Joined(n.stack);
      ComponentsSep(SEP, Joined(n.stack));
    }
  }

  /** The rendered normal form of any path is a fixed point. */
  lemma NormalizeIdempotent(path: string)
    ensures Normalize(Render(Normalize(path))) == Normalize(path)
    ensures IsAbs(Render(Normalize(path))) <==> Normalize(path).rooted
    ensures !IsAbs(path) ==> !IsAbs(Render(Normalize(path)))
  {
    var n := Normalize(path);
    NormalizeIsNormal(path);
    RenderedForm(n);
    FoldNormalForm(n, 0);
    assert n.stack[..0] == [] && n.stack[0..] == n.stack;
  }

  // ----- normalising introduces no '\0' -----

  predicate NulFree(comps: seq<string>) {
    forall k | 0 <= k < |comps| :: '\0' !in comps[k]
  }

  lemma {:induction false} ComponentsNulFree(path: string, i: nat)
    requires i <= |path| && '\0' !in path
    ensures NulFree(Components(path, i))
    decreases |path| - i
  {
    if i < |path| {
      if IsSep(path[i]) {
        ComponentsNulFree(path, i + 1);
      } else {
        ComponentsNulFree(path, ComponentEnd(path, i));
      }
    }
  }

  lemma {:induction false} FoldNulFree(n: Norm, comps: seq<string>)
    requires NulFree(n.stack) && NulFree(comps)
    ensures NulFree(Fold(n, comps).stack)
    decreases |comps|
  {
    if comps != [] {
      FoldNulFree(Push(n, comps[0]), comps[1..]);
    }
  }

  lemma {:induction false} SlashedNulFree(stack: seq<string>)
    requires NulFree(stack)
    ensures '\0' !in Slashed(stack)
  {
    if stack != [] {
      SlashedNulFree(stack[..|stack| - 1]);
    }
  }

  lemma NormalizeNulFree(path: string)
    requires '\0' !in path
    ensures NulFree(Normalize(path).stack) && '\0' !in Render(Normalize(path))
  {
    ComponentsNulFree(path, 0);
    FoldNulFree(Norm(IsAbs(path), []), Components(path, 0));
    SlashedNulFree(Normalize(path).stack);
  }

  // ----- what a path means -----

  /** The directory reached from `dir` (its names from the root) by following the components. */
  function Walk(dir: seq<string>, comps: seq<string>): seq<string>
    decreases |comps|
  {
    if comps == [] then dir
    else Walk(WalkStep(dir, comps[0]), comps[1..])
  }

  function WalkStep(dir: seq<string>, c: string): seq<string> {
    if c == "." then dir
    else if c == ".." then (if dir == [] then [] else dir[..|dir| - 1])
    else dir + [c]
  }

  lemma {:induction false} WalkConcat(dir: seq<string>, a: seq<string>, b: seq<string>)
    ensures Walk(dir, a + b) == Walk(Walk(dir, a), b)
    decreases |a|
  {
    if a == [] {
      assert a + b == b;
    } else {
      assert (a + b)[1..] == a[1..] + b;
      WalkConcat(WalkStep(dir, a[0]), a[1..], b);
    }
  }

  lemma WalkPush(dir: seq<string>, n: Norm, c: string)
    requires forall k | 0 <= k < |n.stack| :: n.stack[k] != "."
    requires n.rooted ==> dir == []
    ensures Walk(dir, Push(n, c).stack) == WalkStep(Walk(dir, n.stack), c)
  {
    if c == ".." && CanPop(n) {
      var last := |n.stack| - 1;
      assert n.stack == n.stack[..last] + [n.stack[last]];
      WalkConcat(dir, n.stack[..last], [n.stack[last]]);
      WalkOne(Walk(dir, n.stack[..last]), n.stack[last]);
    } else if c != "." {
      WalkConcat(dir, n.stack, [c]);
      WalkOne(Walk(dir, n.stack), c);
    }
  }

  lemma WalkOne(dir: seq<string>, c: string)
    ensures Walk(dir, [c]) == WalkStep(dir, c)
  {
    assert [c][1..] == [];
  }

  lemma {:induction false} WalkFold(dir: seq<string>, n: Norm, comps: seq<string>)
    requires forall k | 0 <= k < |n.stack| :: n.stack[k] != "."
    requires n.rooted ==> dir == []
    ensures Walk(dir, Fold(n, comps).stack) == Walk(Walk(dir, n.stack), comps)
    decreases |comps|
  {
    if comps != [] {
      WalkPush(dir, n, comps[0]);
      WalkFold(dir, Push(n, comps[0]), comps[1..]);
    }
  }

  /** Normalising a relative path keeps its meaning, from whatever directory it is followed. */
  lemma NormalizeKeepsMeaning(path: string, dir: seq<string>)
    requires !IsAbs(path)
    ensures Walk(dir, Components(Render(Normalize(path)), 0)) == Walk(dir, Components(path, 0))
  {
    RelativeIsNormal(path);
    JoinedRelative(Normalize(path).stack);
    ComponentsOfJoined(Normalize(path).stack);
    WalkFold(dir, Norm(false, []), Components(path, 0));
  }

  // ----- absolute paths -----

  /** Some ".." meets exactly one component: following the path comes back to the root, or to its parent. */
  predicate LosesRoot(n: Norm, comps: seq<string>)
    decreases |comps|
  {
    comps != [] && ((comps[0] == ".." && |n.stack| == 1) || LosesRoot(Push(n, comps[0]), comps[1..]))
  }

  lemma {:induction false} RootKeptIff(n: Norm, comps: seq<string>)
    requires n.rooted
    ensures Fold(n, comps).rooted <==> !LosesRoot(n, comps)
    decreases |comps|
  {
    if comps != [] {
      if comps[0] == ".." && |n.stack| == 1 {
        UnrootedStays(Push(n, comps[0]), comps[1..]);
      } else {
        RootKeptIff(Push(n, comps[0]), comps[1..]);
      }
    }
  }

  lemma {:induction false} UnrootedStays(n: Norm, comps: seq<string>)
    requires !n.rooted
    ensures !Fold(n, comps).rooted
    decreases |comps|
  {
    if comps != [] {
      UnrootedStays(Push(n, comps[0]), comps[1..]);
    }
  }

  /** An absolute path stays absolute exactly if no ".." in it takes away the first component; then the
      normal form names the same place. Otherwise the result is a relative path. */
  lemma AbsoluteKeptIff(path: string)
    requires IsAbs(path)
    ensures Normalize(path).rooted <==> !LosesRoot(Norm(true, []), Components(path, 0))
    ensures Walk([], Normalize(path).stack) == Walk([], Components(path, 0))
  {
    RootKeptIff(Norm(true, []), Components(path, 0));
    WalkFold([], Norm(true, []), Components(path, 0));
  }

  lemma ComponentsExample()
    ensures Components("/a/..", 0) == ["a", ".."]
  {
    ComponentsSep('/', "a/..");
    assert ['/'] + "a/.." == "/a/..";
    ComponentsCons("a", "/..");
    assert "a" + "/.." == "a/..";
    ComponentsSep('/', "..");
    assert ['/'] + ".." == "/..";
    ComponentsCons("..", "");
    assert ".." + "" == "..";
  }

  /** "/a/.." normalises to the empty relative path, not to the root. */
  lemma RootLostExample()
    ensures IsAbs("/a/..") && Render(Normalize("/a/..")) == ""
  {
    ComponentsExample();
    assert ["a", ".."][1..] == [".."] && [".."][1..] == [];
  }
}
