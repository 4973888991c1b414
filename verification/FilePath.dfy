/** Path normalisation in a byte buffer: ycommon/platform/file_path.cpp, lines 17 to 52 and 57 to 148.
    A C string is a string without '\0', followed by one; pointers into it are indexes. */
module FilePath {
  import opened Options
  import opened PathSpec
  import opened RelPathSpec

  // ----- what NormPath computes in a buffer of the given size -----

  /** Whether component c can be appended: with the terminator there must be room for it, and for its
      separator too if more of the path follows. */
  predicate Fits(n: Norm, c: string, more: bool, size: nat) {
    |SlashedPath(n)| + |c| + (if more then 1 else 0) < size
  }

  function NormRun(path: string, i: nat, n: Norm, size: nat): Option<Norm>
    requires i <= |path|
    decreases |path| - i
  {
    if i == |path| then Some(n)
    else if IsSep(path[i]) then NormRun(path, i + 1, n, size)
    else
      var e := ComponentEnd(path, i);
      var c := path[i..e];
      if c == "." || (c == ".." && CanPop(n)) || Fits(n, c, e < |path|, size) then NormRun(path, e, Push(n, c), size)
      else None
  }

  /** If nothing overflows, the result is the normal form. */
  lemma {:induction false} RunNormalizes(path: string, i: nat, n: Norm, size: nat)
    requires i <= |path|
    ensures NormRun(path, i, n, size).Some? ==> NormRun(path, i, n, size).value == Fold(n, Components(path, i))
    decreases |path| - i
  {
    if i < |path| {
      if IsSep(path[i]) {
        RunNormalizes(path, i + 1, n, size);
      } else {
        var e := ComponentEnd(path, i);
        RunNormalizes(path, e, Push(n, path[i..e]), size);
      }
    }
  }

  predicate EndsInSep(path: string) {
    path != "" && IsSep(path[|path| - 1])
  }

  /** After each component the result so far fits in a buffer of the given size, with the separator after it, and with
      a terminator in place of this separator if the path ends there. */
  ghost predicate AllFit(path: string, i: nat, n: Norm, size: nat)
    requires i <= |path|
  {
    forall k | 0 < k <= |Components(path, i)| ::
      |SlashedPath(Fold(n, Components(path, i)[..k]))| < size + if k < |Components(path, i)| || EndsInSep(path) then 0 else 1
  }

  lemma {:induction false} OnlySeparatorsLeft(path: string, i: nat)
    requires i < |path| && Components(path, i) == []
    ensures EndsInSep(path)
    decreases |path| - i
  {
    if i + 1 < |path| {
      OnlySeparatorsLeft(path, i + 1);
    }
  }

  lemma FoldPrefix(n: Norm, c: string, rest: seq<string>, k: nat)
    requires k <= |rest|
    ensures Fold(n, ([c] + rest)[..k + 1]) == Fold(Push(n, c), rest[..k])
  {
    assert ([c] + rest)[..k + 1][1..] == rest[..k];
  }

  /** The first component, and the others. */
  lemma AllFitStep(path: string, i: nat, n: Norm, size: nat)
    requires i < |path| && !IsSep(path[i])
    ensures var e := ComponentEnd(path, i);
            var first := Push(n, path[i..e]);
            AllFit(path, i, n, size) <==>
            |SlashedPath(first)| < size + (if e < |path| then 0 else 1) && AllFit(path, e, first, size)
  {
    var e := ComponentEnd(path, i);
    var c, rest := path[i..e], Components(path, e);
    ComponentsHead(path, i);
    EndLater(path, i);
    if e < |path| && rest == [] {
      OnlySeparatorsLeft(path, e);
    }
    assert (|rest| > 0 || EndsInSep(path)) <==> e < |path|;
    forall k: nat | k <= |rest| ensures Fold(n, Components(path, i)[..k + 1]) == Fold(Push(n, c), rest[..k]) {
      FoldPrefix(n, c, rest, k);
    }
    AllFitShift(path, i, n, size);
  }

  lemma AllFitShift(path: string, i: nat, n: Norm, size: nat)
    requires i < |path| && !IsSep(path[i])
    requires var rest := Components(path, ComponentEnd(path, i));
             && Components(path, i) == [path[i..ComponentEnd(path, i)]] + rest
             && ((|rest| > 0 || EndsInSep(path)) <==> ComponentEnd(path, i) < |path|)
             && forall k: nat | k <= |rest| ::
                  Fold(n, Components(path, i)[..k + 1]) == Fold(Push(n, path[i..ComponentEnd(path, i)]), rest[..k])
    ensures var e := ComponentEnd(path, i);
            var first := Push(n, path[i..e]);
            AllFit(path, i, n, size) <==>
            |SlashedPath(first)| < size + (if e < |path| then 0 else 1) && AllFit(path, e, first, size)
  {
    var e := ComponentEnd(path, i);
    var first := Push(n, path[i..e]);
    var rest := Components(path, e);
    assert Fold(first, rest[..0]) == first;
    if AllFit(path, i, n, size) {
      assert |SlashedPath(Fold(n, Components(path, i)[..0 + 1]))| < size + if e < |path| then 0 else 1;
      forall k | 0 < k <= |rest| ensures |SlashedPath(Fold(first, rest[..k]))| < size + if k < |rest| || EndsInSep(path) then 0 else 1 {
        assert |SlashedPath(Fold(n, Components(path, i)[..k + 1]))| < size + if k < |rest| || EndsInSep(path) then 0 else 1;
      }
    } else {
      var k :| 0 < k <= |rest| + 1
        && !(|SlashedPath(Fold(n, Components(path, i)[..k]))| < size + if k < |rest| + 1 || EndsInSep(path) then 0 else 1);
      assert Fold(n, Components(path, i)[..k - 1 + 1]) == Fold(first, rest[..k - 1]);
    }
  }

  /** A buffer larger than the path is always large enough. */
  lemma {:induction false} RunFits(path: string, i: nat, n: Norm, size: nat)
    requires i <= |path| < size
    requires |SlashedPath(n)| <= i || (i == |path| && |SlashedPath(n)| <= i + 1)
    ensures NormRun(path, i, n, size).Some?
    decreases |path| - i
  {
    if i < |path| {
      if IsSep(path[i]) {
        RunFits(path, i + 1, n, size);
      } else {
        var e := ComponentEnd(path, i);
        PushLength(n, path[i..e]);
        RunFits(path, if e < |path| then e + 1 else e, Push(n, path[i..e]), size);
      }
    }
  }

  lemma RunStep(path: string, i: nat, n: Norm, size: nat)
    requires i < |path| && !IsSep(path[i])
    ensures var e := ComponentEnd(path, i);
            var c := path[i..e];
            NormRun(path, i, n, size) ==
            if c == "." || (c == ".." && CanPop(n)) || Fits(n, c, e < |path|, size) then NormRun(path, e, Push(n, c), size)
            else None
  {
  }

  lemma PushLength(n: Norm, c: string)
    ensures |SlashedPath(Push(n, c))| <= |SlashedPath(n)| + |c| + 1
    ensures c == "." ==> |SlashedPath(Push(n, c))| == |SlashedPath(n)|
    ensures c == ".." && CanPop(n) ==> |SlashedPath(Push(n, c))| <= |SlashedPath(n)|
    ensures c != "." && !(c == ".." && CanPop(n)) ==> SlashedPath(Push(n, c)) == SlashedPath(n) + c + [SEP]
  {
    assert (n.stack + [c])[..|n.stack|] == n.stack;
  }

  lemma PushAppends(n: Norm, c: string)
    requires c != "." && !(c == ".." && CanPop(n)) && AreComponents(n.stack) && IsComponent(c)
    ensures SlashedPath(Push(n, c)) == SlashedPath(n) + c + [SEP]
    ensures AreComponents(Push(n, c).stack) && Push(n, c).rooted == n.rooted
  {
    PushLength(n, c);
  }

  lemma AllFitSkip(path: string, i: nat, n: Norm, size: nat)
    requires i < |path| && IsSep(path[i])
    ensures AllFit(path, i, n, size) <==> AllFit(path, i + 1, n, size)
  {
    assert Components(path, i) == Components(path, i + 1);
  }

  /** The run overflows exactly if some result on the way does not fit. */
  lemma {:induction false} RunFitsIff(path: string, i: nat, n: Norm, size: nat)
    requires i <= |path| && (i < |path| ==> |SlashedPath(n)| < size)
    ensures NormRun(path, i, n, size).Some? <==> AllFit(path, i, n, size)
    decreases |path| - i
  {
    if i < |path| {
      if IsSep(path[i]) {
        AllFitSkip(path, i, n, size);
        RunFitsIff(path, i + 1, n, size);
      } else {
        var e := ComponentEnd(path, i);
        EndLater(path, i);
        RunStep(path, i, n, size);
        AllFitStep(path, i, n, size);
        PushLength(n, path[i..e]);
        if e == |path| || |SlashedPath(Push(n, path[i..e]))| < size {
          RunFitsIff(path, e, Push(n, path[i..e]), size);
        }
      }
    }
  }

  // ----- NormPath -----

  method SkipSeparators(path: string, i: nat, ghost n: Norm, ghost size: nat) returns (p: nat)
    requires i <= |path| && '\0' !in path
    ensures i <= p <= |path| && (p < |path| ==> !IsSep(path[p]))
    ensures NormRun(path, p, n, size) == NormRun(path, i, n, size)
  {
    p := i;
    while IsSep(At(path, p))
      invariant i <= p <= |path|
      invariant NormRun(path, p, n, size) == NormRun(path, i, n, size)
      decreases |path| - p
    {
      p := p + 1;
    }
  }

  /** Where the last component starts, or 0 if it is the first one after the root. */
  function LastStart(n: Norm): nat
    requires n.stack != []
  {
    |SlashedPath(Pop(n))|
  }

  /** What is left of the last component, before the root can go. */
  function Base(n: Norm): string
    requires n.stack != []
  {
    (if n.rooted then [SEP] else "") + Slashed(n.stack[..|n.stack| - 1])
  }

  lemma LastComponent(n: Norm)
    requires n.stack != [] && AreComponents(n.stack)
    ensures var last := n.stack[|n.stack| - 1];
            var base := Base(n);
            && SlashedPath(n) == base + last + [SEP]
            && SlashedPath(Pop(n)) == (if |base| <= 1 then "" else base)
            && |SlashedPath(n)| >= 2 && (|base| == 1 <==> n.rooted && |n.stack| == 1)
            && (|base| >= 1 ==> IsSep(base[|base| - 1]))
  {
    var front := n.stack[..|n.stack| - 1];
    if front != [] {
      assert IsComponent(front[|front| - 1]);
      assert |Slashed(front)| >= 2;
    }
  }

  /** Scanning backwards from the last separator for the one before it. */
  method PreviousStart(dest: array<char>, d: nat, ghost n: Norm) returns (prev: nat)
    requires n.stack != [] && AreComponents(n.stack) && d <= dest.Length && dest[..d] == SlashedPath(n)
    ensures d >= 2 && prev == LastStart(n) && prev + 2 <= d
    ensures CanPop(n) <==> d - prev != 3 || dest[prev] != '.' || dest[prev + 1] != '.'
    ensures dest[..prev] == SlashedPath(Pop(n)) && AreComponents(Pop(n).stack)
  {
    LastComponent(n);
    prev := ScanBack(dest, d, Base(n), n.stack[|n.stack| - 1]);
    WithoutLast(n, prev);
    PoppableShape(n, dest[..d], prev);
    assert dest[..d][prev] == dest[prev] && dest[..d][prev + 1] == dest[prev + 1];
    assert dest[..prev] == dest[..d][..prev];
  }

  lemma WithoutLast(n: Norm, prev: nat)
    requires n.stack != [] && AreComponents(n.stack) && prev == if |Base(n)| <= 1 then 0 else |Base(n)|
    ensures prev == LastStart(n) && prev + 2 <= |SlashedPath(n)| && SlashedPath(n)[..prev] == SlashedPath(Pop(n))
    ensures AreComponents(Pop(n).stack)
  {
    LastComponent(n);
  }

  method ScanBack(dest: array<char>, d: nat, ghost base: string, ghost last: string) returns (prev: nat)
    requires d <= dest.Length && dest[..d] == base + last + [SEP] && IsComponent(last)
    requires base != "" ==> IsSep(base[|base| - 1])
    ensures d >= 2 && prev + 2 <= d && prev == if |base| <= 1 then 0 else |base|
  {
    assert forall k | |base| <= k < d - 1 :: dest[k] == dest[..d][k] == last[k - |base|];
    assert |base| > 0 ==> dest[|base| - 1] == dest[..d][|base| - 1] == base[|base| - 1];
    prev := d - 2;
    while prev != 0 && !IsSep(dest[prev])
      invariant 0 <= prev <= d - 2 && |base| <= prev + 1
    {
      prev := prev - 1;
    }
    if prev != 0 {
      prev := prev + 1;
    }
  }

  /** The test on the characters before the separator recognises exactly a ".." that must stay. */
  lemma PoppableShape(n: Norm, s: string, prev: nat)
    requires n.stack != [] && AreComponents(n.stack) && s == SlashedPath(n) && prev == LastStart(n)
    requires prev + 2 <= |s|
    ensures CanPop(n) <==> |s| - prev != 3 || s[prev] != '.' || s[prev + 1] != '.'
  {
    LastComponent(n);
    var last := n.stack[|n.stack| - 1];
    var base := Base(n);
    if |base| == 1 {
      assert CanPop(n);
      assert prev == 0 && s[0] == base[0] && IsSep(s[0]);
    } else {
      assert prev == |base|;
      IsUp(base, last, s);
    }
  }

  lemma IsUp(base: string, last: string, s: string)
    requires s == base + last + [SEP] && |last| >= 1
    ensures last == ".." <==> |s| - |base| == 3 && s[|base|] == '.' && s[|base| + 1] == '.'
  {
    if |last| == 2 {
      assert s[|base|] == last[0] && s[|base| + 1] == last[1];
      assert last == [last[0], last[1]];
    }
  }

  /** Copies the component that starts at p, if it fits below the last byte. */
  method CopyComponent(path: string, p: nat, dest: array<char>, d: nat) returns (ok: bool, q: nat, d': nat)
    requires p <= |path| && '\0' !in path && d < dest.Length
    modifies dest
    ensures ok <==> d + (ComponentEnd(path, p) - p) < dest.Length
    ensures ok ==> q == ComponentEnd(path, p) && d' == d + (q - p)
    ensures ok ==> dest[..d'] == old(dest[..d]) + path[p..q]
  {
    q, d' := p, d;
    while !IsSep(At(path, q)) && At(path, q) != '\0'
      invariant p <= q <= |path| && d' == d + (q - p) < dest.Length
      invariant ComponentEnd(path, q) == ComponentEnd(path, p)
      invariant dest[..d'] == old(dest[..d]) + path[p..q]
      decreases |path| - q
    {
      if d' == dest.Length - 1 {
        return false, q, d';
      }
      dest[d'] := path[q];
      d', q := d' + 1, q + 1;
    }
    ok := true;
  }

  /** Writes the normal form of the path and returns its length; fails if the buffer is too small. */
  method NormPath(path: string, dest: array<char>) returns (ok: bool, len: nat)
    requires '\0' !in path && dest.Length >= 1 && (IsAbs(path) ==> dest.Length >= 2)
    modifies dest
    ensures ok <==> AllFit(path, 0, Norm(IsAbs(path), []), dest.Length)
    ensures |path| < dest.Length ==> ok
    ensures ok ==> len < dest.Length && dest[..len] == Render(Normalize(path)) && dest[len] == '\0'
  {
    ghost var size := dest.Length;
    ghost var n := Norm(IsAbs(path), []);
    ghost var all := NormRun(path, 0, n, size);
    RunNormalizes(path, 0, n, size);
    RunFitsIff(path, 0, n, size);
    if |path| < size {
      StartFits(path, size);
    }
    var d: nat, p: nat := 0, 0;
    ok := true;
    if IsSep(At(path, p)) {
      dest[d] := SEP;
      d := d + 1;
      p := SkipSeparators(path, p + 1, n, size);
    }
    while At(path, p) != '\0'
      invariant InStep(path, p, dest, d, n)
      invariant NormRun(path, p, n, size) == all
      decreases |path| - p
    {
      p, d, n, ok := NormStep(path, p, dest, d, n);
      if !ok {
        return false, 0;
      }
    }
    len := Terminate(dest, d, n);
    return true, len;
  }

  /** Between two rounds of the main loop: dest[..d] is the normal form of what has been read, and p is
      at a component or at the end. */
  ghost predicate InStep(path: string, p: nat, dest: array<char>, d: nat, n: Norm)
    reads dest
  {
    && p <= |path| && (p < |path| ==> !IsSep(path[p]) && d < dest.Length)
    && d <= dest.Length && dest[..d] == SlashedPath(n)
    && AreComponents(n.stack) && 1 <= dest.Length && (n.rooted ==> 2 <= dest.Length)
  }

  /** One round of the main loop: the component at p is skipped, takes the last one away, or is added. */
  method NormStep(path: string, p: nat, dest: array<char>, d: nat, ghost n: Norm)
      returns (p': nat, d': nat, ghost n': Norm, ok: bool)
    requires '\0' !in path && InStep(path, p, dest, d, n) && p < |path|
    modifies dest
    ensures !ok ==> NormRun(path, p, n, dest.Length) == None
    ensures ok ==> InStep(path, p', dest, d', n') && p < p'
    ensures ok ==> NormRun(path, p', n', dest.Length) == NormRun(path, p, n, dest.Length)
  {
    ghost var size := dest.Length;
    ghost var c := path[p..ComponentEnd(path, p)];
    ComponentShape(path, p);
    RunStep(path, p, n, size);
    p', d', n', ok := p, d, n, true;
    if path[p] == '.' {
      if IsSep(At(path, p + 1)) || At(path, p + 1) == '\0' {
        p' := SkipSeparators(path, p + 1, n, size);
        return;
      }
      if At(path, p + 1) == '.' && (IsSep(At(path, p + 2)) || At(path, p + 2) == '\0') {
        if d >= 2 {
          var prev := PreviousStart(dest, d, n);
          if d - prev != 3 || dest[prev] != '.' || dest[prev + 1] != '.' {
            d', n' := prev, Pop(n);
            p' := SkipSeparators(path, p + 2, n', size);
            return;
          }
        }
      }
    }
    assert c != "." && !(c == ".." && CanPop(n));
    PushAppends(n, c);
    ok, p', d' := AppendComponent(path, p, dest, d, n);
    if ok {
      n' := Push(n, c);
      p' := SkipSeparators(path, p', n', size);
    }
  }

  /** Adds the next directory and its separator. */
  method AppendComponent(path: string, p: nat, dest: array<char>, d: nat, ghost n: Norm) returns (ok: bool, q: nat, d': nat)
    requires p <= |path| && '\0' !in path && d < dest.Length && d == |SlashedPath(n)|
    modifies dest
    ensures ok <==> Fits(n, path[p..ComponentEnd(path, p)], ComponentEnd(path, p) < |path|, dest.Length)
    ensures ok ==> q == ComponentEnd(path, p) && d' <= dest.Length && (q < |path| ==> d' < dest.Length)
    ensures ok ==> dest[..d'] == old(dest[..d]) + path[p..q] + [SEP]
  {
    ok, q, d' := CopyComponent(path, p, dest, d);
    if !ok {
      return;
    }
    if d' == dest.Length - 1 && At(path, q) != '\0' {
      return false, q, d';
    }
    dest[d'] := SEP;
    d' := d' + 1;
  }

  /** Drops the separator at the end, unless it is all there is, and ends the string. */
  method Terminate(dest: array<char>, d: nat, ghost n: Norm) returns (len: nat)
    requires d <= dest.Length && dest[..d] == SlashedPath(n) && AreComponents(n.stack)
    requires 1 <= dest.Length && (n.rooted ==> 2 <= dest.Length)
    modifies dest
    ensures len < dest.Length && dest[..len] == Render(n) && dest[len] == '\0'
  {
    len := d;
    SlashedEnd(n);
    assert d > 0 ==> dest[d - 1] == dest[..d][d - 1];
    if len > 1 && IsSep(dest[len - 1]) {
      len := len - 1;
    }
    dest[len] := '\0';
  }

  lemma SlashedEnd(n: Norm)
    requires AreComponents(n.stack)
    ensures var s := SlashedPath(n);
            (|s| > 1 ==> s[|s| - 1] == SEP) && (|s| == 1 ==> n.rooted)
  {
    if n.stack != [] {
      LastComponent(n);
    }
  }

  lemma StartFits(path: string, size: nat)
    requires |path| < size
    ensures NormRun(path, 0, Norm(IsAbs(path), []), size).Some?
  {
    if IsAbs(path) {
      RunFits(path, 1, Norm(true, []), size);
    } else {
      RunFits(path, 0, Norm(false, []), size);
    }
  }

  /** The component at p is "." or ".." exactly if its first characters and what follows say so. */
  lemma ComponentShape(path: string, p: nat)
    requires p < |path| && !IsSep(path[p]) && '\0' !in path
    ensures var c := path[p..ComponentEnd(path, p)];
            && IsComponent(c)
            && (c == "." <==> path[p] == '.' && (IsSep(At(path, p + 1)) || At(path, p + 1) == '\0'))
            && (c == "." ==> ComponentEnd(path, p) == p + 1)
            && (c == ".." ==> ComponentEnd(path, p) == p + 2)
            && (c == ".." <==> path[p] == '.' && At(path, p + 1) == '.' && p + 2 <= |path|
                               && (IsSep(At(path, p + 2)) || At(path, p + 2) == '\0'))
  {
    var e := ComponentEnd(path, p);
    var c := path[p..e];
    EndLater(path, p);
    EndAt(path, p, e);
    assert c[0] == path[p];
    if e == p + 1 {
      assert c == [path[p]];
    } else {
      EndAt(path, p, p + 1);
      assert c[1] == path[p + 1];
      if e == p + 2 {
        assert c == [path[p], path[p + 1]];
      } else {
        EndAt(path, p, p + 2);
      }
    }
  }

  /** Within the component and at its end, only the end reads as a separator or a terminator. */
  lemma EndAt(path: string, p: nat, k: nat)
    requires p <= |path| && p <= k <= ComponentEnd(path, p) && '\0' !in path
    ensures IsSep(At(path, k)) || At(path, k) == '\0' <==> k == ComponentEnd(path, p)
  {
    assert k < |path| ==> path[k] in path;
  }

  // ----- JoinPaths -----

  /** The source's two further tests, before copying dir and before the separator, never fail. */
  method JoinPaths(dir: string, path: string, dest: array<char>) returns (ok: bool, len: nat)
    requires '\0' !in dir && '\0' !in path
    modifies dest
    ensures ok <==> |JoinString(dir, path)| < dest.Length
    ensures ok ==> len == |JoinString(dir, path)| && dest[..len] == JoinString(dir, path) && dest[len] == '\0'
  {
    var d: nat := 0;
    if IsSep(At(path, 0)) {
      if dest.Length <= |path| {
        return false, 0;
      }
      d := CopyString(path, dest, d);
    } else {
      if dest.Length <= |dir| {
        return false, 0;
      }
      d := CopyString(dir, dest, d);
      if |dir| > 0 && !IsSep(dir[|dir| - 1]) {
        dest[d] := SEP;
        d := d + 1;
      }
      if d + (|path| + 1) > dest.Length {
        return false, 0;
      }
      d := CopyString(path, dest, d);
    }
    dest[d] := '\0';
    return true, d;
  }

  method CopyString(s: string, dest: array<char>, d: nat) returns (d': nat)
    requires d + |s| <= dest.Length
    modifies dest
    ensures d' == d + |s| && dest[..d'] == old(dest[..d]) + s
  {
    for i := 0 to |s|
      invariant dest[..d + i] == old(dest[..d]) + s[..i]
    {
      dest[d + i] := s[i];
    }
    d' := d + |s|;
  }
}
