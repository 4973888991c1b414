/** Relative paths in byte buffers: ycommon/platform/file_path.cpp, lines 181 to 279. */
module RelPath {
  import opened PathSpec
  import opened RelPathSpec
  import opened RelPathMatch
  import FilePath

  const BUFFER: nat := 256

  /** How many ".." are written when the directory has the given text left after the match. */
  function UpCount(dir: string, j: nat): nat
    requires j <= |dir|
  {
    if j == |dir| then 0
    else SepCount(dir[j..]) + if dir[|dir| - 1] != SEP then 1 else 0
  }

  /** Whether k times ".." and a rest of the given length fit in a buffer of the given size: one more byte
      must stay free after every "..". */
  predicate RelFits(k: nat, rest: nat, size: nat) {
    (k > 0 ==> 3 * k + 1 < size) && 3 * k + rest < size
  }

  /** path[..pathLen] and dir[..dirLen] are C strings in normal form. */
  ghost predicate Terminated(buffer: array<char>, len: nat)
    reads buffer
  {
    len < buffer.Length && '\0' !in buffer[..len] && buffer[len] == '\0'
  }

  lemma ReadAt(buffer: array<char>, len: nat, t: nat)
    requires Terminated(buffer, len) && t <= len
    ensures buffer[t] == At(buffer[..len], t)
    ensures buffer[t] == '\0' <==> t == len
  {
    assert t < len ==> buffer[..len][t] == buffer[t] && buffer[t] in buffer[..len];
  }

  method SkipMatching(path: array<char>, pathLen: nat, dir: array<char>, dirLen: nat) returns (pathIter: nat, dirIter: nat)
    requires Terminated(path, pathLen) && Terminated(dir, dirLen)
    ensures (pathIter, dirIter) == Match(path[..pathLen], dir[..dirLen], 0, 0, 0)
    ensures pathIter <= pathLen && dirIter <= dirLen
  {
    pathIter, dirIter := 0, 0;
    var t: nat := 0;
    ReadAt(path, pathLen, t);
    ReadAt(dir, dirLen, t);
    while path[t] == dir[t]
      invariant t <= pathLen && t <= dirLen && pathIter <= t && dirIter <= t
      invariant path[t] == At(path[..pathLen], t) && dir[t] == At(dir[..dirLen], t)
      invariant path[t] == '\0' <==> t == pathLen
      invariant dir[t] == '\0' <==> t == dirLen
      invariant Match(path[..pathLen], dir[..dirLen], t, pathIter, dirIter) == Match(path[..pathLen], dir[..dirLen], 0, 0, 0)
      decreases pathLen - t
    {
      if IsSep(path[t]) {
        pathIter, dirIter := t + 1, t + 1;
      } else if path[t] == '\0' {
        pathIter, dirIter := t, t;
        break;
      }
      t := t + 1;
      ReadAt(path, pathLen, t);
      ReadAt(dir, dirLen, t);
    }
    if dir[t] == '\0' {
      if IsSep(path[t]) {
        dirIter := t;
        pathIter := t + 1;
      }
    } else if path[t] == '\0' {
      if IsSep(dir[t]) {
        pathIter := t;
        dirIter := t + 1;
      }
    }
  }

  /** Writes one "..", if it fits with a byte to spare. */
  method WriteUp(dest: array<char>, d: nat) returns (ok: bool)
    modifies dest
    ensures ok <==> d + 3 < dest.Length - 1
    ensures ok ==> dest[..d + 3] == old(dest[..d]) + ['.', '.', SEP]
  {
    if d + 3 >= dest.Length - 1 {
      return false;
    }
    dest[d] := '.';
    dest[d + 1] := '.';
    dest[d + 2] := SEP;
    return true;
  }

  lemma {:induction false} UpStringSnoc(k: nat)
    ensures UpString(k + 1) == UpString(k) + ['.', '.', SEP]
    ensures |UpString(k)| == 3 * k
  {
    if k > 0 {
      UpStringSnoc(k - 1);
    }
  }

  lemma SepCountNext(buffer: array<char>, i: nat, len: nat)
    requires i < len <= buffer.Length
    ensures SepCount(buffer[i..len]) == (if IsSep(buffer[i]) then 1 else 0) + SepCount(buffer[i + 1..len])
  {
    assert buffer[i..len][1..] == buffer[i + 1..len];
  }

  /** One ".." for every directory left. */
  method WriteUps(dir: array<char>, dirLen: nat, dirIter: nat, dest: array<char>) returns (ok: bool, d: nat)
    requires Terminated(dir, dirLen) && dirIter <= dirLen && dest != dir && dest.Length >= 1
    modifies dest
    ensures var k := UpCount(dir[..dirLen], dirIter);
            && (ok <==> (k > 0 ==> 3 * k + 1 < dest.Length))
            && (ok ==> d == 3 * k <= dest.Length && dest[..d] == UpString(k))
  {
    d := 0;
    ok := true;
    ReadAt(dir, dirLen, dirIter);
    if dir[dirIter] != '\0' {
      var i := dirIter;
      ghost var k := 0;
      while dir[i] != '\0'
        invariant dirIter <= i <= dirLen && (dir[i] == '\0' <==> i == dirLen)
        invariant k + SepCount(dir[i..dirLen]) == SepCount(dir[dirIter..dirLen])
        invariant d == 3 * k && (k > 0 ==> 3 * k + 1 < dest.Length) && dest[..d] == UpString(k)
        decreases dirLen - i
      {
        SepCountNext(dir, i, dirLen);
        if IsSep(dir[i]) {
          ok := WriteUp(dest, d);
          if !ok {
            return;
          }
          UpStringSnoc(k);
          d, k := d + 3, k + 1;
        }
        i := i + 1;
        ReadAt(dir, dirLen, i);
      }
      assert dir[dirIter..dirLen] == dir[..dirLen][dirIter..];
      if dirLen > 0 && dir[dirLen - 1] != SEP {
        ok := WriteUp(dest, d);
        if !ok {
          return;
        }
        UpStringSnoc(k);
        d := d + 3;
      }
    }
  }

  /** Writes the path from dir to `path`. For relative paths that is the way up from the last common directory
      and down again. */
  method RelPath(path: string, dir: string, dest: array<char>) returns (ok: bool, len: nat)
    requires '\0' !in path && '\0' !in dir && dest.Length >= 1
    modifies dest
    ensures ok ==> len < dest.Length && dest[..len] == RelText(path, dir) && dest[len] == '\0'
    ensures ok <==> Normalizes(path) && Normalizes(dir) && TextFits(RelText(path, dir), dest.Length)
    ensures |path| < 256 && |dir| < 256 && |RelText(path, dir)| + 1 < dest.Length ==> ok
  {
    var normalizedPath := new char[BUFFER];
    var normalizedDir := new char[BUFFER];
    NormalizeNulFree(path);
    NormalizeNulFree(dir);
    var pathLen, dirLen;
    ok, pathLen := FilePath.NormPath(path, normalizedPath);
    if !ok {
      return false, 0;
    }
    ok, dirLen := FilePath.NormPath(dir, normalizedDir);
    if !ok {
      return false, 0;
    }
    var pathIter, dirIter := SkipMatching(normalizedPath, pathLen, normalizedDir, dirLen);
    TextAtMatch(path, dir, pathIter, dirIter, dest.Length);
    var d;
    ok, d := WriteUps(normalizedDir, dirLen, dirIter, dest);
    if !ok {
      return false, 0;
    }
    var pathLeft := pathLen - pathIter;
    if d + pathLeft > dest.Length - 1 {
      return false, 0;
    }
    ghost var rest := normalizedPath[..pathLen][pathIter..];
    d := CopyRest(normalizedPath, pathIter, pathLen, dest, d);
    assert dest[..d] == UpString(UpCount(normalizedDir[..dirLen], dirIter)) + rest;
    dest[d] := '\0';
    return true, d;
  }

  method CopyRest(src: array<char>, from: nat, to: nat, dest: array<char>, d: nat) returns (d': nat)
    requires from <= to <= src.Length && d + (to - from) <= dest.Length && src != dest
    modifies dest
    ensures d' == d + (to - from) && dest[..d'] == old(dest[..d]) + src[..to][from..]
  {
    for i := from to to
      invariant dest[..d + (i - from)] == old(dest[..d]) + src[..i][from..]
    {
      dest[d + (i - from)] := src[i];
    }
    d' := d + (to - from);
  }

  /** The path is normalised within the internal buffer. */
  ghost predicate Normalizes(path: string) {
    FilePath.AllFit(path, 0, Norm(IsAbs(path), []), BUFFER)
  }

  /** The text of the relative path. */
  function RelText(path: string, dir: string): string {
    var (p, d) := (Render(Normalize(path)), Render(Normalize(dir)));
    var (i, j) := Match(p, d, 0, 0, 0);
    if i <= |p| && j <= |d| then UpString(UpCount(d, j)) + p[i..] else ""
  }

  /** The text ends in "..", with a separator. */
  predicate EndsInUp(text: string) {
    |text| >= 3 && text[|text| - 3] == '.' && text[|text| - 2] == '.' && text[|text| - 1] == SEP
  }

  /** The text fits a buffer of the given size together with its terminator, and with one more byte if nothing follows
      the last "..". */
  predicate TextFits(text: string, size: nat) {
    |text| < size && (EndsInUp(text) ==> |text| + 1 < size)
  }

  /** The two tests of the source come to this. */
  lemma RelFitsIff(k: nat, rest: string, size: nat)
    requires rest == "" || !IsSep(rest[|rest| - 1]) || rest == [SEP]
    ensures RelFits(k, |rest|, size) <==> TextFits(UpString(k) + rest, size)
  {
    UpStringSnoc(k);
    var text := UpString(k) + rest;
    if k > 0 {
      UpStringSnoc(k - 1);
    }
    if rest == "" {
      assert text == UpString(k);
    } else {
      assert text[|text| - 1] == rest[|rest| - 1];
      assert rest == [SEP] && k > 0 ==> text[|text| - 2] == UpString(k)[3 * k - 1];
    }
  }

  /** Where the match has stopped at these positions. */
  lemma TextAtMatch(path: string, dir: string, i: nat, j: nat, size: nat)
    requires '\0' !in path && i <= |Render(Normalize(path))| && j <= |Render(Normalize(dir))|
    requires Match(Render(Normalize(path)), Render(Normalize(dir)), 0, 0, 0) == (i, j)
    ensures var k := UpCount(Render(Normalize(dir)), j);
            && RelText(path, dir) == UpString(k) + Render(Normalize(path))[i..]
            && (TextFits(RelText(path, dir), size) <==> RelFits(k, |Render(Normalize(path))| - i, size))
  {
    RestOfRender(path, i);
    RelFitsIff(UpCount(Render(Normalize(dir)), j), Render(Normalize(path))[i..], size);
  }

  /** A rendered normal form, or the rest of one, ends in no separator unless it is the root. */
  lemma RestOfRender(path: string, i: nat)
    requires '\0' !in path && i <= |Render(Normalize(path))|
    ensures var rest := Render(Normalize(path))[i..]; rest == "" || !IsSep(rest[|rest| - 1]) || rest == [SEP]
  {
    var n := Normalize(path);
    NormalizedParts(path);
    if n.stack != [] {
      LastCharacter(n.stack);
    }
  }

  /** The text is that of the way from one normal form to the other, for every mix of roots. */
  lemma RelTextIsRelative(path: string, dir: string)
    requires '\0' !in path && '\0' !in dir
    ensures RelText(path, dir) == RelativeText(Normalize(path), Normalize(dir))
  {
    var p, d := Normalize(path), Normalize(dir);
    NormalizedParts(path);
    NormalizedParts(dir);
    if p.rooted && d.rooted {
      TextOfRooted(p.stack, d.stack);
    } else if p.rooted {
      TextFromUnrooted(p.stack, d.stack);
    } else if d.rooted {
      TextFromRooted(p.stack, d.stack);
    } else {
      TextOfComponents(p.stack, d.stack);
    }
    TextIsRelText(path, dir, RelativeText(p, d));
  }

  /** What RelPath writes, joined to dir, normalises to the normal form of `path` if and only if LeadsBack says so:
      both normal forms are relative and that of dir has no ".." beyond the part they have in common; or both
      are rooted and they have a component in common, or dir is the root; or dir is rooted and not the root,
      and `path` has no components. */
  lemma RelPathRoundTrip(path: string, dir: string)
    requires '\0' !in path && '\0' !in dir
    ensures Render(Normalize(JoinString(dir, RelText(path, dir)))) == Render(Normalize(path)) <==>
            LeadsBack(Normalize(path), Normalize(dir))
  {
    RelTextIsRelative(path, dir);
    JoinRelativeRoundTrip(path, dir);
  }

  /** The round trip fails between two rooted directories: the text of the path from "/a" to "/b" leads to "b". */
  lemma RoundTripFailsAcrossRoot()
    ensures RelText("/b", "/a") == ['.', '.', SEP] + "b"
    ensures Render(Normalize(JoinString("/a", RelText("/b", "/a")))) == "b"
    ensures Render(Normalize("/b")) == [SEP] + "b"
  {
    AcrossRootNorms();
    RelTextIsRelative("/b", "/a");
    AcrossRootText();
    AcrossRootJoined();
    JoinedRelative(["b"]);
    RenderRooted(["b"]);
  }

  lemma AcrossRootNorms()
    ensures Normalize("/a") == Norm(true, ["a"]) && Normalize("/b") == Norm(true, ["b"])
  {
    RootedComponent("a");
    RootedComponent("b");
    assert ['/'] + "a" == "/a" && ['/'] + "b" == "/b";
  }

  lemma AcrossRootJoined()
    ensures Normalize(JoinString("/a", ['.', '.', SEP] + "b")) == Norm(false, ["b"])
  {
    AcrossRootNorms();
    AcrossRootText();
    NormalizeJoined("/a", ['.', '.', SEP] + "b");
    AcrossRootFold();
  }

  lemma AcrossRootText()
    ensures RelativeText(Norm(true, ["b"]), Norm(true, ["a"])) == ['.', '.', SEP] + "b"
    ensures Components(['.', '.', SEP] + "b", 0) == ["..", "b"]
    ensures !IsAbs(['.', '.', SEP] + "b")
  {
    assert Common(["b"], ["a"]) == 0 && ["b"][0..] == ["b"];
    assert UpString(1) == ['.', '.', SEP] + UpString(0);
    ComponentsOfText(Norm(true, ["b"]), Norm(true, ["a"]));
    assert Ups(1) + ["b"] == ["..", "b"];
  }

  lemma AcrossRootFold()
    ensures Fold(Norm(true, ["a"]), ["..", "b"]) == Norm(false, ["b"])
  {
    assert ["..", "b"][1..] == ["b"] && ["b"][1..] == [];
    assert Push(Norm(true, ["a"]), "..") == Norm(false, []);
    assert Push(Norm(false, []), "b") == Norm(false, ["b"]);
  }

  /** An absolute path of one component. */
  lemma RootedComponent(c: string)
    requires IsComponent(c) && c != "." && c != ".."
    ensures Normalize(['/'] + c) == Norm(true, [c])
  {
    OneComponent(c);
    ComponentsSep('/', c);
    assert Push(Norm(true, []), c) == Norm(true, [c]) && [c][1..] == [];
    assert Fold(Norm(true, []), [c]) == Fold(Norm(true, [c]), [c][1..]);
  }

  /** The round trip fails from "..": the text of the path to "a" leads to "../../a". */
  lemma RoundTripFailsFromDotDot()
    ensures RelText("a", "..") == ['.', '.', SEP] + "a"
    ensures Render(Normalize(JoinString("..", RelText("a", "..")))) == ['.', '.', SEP, '.', '.', SEP] + "a"
    ensures Render(Normalize("a")) == "a"
  {
    TextExample();
    JoinedTextExample();
    RenderExample();
  }

  lemma TextExample()
    ensures RelText("a", "..") == ['.', '.', SEP] + "a"
  {
    OneComponent("a");
    OneComponent("..");
    RelTextIsRelative("a", "..");
    RelativeStringExample();
  }

  lemma JoinedTextExample()
    ensures Normalize(JoinString("..", ['.', '.', SEP] + "a")) == Norm(false, ["..", "..", "a"])
  {
    var text := ['.', '.', SEP] + "a";
    SplitTextExample();
    OneComponent("..");
    ComponentsOfJoin("..", text);
    assert [".."] + ["..", "a"] == ["..", "..", "a"];
    assert !IsAbs(JoinString("..", text));
    FoldExample();
  }

  lemma SplitTextExample()
    ensures Components(['.', '.', SEP] + "a", 0) == ["..", "a"]
  {
    OneComponent("a");
    assert ['.', '.', SEP] + "a" == ".." + ([SEP] + "a");
    ComponentsCons("..", [SEP] + "a");
    ComponentsSep(SEP, "a");
    assert [".."] + ["a"] == ["..", "a"];
  }

  lemma FoldExample()
    ensures Fold(Norm(false, []), ["..", "..", "a"]) == Norm(false, ["..", "..", "a"])
  {
    var n := Norm(false, ["..", "..", "a"]);
    FoldNormalForm(n, 0);
    assert n.stack[..0] == [] && n.stack[0..] == n.stack;
  }

  lemma RenderExample()
    ensures Render(Norm(false, ["..", "..", "a"])) == ['.', '.', SEP, '.', '.', SEP] + "a"
    ensures Render(Normalize("a")) == "a"
  {
    JoinedRelative(["..", "..", "a"]);
    JoinedExample();
    OneComponent("a");
    JoinedRelative(["a"]);
  }

  /** A path of one component. */
  lemma OneComponent(c: string)
    requires IsComponent(c) && c != "."
    ensures !IsAbs(c) && Components(c, 0) == [c] && Normalize(c) == Norm(false, [c])
  {
    ComponentsCons(c, "");
    assert c + "" == c && [c][1..] == [];
    assert Push(Norm(false, []), c) == Norm(false, [c]);
    assert Fold(Norm(false, []), [c]) == Fold(Norm(false, [c]), [c][1..]);
  }

  lemma RelativeStringExample()
    ensures RelativeString(["a"], [".."]) == ['.', '.', SEP] + "a"
  {
    assert UpString(1) == ['.', '.', SEP] + UpString(0);
    assert Common(["a"], [".."]) == 0 && ["a"][0..] == ["a"];
  }

  lemma JoinedExample()
    ensures Joined(["..", "..", "a"]) == ['.', '.', SEP, '.', '.', SEP] + "a"
  {
    assert ["..", "..", "a"][1..] == ["..", "a"] && ["..", "a"][1..] == ["a"];
    assert Joined(["..", "a"]) == ".." + [SEP] + "a";
  }

  lemma NormalizedParts(path: string)
    requires '\0' !in path
    ensures var n := Normalize(path);
            && AreComponents(n.stack) && NulFree(n.stack)
            && Render(n) == if n.rooted then [SEP] + Joined(n.stack) else Joined(n.stack)
  {
    NormalizeIsNormal(path);
    NormalizeNulFree(path);
    if Normalize(path).rooted {
      RenderRooted(Normalize(path).stack);
    } else {
      JoinedRelative(Normalize(path).stack);
    }
  }

  /** The text for two normal forms that are rendered as these strings. */
  ghost predicate TextIs(p: string, d: string, text: string) {
    var (i, j) := Match(p, d, 0, 0, 0);
    i <= |p| && j <= |d| && UpString(UpCount(d, j)) + p[i..] == text
  }

  lemma TextIsRelText(path: string, dir: string, text: string)
    requires TextIs(Render(Normalize(path)), Render(Normalize(dir)), text)
    ensures RelText(path, dir) == text
  {
  }

  /** Below the root the match goes on as for the components alone. */
  lemma RootedBothMatch(p: string, d: string)
    ensures Match([SEP] + p, [SEP] + d, 0, 0, 0) == (1 + Match(p, d, 0, 0, 0).0, 1 + Match(p, d, 0, 0, 0).1)
  {
    MatchShift([SEP], p, d, 0, 0, 0);
    assert ([SEP] + p)[0] == SEP == ([SEP] + d)[0];
  }

  lemma TextOfRooted(p: seq<string>, d: seq<string>)
    requires AreComponents(p) && AreComponents(d) && NulFree(p) && NulFree(d)
    ensures TextIs([SEP] + Joined(p), [SEP] + Joined(d), RelativeString(p, d))
  {
    var m := Match(Joined(p), Joined(d), 0, 0, 0);
    MatchIsCommon(p, d);
    TextOfRest(p, d, m.0, m.1);
    RootedBothMatch(Joined(p), Joined(d));
    SuffixOf([SEP], Joined(p), m.0);
    UpCountShift(Joined(d), m.1);
  }

  lemma UpCountShift(d: string, j: nat)
    requires j <= |d|
    ensures UpCount([SEP] + d, 1 + j) == UpCount(d, j)
  {
    SuffixOf([SEP], d, j);
  }

  /** If only one of them is rooted the match stops at its leading separator. */
  lemma TextFromUnrooted(p: seq<string>, d: seq<string>)
    requires AreComponents(p) && AreComponents(d) && NulFree(d)
    ensures TextIs([SEP] + Joined(p), Joined(d), RelativeText(Norm(true, p), Norm(false, d)))
  {
    UnrootedMatch([SEP] + Joined(p), d);
    assert Joined(d)[0..] == Joined(d) && d[0..] == d;
    UpCountIsLeft(d, 0, 0);
    if d == [] {
      SuffixOf([SEP], Joined(p), 0);
    } else {
      assert ([SEP] + Joined(p))[0..] == [SEP] + Joined(p);
    }
  }

  lemma UnrootedMatch(path: string, d: seq<string>)
    requires AreComponents(d) && NulFree(d) && path != "" && path[0] == SEP
    ensures Match(path, Joined(d), 0, 0, 0) == (if d == [] then (1, 0) else (0, 0))
  {
    FirstCharacter(d);
  }

  lemma TextFromRooted(p: seq<string>, d: seq<string>)
    requires AreComponents(p) && AreComponents(d) && NulFree(p)
    ensures TextIs(Joined(p), [SEP] + Joined(d), RelativeText(Norm(false, p), Norm(true, d)))
  {
    RootedMatch(p, [SEP] + Joined(d));
    assert Joined(p)[0..] == Joined(p) && Joined(d)[0..] == Joined(d) && d[0..] == d;
    if p == [] {
      UpCountIsLeft(d, 0, 0);
      UpCountShift(Joined(d), 0);
    } else {
      RootCounts(d);
    }
  }

  lemma RootedMatch(p: seq<string>, dir: string)
    requires AreComponents(p) && NulFree(p) && dir != "" && dir[0] == SEP
    ensures Match(Joined(p), dir, 0, 0, 0) == (if p == [] then (0, 1) else (0, 0))
  {
    FirstCharacter(p);
  }

  /** The leading separator of a rooted directory counts as one more directory. */
  lemma RootCounts(d: seq<string>)
    requires AreComponents(d)
    ensures UpCount([SEP] + Joined(d), 0) == |d| + 1
  {
    var sd := [SEP] + Joined(d);
    assert sd[0..] == sd && sd[1..] == Joined(d);
    assert SepCount(sd) == 1 + SepCount(Joined(d));
    if d != [] {
      JoinedSepCount(d);
      LastCharacter(d);
      assert sd[|sd| - 1] == Joined(d)[|Joined(d)| - 1];
    }
  }

  lemma TextOfComponents(p: seq<string>, d: seq<string>)
    requires AreComponents(p) && AreComponents(d) && NulFree(p) && NulFree(d)
    ensures TextIs(Joined(p), Joined(d), RelativeString(p, d))
  {
    var m := Match(Joined(p), Joined(d), 0, 0, 0);
    MatchIsCommon(p, d);
    TextOfRest(p, d, m.0, m.1);
  }

  lemma TextOfRest(p: seq<string>, d: seq<string>, i: nat, j: nat)
    requires AreComponents(d) && LeavesRest(p, d, i, j)
    ensures UpString(UpCount(Joined(d), j)) + Joined(p)[i..] == RelativeString(p, d)
  {
    UpCountIsLeft(d, Common(p, d), j);
  }

  lemma UpCountIsLeft(d: seq<string>, l: nat, j: nat)
    requires AreComponents(d) && l <= |d| && j <= |Joined(d)| && Joined(d)[j..] == Joined(d[l..])
    ensures UpCount(Joined(d), j) == |d| - l
  {
    var rest := d[l..];
    JoinedRelative(rest);
    if rest != [] {
      JoinedSepCount(rest);
      LastCharacter(d);
    }
  }
}
