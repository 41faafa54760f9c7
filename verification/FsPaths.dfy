/** What paths mean: the components between slashes, which normalizing keeps, and one step
    per component. */
module FsPaths {
  import opened FsExtents
  import opened FsTree
  import opened FsNames

  // -------------------------------------------------------------------- components

  /** Components with slashes between them. */
  ghost function Slashed(comps: seq<string>): string
    requires comps != []
  {
    if |comps| == 1 then comps[0] else comps[0] + ['/'] + Slashed(comps[1..])
  }

  ghost predicate NoSlash(s: string) {
    forall i :: 0 <= i < |s| ==> s[i] != '/'
  }

  /** The components of a path have no slashes, and with slashes between them are the path. */
  lemma {:induction false} SplitMeans(s: string, acc: string)
    requires NoSlash(acc)
    ensures var cs := SplitFrom(s, acc); cs != [] && Slashed(cs) == acc + s && forall c :: c in cs ==> NoSlash(c)
    decreases |s|
  {
    if s == [] {
      assert acc + s == acc;
    } else if s[0] == '/' {
      var rest := SplitFrom(s[1..], []);
      SplitMeans(s[1..], []);
      assert ([acc] + rest)[1..] == rest;
      assert [] + s[1..] == s[1..] && acc + ['/'] + s[1..] == acc + s;
    } else {
      SplitMeans(s[1..], acc + [s[0]]);
      assert acc + [s[0]] + s[1..] == acc + s;
    }
  }

  // ------------------------------------------------------------------- normalizing

  /** The part of a path behind its last slash, which a longer path could continue. */
  ghost function Open(s: string): string {
    if s == [] || s[|s| - 1] == '/' then [] else Open(s[..|s| - 1]) + [s[|s| - 1]]
  }

  /** The names of a path that a slash ends. */
  ghost function Closed(s: string): seq<string> {
    if s == [] then []
    else if s[|s| - 1] == '/' then Closed(s[..|s| - 1]) + Proper(Open(s[..|s| - 1]))
    else Closed(s[..|s| - 1])
  }

  /** A component counts as a name unless it is empty. */
  ghost function Proper(comp: string): seq<string> {
    if comp == [] then [] else [comp]
  }

  /** The names of a path. */
  ghost function Names(s: string): seq<string> {
    Closed(s) + Proper(Open(s))
  }

  lemma OpenOn(s: string, c: char)
    ensures Open(s + [c]) == if c == '/' then [] else Open(s) + [c]
    ensures Closed(s + [c]) == if c == '/' then Closed(s) + Proper(Open(s)) else Closed(s)
  {
    assert (s + [c])[..|s|] == s;
  }

  ghost function AllProper(comps: seq<string>): seq<string> {
    if comps == [] then [] else Proper(comps[0]) + AllProper(comps[1..])
  }

  lemma AllProperFirst(c: string, cs: seq<string>)
    ensures AllProper([c] + cs) == Proper(c) + AllProper(cs)
  {
    assert ([c] + cs)[1..] == cs;
  }

  lemma Regroup(x: seq<string>, y: seq<string>, z: seq<string>)
    ensures (x + y) + z == x + (y + z)
  {
  }

  lemma Appended(a: string, z: string)
    ensures z == [] ==> a + z == a
    ensures z != [] ==> a + [z[0]] + z[1..] == a + z
  {
  }

  lemma NamesEnd(done: string)
    ensures Names(done) == Closed(done) + AllProper(SplitFrom([], Open(done)))
  {
    AllProperFirst(Open(done), []);
    assert [Open(done)] + [] == [Open(done)];
  }

  lemma NamesSlash(done: string, rest: string)
    ensures Closed(done + ['/']) + AllProper(SplitFrom(rest, Open(done + ['/'])))
         == Closed(done) + (Proper(Open(done)) + AllProper(SplitFrom(rest, [])))
  {
    OpenOn(done, '/');
    Regroup(Closed(done), Proper(Open(done)), AllProper(SplitFrom(rest, [])));
  }

  lemma {:induction false} NamesOn(done: string, s: string)
    ensures Names(done + s) == Closed(done) + AllProper(SplitFrom(s, Open(done)))
    decreases |s|
  {
    Appended(done, s);
    if s == [] {
      NamesEnd(done);
    } else {
      NamesOn(done + [s[0]], s[1..]);
      if s[0] == '/' {
        NamesSlash(done, s[1..]);
        AllProperFirst(Open(done), SplitFrom(s[1..], []));
      } else {
        OpenOn(done, s[0]);
      }
    }
  }

  /** The names of a path are its components but for the empty ones. */
  lemma NamesMeans(s: string)
    ensures Names(s) == AllProper(Split(s))
  {
    NamesOn([], s);
    assert [] + s == s;
  }

  /** Beginnings that read the same do so with the same end. */
  lemma {:induction false} SameTail(a: string, b: string, z: string)
    requires Open(a) == Open(b) && Closed(a) == Closed(b)
    ensures Open(a + z) == Open(b + z) && Closed(a + z) == Closed(b + z)
    decreases |z|
  {
    Appended(a, z);
    Appended(b, z);
    if z == [] {
    } else {
      OpenOn(a, z[0]);
      OpenOn(b, z[0]);
      SameTail(a + [z[0]], b + [z[0]], z[1..]);
    }
  }

  /** A second slash makes no difference. */
  lemma SecondSlash(a: string, z: string)
    requires a != [] && a[|a| - 1] == '/'
    ensures Names(a + ['/'] + z) == Names(a + z)
  {
    OpenOn(a, '/');
    SameTail(a + ['/'], a, z);
  }

  lemma {:induction false} SqueezeNames(path: string, out: string)
    requires |out| + |path| <= PATH_MAX
    ensures Names(Squeeze(path, out)) == Names(out + path)
    decreases |path|
  {
    if path == [] {
      assert out + path == out;
    } else if path[0] == '/' && out != [] && out[|out| - 1] == '/' {
      SqueezeNames(path[1..], out);
      SecondSlash(out, path[1..]);
      assert out + ['/'] + path[1..] == out + path;
    } else {
      SqueezeNames(path[1..], out + [path[0]]);
      assert out + [path[0]] + path[1..] == out + path;
    }
  }

  lemma TrimNames(out: string)
    ensures Names(Trim(out)) == Names(out)
  {
    if |out| > 1 && out[|out| - 1] == '/' {
      var t := out[..|out| - 1];
      OpenOn(t, '/');
      assert t + ['/'] == out;
    } else if out == [] {
      OpenOn([], '/');
      assert [] + ['/'] == "/";
    }
  }

  /** Normalizing a path that fits the buffer keeps its names, and whether it begins with a
      slash. */
  lemma NormalizeMeans(path: string)
    requires |path| <= PATH_MAX
    ensures Names(Normalize(path)) == Names(path)
    ensures path != [] ==> Normalize(path) != [] && (Normalize(path)[0] == '/' <==> path[0] == '/')
  {
    SqueezeNames(path, []);
    assert [] + path == path;
    TrimNames(Squeeze(path, []));
    if path != [] { SqueezeFirst(path, []); }
  }

  lemma {:induction false} SqueezeFirst(path: string, out: string)
    ensures out != [] ==> Squeeze(path, out) != [] && Squeeze(path, out)[0] == out[0]
    ensures out == [] && path != [] ==> Squeeze(path, out) != [] && Squeeze(path, out)[0] == path[0]
    decreases |path|
  {
    if path == [] || |out| >= PATH_MAX {
    } else if path[0] == '/' && out != [] && out[|out| - 1] == '/' {
      SqueezeFirst(path[1..], out);
    } else {
      SqueezeFirst(path[1..], out + [path[0]]);
    }
  }

  /** A longer path is cut: it is normalized like one of its beginnings, as much as fills the
      buffer. */
  lemma {:induction false} SqueezeCuts(path: string, out: string) returns (k: nat)
    requires |out| <= PATH_MAX
    ensures k <= |path| && Squeeze(path, out) == Squeeze(path[..k], out)
    ensures k < |path| ==> |Squeeze(path, out)| == PATH_MAX
    decreases |path|
  {
    if path == [] || |out| >= PATH_MAX {
      k := 0;
    } else if path[0] == '/' && out != [] && out[|out| - 1] == '/' {
      k := SqueezeCuts(path[1..], out);
      assert path[..k + 1][1..] == path[1..][..k];
      k := k + 1;
    } else {
      k := SqueezeCuts(path[1..], out + [path[0]]);
      assert path[..k + 1][1..] == path[1..][..k];
      k := k + 1;
    }
  }

  // ------------------------------------------------------------------------- steps

  /** One component leads to the same directory, to the parent, or to the one live inode of
      that name in the directory. */
  lemma StepMeans(inodes: seq<Inode>, comp: string, cur: nat)
    requires Parents(inodes) && Unique(inodes) && Live(inodes, cur)
    ensures StepTo(inodes, ".", cur) == cur && StepTo(inodes, "..", cur) == inodes[cur].parent
    ensures comp != "." && comp != ".." ==>
            var r := StepTo(inodes, comp, cur);
            if r < 0 then r == -1 && forall j :: 0 <= j < |inodes| && inodes[j].kind != Unused ==>
                                       inodes[j].name != comp || inodes[j].parent != cur
            else r < |inodes| && inodes[r].kind != Unused && inodes[r].name == comp && inodes[r].parent == cur
  {
    if comp != "." && comp != ".." {
      var r := Scan(inodes, comp, cur);
      if r < 0 {
        forall j | 0 <= j < |inodes| && inodes[j].kind != Unused ensures inodes[j].name != comp || inodes[j].parent != cur {
          assert !Key(inodes, j, comp, cur);
        }
      }
    }
  }

  /** A path with "/.." at its end leads to the parent of what the path leads to. */
  lemma DotDotLeads(inodes: seq<Inode>, norm: string)
    requires Parents(inodes) && Unique(inodes) && Normal(norm) && norm != "/" && norm[0] == '/' && |norm| + 3 <= PATH_MAX
    ensures var p := FindPath(inodes, norm); FindPath(inodes, norm + "/..") == if p < 0 then -1 else inodes[p].parent
  {
    var longer := norm + "/..";
    LongerNormal(norm);
    FindNormal(inodes, norm);
    FindNormal(inodes, longer);
    PathLeads(inodes, longer);
    var p := Target(inodes, norm);
    if p >= 0 {
      FoundLive(inodes, norm);
      WalkOn(inodes, "..", [], p);
      assert [".."] + [] == [".."];
      StepMeans(inodes, "..", p);
    }
  }

  lemma LongerNormal(norm: string)
    requires Normal(norm) && norm != "/" && |norm| + 3 <= PATH_MAX
    ensures var l := norm + "/.."; Normal(l) && LastSlash(l) == |norm| && LastPart(l) == ".." && l[..|norm|] == norm && l != "/"
  {
    var l := norm + "/..";
    forall i ensures !DoubleAt(l, i) {
      assert !DoubleAt(norm, i);
    }
    assert l[..|norm| + 2] == norm + "/.";
    assert (norm + "/.")[..|norm| + 1] == norm + "/";
    assert LastSlash(norm + "/") == |norm|;
    assert LastSlash(norm + "/.") == |norm|;
  }

  /** A name is cut to its longest beginning that fits an inode. */
  lemma ClipMeans(name: string, shorter: string)
    requires shorter <= name && |shorter| <= NAME_MAX
    ensures Clip(name) <= name && |Clip(name)| <= NAME_MAX && shorter <= Clip(name)
  {
  }

  lemma Assembled(s: string, l: nat, dir: string, part: string)
    requires l < |s| && s[l] == '/' && part == s[l + 1..]
    requires if l == 0 then dir == "/" else dir == s[..l] && dir != "/"
    ensures s == (if dir == "/" then "/" else dir + "/") + part
  {
    assert s == s[..l] + "/" + s[l + 1..];
  }

  lemma DirOfRoot(norm: string)
    requires Normal(norm) && LastSlash(norm) == 0
    ensures DirName(norm) == "/"
  {
    NormalFixed(norm);
  }

  lemma DirIs(norm: string, l: nat, dir: string)
    requires Normal(norm) && l == LastSlash(norm) && dir == DirName(norm)
    ensures if l == 0 then dir == "/" else dir == norm[..l] && dir != "/"
  {
    if l > 0 { DirPart(norm); } else { DirOfRoot(norm); }
  }

  lemma LastPartIs(norm: string, l: nat, part: string)
    requires Normal(norm) && norm != "/" && l == LastSlash(norm) && part == LastPart(norm)
    ensures part == norm[l + 1..] && part != "" && NoSlash(part) && BaseName(norm) == Clip(part)
  {
    BasePart(norm);
  }

  /** A normalized path with a slash is its directory, a slash and its last name. */
  lemma PathParts(norm: string, l: nat, dir: string, part: string)
    requires Normal(norm) && norm != "/" && l == LastSlash(norm) && dir == DirName(norm) && part == LastPart(norm)
    ensures norm == (if dir == "/" then "/" else dir + "/") + part
    ensures part != "" && NoSlash(part) && BaseName(norm) == Clip(part)
  {
    LastPartIs(norm, l, part);
    DirIs(norm, l, dir);
    Assembled(norm, l, dir, part);
  }

  // ------------------------------------------------------------------------ lookup

  /** Empty components make no difference to a walk. */
  lemma {:induction false} WalkProper(inodes: seq<Inode>, comps: seq<string>, cur: nat)
    requires Parents(inodes) && Live(inodes, cur)
    ensures Walk(inodes, comps, cur) == Walk(inodes, AllProper(comps), cur)
    decreases |comps|
  {
    if comps == [] {
    } else {
      var c, cs := comps[0], comps[1..];
      assert comps == [c] + cs;
      WalkOn(inodes, c, cs, cur);
      var next := Enter(inodes, c, cur);
      if c == [] {
        WalkProper(inodes, cs, cur);
        assert [] + AllProper(cs) == AllProper(cs);
      } else {
        WalkOn(inodes, c, AllProper(cs), cur);
        if next >= 0 { WalkProper(inodes, cs, next); }
      }
    }
  }

  lemma NamesBehindSlash(n: string)
    requires n != [] && n[0] == '/'
    ensures Names(n) == AllProper(Split(n[1..]))
  {
    NamesMeans(n);
    AllProperFirst([], Split(n[1..]));
    assert [] + AllProper(Split(n[1..])) == AllProper(Split(n[1..]));
  }

  /** However a path is spelled, it leads where its names lead, one after the other. */
  lemma FindMeans(inodes: seq<Inode>, path: string)
    requires Parents(inodes) && path != [] && path[0] == '/' && |path| <= PATH_MAX
    ensures FindPath(inodes, path) == Walk(inodes, Names(path), 0)
  {
    var n := Normalize(path);
    NormalizeMeans(path);
    NamesBehindSlash(n);
    assert Live(inodes, 0);
    WalkProper(inodes, Split(n[1..]), 0);
    if n == "/" {
      assert n[1..] == [];
      assert AllProper([[]]) == [];
    }
  }
}
