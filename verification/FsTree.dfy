/** The directory tree of UnnamedFS: inodes that name their parents, lookup by name with
    a one-entry cache, and lookup by path. */
module FsTree {
  import opened FsExtents

  const NAME_MAX: nat := 63
  const PATH_MAX: nat := 255

  // -------------------------------------------------------------------- tree

  ghost predicate Live(inodes: seq<Inode>, i: int) {
    0 <= i < |inodes| && inodes[i].kind != Unused
  }

  ghost predicate Key(inodes: seq<Inode>, i: int, name: string, parent: int) {
    Live(inodes, i) && inodes[i].parent == parent && inodes[i].name == name
  }

  /** Following `k` parent links from `i` arrives at the root for the first time. */
  ghost predicate Climbs(inodes: seq<Inode>, i: nat, k: nat)
    decreases k
  {
    i < |inodes| && if k == 0 then i == 0 else i != 0 && Climbs(inodes, inodes[i].parent, k - 1)
  }

  ghost predicate Rooted(inodes: seq<Inode>, i: nat) {
    exists k: nat :: Climbs(inodes, i, k)
  }

  predicate IsDir(inodes: seq<Inode>, i: int) {
    0 <= i < |inodes| && inodes[i].kind == Directory
  }

  /** The root is a directory and its own parent, and every live inode lies in a directory. */
  ghost predicate Parents(inodes: seq<Inode>) {
    && 0 < |inodes| <= MAX_FILES
    && IsDir(inodes, 0) && inodes[0].parent == 0
    && (forall i :: Live(inodes, i) ==> IsDir(inodes, inodes[i].parent))
  }

  /** No two live inodes have the same name in the same directory. */
  ghost predicate Unique(inodes: seq<Inode>) {
    forall i, j :: Live(inodes, i) && Live(inodes, j) && i != j
      ==> inodes[i].parent != inodes[j].parent || inodes[i].name != inodes[j].name
  }

  ghost predicate AllRooted(inodes: seq<Inode>) {
    forall i :: Live(inodes, i) ==> Rooted(inodes, i)
  }

  ghost predicate TreeInv(inodes: seq<Inode>) {
    Parents(inodes) && Unique(inodes) && AllRooted(inodes)
  }

  // ------------------------------------------------------------------ lookup

  /** The first live inode with this name and parent, -1 if there is none. */
  ghost function ScanFrom(inodes: seq<Inode>, name: string, parent: nat, i: nat): (r: int)
    requires i <= |inodes|
    ensures r >= 0 ==> i <= r < |inodes| && Key(inodes, r, name, parent)
    ensures forall j :: i <= j < |inodes| && (r < 0 || j < r) ==> !Key(inodes, j, name, parent)
    ensures r >= -1
    decreases |inodes| - i
  {
    if i == |inodes| then -1
    else if Key(inodes, i, name, parent) then i
    else ScanFrom(inodes, name, parent, i + 1)
  }

  ghost function Scan(inodes: seq<Inode>, name: string, parent: nat): int {
    ScanFrom(inodes, name, parent, 0)
  }

  /** With one inode per name and parent, any match is the scan's match. */
  lemma ScanIs(inodes: seq<Inode>, name: string, parent: nat, i: nat)
    requires Unique(inodes) && Key(inodes, i, name, parent)
    ensures Scan(inodes, name, parent) == i
  {
    var r := Scan(inodes, name, parent);
    assert r >= 0;
    assert Key(inodes, r, name, parent);
  }

  /** The one-entry lookup cache. */
  datatype Cache = Cache(valid: bool, name: string, parent: nat, ino: int)

  predicate Hit(inodes: seq<Inode>, c: Cache, name: string, parent: nat) {
    && 0 <= c.ino < |inodes|
    && inodes[c.ino].kind != Unused && inodes[c.ino].parent == parent && inodes[c.ino].name == name
  }

  /** `find_inode_by_name_parent`, with its cache. */
  method Lookup(inodes: seq<Inode>, cache: Cache, name: string, parent: nat) returns (r: int, cache': Cache)
    requires Unique(inodes)
    ensures r == Scan(inodes, name, parent)
    ensures r >= 0 ==> cache' == Cache(true, name, parent, r)
    ensures r < 0 ==> cache' == cache.(valid := cache.valid && !(cache.parent == parent && cache.name == name))
  {
    cache' := cache;
    if cache.valid && cache.parent == parent && cache.name == name {
      if Hit(inodes, cache, name, parent) {
        ScanIs(inodes, name, parent, cache.ino);
        return cache.ino, cache';
      }
      cache' := cache'.(valid := false);
    }
    var i := 0;
    while i < |inodes|
      invariant i <= |inodes| && Scan(inodes, name, parent) == ScanFrom(inodes, name, parent, i)
    {
      if inodes[i].kind != Unused && inodes[i].parent == parent && inodes[i].name == name {
        return i, Cache(true, name, parent, i);
      }
      i := i + 1;
    }
    return -1, cache';
  }

  // ------------------------------------------------------------------- paths

  /** The copying loop of `path_normalize`: duplicate slashes are skipped, and the copy
      stops when the buffer is full. */
  function Squeeze(path: string, out: string): string {
    if path == [] || |out| >= PATH_MAX then out
    else if path[0] == '/' && out != [] && out[|out| - 1] == '/' then Squeeze(path[1..], out)
    else Squeeze(path[1..], out + [path[0]])
  }

  function Trim(out: string): string {
    var t := if |out| > 1 && out[|out| - 1] == '/' then out[..|out| - 1] else out;
    if t == [] then "/" else t
  }

  /** `path_normalize`. */
  function Normalize(path: string): string {
    Trim(Squeeze(path, []))
  }

  ghost predicate DoubleAt(s: string, i: int) {
    0 <= i < |s| - 1 && s[i] == '/' && s[i + 1] == '/'
  }

  ghost predicate NoDouble(s: string) {
    forall i :: !DoubleAt(s, i)
  }

  lemma LongerNoDouble(s: string, c: char)
    requires NoDouble(s) && !(c == '/' && s != [] && s[|s| - 1] == '/')
    ensures NoDouble(s + [c])
  {
    forall i ensures !DoubleAt(s + [c], i) {
      assert !DoubleAt(s, i);
    }
  }

  lemma PrefixNoDouble(s: string, n: nat)
    requires NoDouble(s) && n <= |s|
    ensures NoDouble(s[..n])
  {
    forall i ensures !DoubleAt(s[..n], i) {
      assert !DoubleAt(s, i);
    }
  }

  /** A normalized path: no doubled slash, no slash at the end but for the root, not
      empty, and short enough for the buffer. */
  ghost predicate Normal(s: string) {
    0 < |s| <= PATH_MAX && NoDouble(s) && (|s| > 1 ==> s[|s| - 1] != '/')
  }

  lemma {:induction false} SqueezeNormal(path: string, out: string)
    requires |out| <= PATH_MAX && NoDouble(out)
    ensures |Squeeze(path, out)| <= PATH_MAX && NoDouble(Squeeze(path, out))
    decreases |path|
  {
    if path != [] && |out| < PATH_MAX {
      if path[0] == '/' && out != [] && out[|out| - 1] == '/' {
        SqueezeNormal(path[1..], out);
      } else {
        LongerNoDouble(out, path[0]);
        SqueezeNormal(path[1..], out + [path[0]]);
      }
    }
  }

  lemma {:induction false} SqueezeCopies(path: string, out: string)
    requires |out| + |path| <= PATH_MAX && NoDouble(out + path)
    ensures Squeeze(path, out) == out + path
    decreases |path|
  {
    if path != [] {
      assert !DoubleAt(out + path, |out| - 1);
      assert (out + [path[0]]) + path[1..] == out + path;
      SqueezeCopies(path[1..], out + [path[0]]);
    } else {
      assert out + path == out;
    }
  }

  lemma NormalFixed(path: string)
    requires Normal(path)
    ensures Normalize(path) == path
  {
    assert [] + path == path;
    SqueezeCopies(path, []);
  }

  lemma TrimNormal(out: string)
    requires |out| <= PATH_MAX && NoDouble(out)
    ensures Normal(Trim(out))
  {
    if |out| > 1 {
      PrefixNoDouble(out, |out| - 1);
      assert !DoubleAt(out, |out| - 2);
    }
  }

  /** Normalizing yields a normalized path, and leaves such paths alone. */
  lemma NormalizeNormal(path: string)
    ensures Normal(Normalize(path))
    ensures Normalize(Normalize(path)) == Normalize(path)
  {
    SqueezeNormal(path, []);
    TrimNormal(Squeeze(path, []));
    NormalFixed(Normalize(path));
  }

  /** The loop of `path_normalize`. */
  method NormalizePath(path: string) returns (out: string)
    ensures out == Normalize(path)
  {
    out := [];
    var i, lastSlash := 0, false;
    while i < |path| && |out| < PATH_MAX
      invariant i <= |path| && (lastSlash <==> out != [] && out[|out| - 1] == '/')
      invariant Squeeze(path[i..], out) == Squeeze(path, [])
    {
      assert path[i..][1..] == path[i + 1..];
      var c := path[i];
      if c == '/' {
        if |out| == 0 || !lastSlash {
          out := out + ['/'];
          lastSlash := true;
        }
      } else {
        out := out + [c];
        lastSlash := false;
      }
      i := i + 1;
    }
    if |out| > 1 && out[|out| - 1] == '/' { out := out[..|out| - 1]; }
    if |out| == 0 { out := "/"; }
  }

  /** The place of the first slash, the length if there is none. */
  function SlashAt(s: string): (k: nat)
    ensures k <= |s| && (k < |s| ==> s[k] == '/')
    ensures forall j :: 0 <= j < k ==> s[j] != '/'
  {
    if s == [] || s[0] == '/' then 0 else 1 + SlashAt(s[1..])
  }

  function Clip(name: string): (r: string)
    ensures |r| <= NAME_MAX
  {
    if |name| <= NAME_MAX then name else name[..NAME_MAX]
  }

  /** One component of a path walk. */
  ghost function StepTo(inodes: seq<Inode>, comp: string, cur: nat): int
    requires cur < |inodes|
  {
    if comp == "." then cur
    else if comp == ".." then (if cur == 0 then 0 else inodes[cur].parent)
    else Scan(inodes, comp, cur)
  }

  /** The components between the slashes, some of them possibly empty; `acc` is the part
      of the first component already read. */
  ghost function SplitFrom(s: string, acc: string): seq<string> {
    if s == [] then [acc]
    else if s[0] == '/' then [acc] + SplitFrom(s[1..], [])
    else SplitFrom(s[1..], acc + [s[0]])
  }

  ghost function Split(s: string): seq<string> {
    SplitFrom(s, [])
  }

  /** One component, cut to the length of a name; an empty one stays where it is. */
  ghost function Enter(inodes: seq<Inode>, comp: string, cur: nat): int
    requires cur < |inodes|
  {
    if comp == "" then cur else StepTo(inodes, Clip(comp), cur)
  }

  /** The walk along the components `comps` from inode `cur`. */
  ghost function Walk(inodes: seq<Inode>, comps: seq<string>, cur: nat): (r: int)
    requires cur < |inodes|
    ensures -1 <= r < |inodes|
  {
    if comps == [] then cur
    else
      var next := Enter(inodes, comps[0], cur);
      if 0 <= next < |inodes| then Walk(inodes, comps[1..], next) else -1
  }

  /** Where a normalized path leads. */
  ghost function Target(inodes: seq<Inode>, n: string): (r: int)
    requires inodes != [] && n != []
    ensures -1 <= r < |inodes|
  {
    if n == "/" then 0 else Walk(inodes, Split(n[1..]), 0)
  }

  /** `find_inode_by_path`. */
  ghost function FindPath(inodes: seq<Inode>, path: string): (r: int)
    requires inodes != []
    ensures -1 <= r < |inodes|
  {
    NormalizeNormal(path);
    Target(inodes, Normalize(path))
  }

  lemma FindNormal(inodes: seq<Inode>, n: string)
    requires inodes != [] && Normal(n)
    ensures FindPath(inodes, n) == Target(inodes, n)
  {
    NormalFixed(n);
  }

  lemma StepLive(inodes: seq<Inode>, comp: string, cur: nat)
    requires Parents(inodes) && Live(inodes, cur)
    ensures var r := StepTo(inodes, comp, cur); r == -1 || Live(inodes, r)
  {
  }

  /** A walk ends nowhere or at a live inode. */
  lemma {:induction false} WalkLive(inodes: seq<Inode>, comps: seq<string>, cur: nat)
    requires Parents(inodes) && Live(inodes, cur)
    ensures var r := Walk(inodes, comps, cur); r == -1 || Live(inodes, r)
    decreases |comps|
  {
    if comps == [] {
    } else {
      StepLive(inodes, Clip(comps[0]), cur);
      var next := Enter(inodes, comps[0], cur);
      if 0 <= next < |inodes| { WalkLive(inodes, comps[1..], next); }
    }
  }

  lemma FoundLive(inodes: seq<Inode>, path: string)
    requires Parents(inodes)
    ensures var r := FindPath(inodes, path); r == -1 || Live(inodes, r)
  {
    NormalizeNormal(path);
    WalkLive(inodes, Split(Normalize(path)[1..]), 0);
  }

  /** The first component reaches up to the first slash. */
  lemma {:induction false} SplitRun(s: string, k: nat, acc: string)
    requires k <= |s| && (k < |s| ==> s[k] == '/') && forall j :: 0 <= j < k ==> s[j] != '/'
    ensures SplitFrom(s, acc) == [acc + s[..k]] + if k < |s| then SplitFrom(s[k + 1..], []) else []
    decreases k
  {
    if k == 0 {
      assert acc + s[..0] == acc;
    } else {
      SplitRun(s[1..], k - 1, acc + [s[0]]);
      assert acc + [s[0]] + s[1..][..k - 1] == acc + s[..k];
      assert k < |s| ==> s[1..][k..] == s[k + 1..];
    }
  }

  /** The components from `start` on: the one up to `pos`, and those behind it. */
  lemma SplitOn(norm: string, start: nat, pos: nat)
    requires start < |norm| && pos == start + SlashAt(norm[start..])
    ensures pos <= |norm|
    ensures Split(norm[start..]) == [norm[start..pos]] + if pos < |norm| then Split(norm[pos + 1..]) else []
  {
    var s := norm[start..];
    var k := SlashAt(s);
    SplitRun(s, k, []);
    assert [] + s[..k] == norm[start..pos];
    assert pos < |norm| ==> s[k + 1..] == norm[pos + 1..];
  }

  lemma WalkOn(inodes: seq<Inode>, comp: string, comps: seq<string>, cur: nat)
    requires Parents(inodes) && Live(inodes, cur)
    ensures var next := Enter(inodes, comp, cur);
            && (next == -1 || Live(inodes, next))
            && Walk(inodes, [comp] + comps, cur) == if next < 0 then -1 else Walk(inodes, comps, next)
  {
    EnterLive(inodes, comp, cur);
    WalkFirst(inodes, comp, comps, cur);
  }

  lemma EnterLive(inodes: seq<Inode>, comp: string, cur: nat)
    requires Parents(inodes) && Live(inodes, cur)
    ensures var next := Enter(inodes, comp, cur); next == -1 || Live(inodes, next)
  {
    StepLive(inodes, Clip(comp), cur);
  }

  lemma WalkFirst(inodes: seq<Inode>, comp: string, comps: seq<string>, cur: nat)
    requires cur < |inodes|
    ensures var next := Enter(inodes, comp, cur);
            Walk(inodes, [comp] + comps, cur) == if 0 <= next < |inodes| then Walk(inodes, comps, next) else -1
  {
    assert ([comp] + comps)[1..] == comps;
  }

  /** The loops of `find_inode_by_path`. */
  method FindByPath(inodes: seq<Inode>, cache: Cache, path: string) returns (r: int, cache': Cache)
    requires Parents(inodes) && Unique(inodes)
    ensures r == FindPath(inodes, path)
  {
    var norm := NormalizePath(path);
    NormalizeNormal(path);
    if norm == "/" { return 0, cache; }
    r, cache' := WalkPath(inodes, cache, norm);
  }

  /** A walk in progress: what is left of the path leads from `cur` to the end. */
  ghost predicate Walking(inodes: seq<Inode>, norm: string, pos: nat, cur: nat) {
    && 1 <= pos <= |norm| && Live(inodes, cur) && Live(inodes, 0)
    && Walk(inodes, Split(norm[pos..]), cur) == Walk(inodes, Split(norm[1..]), 0)
  }

  function Behind(norm: string, pos: nat): nat {
    if pos < |norm| then pos + 1 else pos
  }

  lemma WalkEnd(inodes: seq<Inode>, norm: string, cur: int)
    requires 0 <= cur < |inodes|
    ensures Walk(inodes, Split(norm[|norm|..]), cur) == cur
  {
    assert norm[|norm|..] == [];
    assert Split([]) == [[]];
  }

  lemma WalkStep(inodes: seq<Inode>, norm: string, start: nat, pos: nat, cur: nat)
    requires Parents(inodes) && Walking(inodes, norm, start, cur)
    requires start < |norm| && pos == start + SlashAt(norm[start..])
    ensures pos <= |norm|
    ensures var next := Enter(inodes, norm[start..pos], cur);
            if next < 0 then next == -1 && Walk(inodes, Split(norm[1..]), 0) == -1
            else Walking(inodes, norm, Behind(norm, pos), next)
  {
    SplitOn(norm, start, pos);
    WalkOn(inodes, norm[start..pos], if pos < |norm| then Split(norm[pos + 1..]) else [], cur);
    var next := Enter(inodes, norm[start..pos], cur);
    if pos == |norm| && next >= 0 { WalkEnd(inodes, norm, next); }
  }

  method WalkPath(inodes: seq<Inode>, cache: Cache, norm: string) returns (r: int, cache': Cache)
    requires Parents(inodes) && Unique(inodes) && |norm| > 0
    ensures r == Walk(inodes, Split(norm[1..]), 0)
  {
    cache' := cache;
    r := 0;
    var pos := 1;
    assert Walking(inodes, norm, 1, 0);
    while pos < |norm|
      invariant r >= 0 && Walking(inodes, norm, pos, r)
      decreases |norm| - pos
    {
      r, pos, cache' := WalkOne(inodes, cache', norm, pos, r);
      if r < 0 { return; }
    }
    WalkEnd(inodes, norm, r);
  }

  /** One component of the walk, and the place behind it. */
  method WalkOne(inodes: seq<Inode>, cache: Cache, norm: string, start: nat, cur: nat)
    returns (next: int, pos: nat, cache': Cache)
    requires Parents(inodes) && Unique(inodes) && Walking(inodes, norm, start, cur) && start < |norm|
    ensures start < pos
    ensures if next < 0 then next == -1 && Walk(inodes, Split(norm[1..]), 0) == -1 else Walking(inodes, norm, pos, next)
  {
    var comp, end := Component(norm, start);
    WalkStep(inodes, norm, start, end, cur);
    next, cache', pos := cur, cache, Behind(norm, end);
    if |comp| > 0 { next, cache' := StepInto(inodes, cache, comp, cur); }
  }

  method StepInto(inodes: seq<Inode>, cache: Cache, comp: string, cur: nat) returns (next: int, cache': Cache)
    requires Parents(inodes) && Unique(inodes) && Live(inodes, cur)
    ensures next == StepTo(inodes, comp, cur) && (next == -1 || Live(inodes, next))
  {
    StepLive(inodes, comp, cur);
    if comp == "." {
      return cur, cache;
    } else if comp == ".." {
      return if cur != 0 then inodes[cur].parent else cur, cache;
    } else {
      next, cache' := Lookup(inodes, cache, comp, cur);
    }
  }

  /** The next component, cut to the length of a name, and the place behind it. */
  method Component(norm: string, start: nat) returns (comp: string, pos: nat)
    requires start < |norm|
    ensures start <= pos <= |norm| && pos == start + SlashAt(norm[start..])
    ensures comp == Clip(norm[start..pos])
  {
    comp, pos := [], start;
    while pos < |norm| && norm[pos] != '/'
      invariant start <= pos <= |norm| && comp == Clip(norm[start..pos])
      invariant forall j :: start <= j < pos ==> norm[j] != '/'
    {
      ClipOn(norm[start..pos], norm[pos]);
      assert norm[start..pos + 1] == norm[start..pos] + [norm[pos]];
      if |comp| < NAME_MAX { comp := comp + [norm[pos]]; }
      pos := pos + 1;
    }
    FirstSlash(norm[start..], pos - start);
  }

  lemma ClipOn(s: string, c: char)
    ensures Clip(s + [c]) == if |Clip(s)| < NAME_MAX then Clip(s) + [c] else Clip(s)
  {
    if |s| >= NAME_MAX { assert (s + [c])[..NAME_MAX] == s[..NAME_MAX]; }
  }

  lemma FirstSlash(s: string, k: nat)
    requires k <= |s| && (k < |s| ==> s[k] == '/') && forall j :: 0 <= j < k ==> s[j] != '/'
    ensures SlashAt(s) == k
  {
    var f := SlashAt(s);
  }
}
