/** Adding inodes to the tree and taking them out: what keeps the tree a tree, and when a
    file can be found again by the path it was created with. */
module FsNames {
  import opened FsExtents
  import opened FsTree

  // ------------------------------------------------------------------ adding

  /** `alloc_inode_slot`: the first unused inode, or a new one; -1 if the table is full. */
  ghost function SlotFrom(inodes: seq<Inode>, i: nat): (r: int)
    requires i <= |inodes| <= MAX_FILES
    ensures r >= 0 ==> i <= r <= |inodes| && !Live(inodes, r) && r < MAX_FILES
    decreases |inodes| - i
  {
    if i == |inodes| then (if i >= MAX_FILES then -1 else i)
    else if inodes[i].kind == Unused then i
    else SlotFrom(inodes, i + 1)
  }

  function Put(inodes: seq<Inode>, slot: nat, ino: Inode): (r: seq<Inode>)
    requires slot <= |inodes|
    ensures |r| == if slot < |inodes| then |inodes| else |inodes| + 1
    ensures forall i :: 0 <= i < |r| ==> r[i] == if i == slot then ino else inodes[i]
  {
    if slot < |inodes| then inodes[slot := ino] else inodes + [ino]
  }

  /** Paths to the root do not pass a slot that is not live. */
  lemma {:induction false} ClimbsPast(inodes: seq<Inode>, inodes': seq<Inode>, slot: nat, i: nat, k: nat)
    requires Parents(inodes) && Live(inodes, i) && Climbs(inodes, i, k) && |inodes'| >= |inodes| && i != slot
    requires forall j :: 0 <= j < |inodes| && j != slot ==> inodes'[j] == inodes[j]
    requires forall j :: Live(inodes, j) && j != slot && j != 0 ==> inodes[j].parent != slot
    ensures Climbs(inodes', i, k)
    decreases k
  {
    if k == 0 {
    } else {
      ClimbsPast(inodes, inodes', slot, inodes[i].parent, k - 1);
    }
  }

  lemma AddRooted(inodes: seq<Inode>, slot: nat, ino: Inode)
    requires Parents(inodes) && AllRooted(inodes)
    requires slot <= |inodes| && !Live(inodes, slot) && IsDir(inodes, ino.parent)
    ensures AllRooted(Put(inodes, slot, ino))
  {
    var r := Put(inodes, slot, ino);
    forall i: nat | Live(inodes, i) ensures Rooted(r, i) {
      var k: nat :| Climbs(inodes, i, k);
      ClimbsPast(inodes, r, slot, i, k);
    }
    assert Live(inodes, ino.parent);
    var k: nat :| Climbs(r, ino.parent, k);
    assert Climbs(r, slot, k + 1);
    forall i: nat | Live(r, i) ensures Rooted(r, i) {
      if i != slot { assert Live(inodes, i); }
    }
  }

  lemma AddParents(inodes: seq<Inode>, slot: nat, ino: Inode)
    requires Parents(inodes) && slot <= |inodes| && slot < MAX_FILES && !Live(inodes, slot)
    requires IsDir(inodes, ino.parent)
    ensures Parents(Put(inodes, slot, ino))
  {
    var r := Put(inodes, slot, ino);
    forall i | Live(r, i) ensures IsDir(r, r[i].parent) {
      if i != slot { assert Live(inodes, i); }
    }
  }

  lemma AddUnique(inodes: seq<Inode>, slot: nat, ino: Inode)
    requires Unique(inodes) && slot <= |inodes| && Scan(inodes, ino.name, ino.parent) < 0
    ensures Unique(Put(inodes, slot, ino))
  {
    var r := Put(inodes, slot, ino);
    forall i | Live(r, i) && i != slot ensures Live(inodes, i) && !Key(inodes, i, ino.name, ino.parent) {
    }
  }

  /** A new inode in a directory, under a name that is free there, keeps the tree a tree. */
  lemma AddKeepsTree(inodes: seq<Inode>, slot: nat, ino: Inode)
    requires TreeInv(inodes) && slot <= |inodes| && slot < MAX_FILES && !Live(inodes, slot)
    requires IsDir(inodes, ino.parent) && Scan(inodes, ino.name, ino.parent) < 0
    ensures TreeInv(Put(inodes, slot, ino))
  {
    AddParents(inodes, slot, ino);
    AddUnique(inodes, slot, ino);
    AddRooted(inodes, slot, ino);
  }

  // ---------------------------------------------------------------- removing

  ghost predicate HasChild(inodes: seq<Inode>, i: int) {
    exists j :: Live(inodes, j) && inodes[j].parent == i
  }

  /** The root always counts as its own child, so it is never empty. */
  lemma RootHasChild(inodes: seq<Inode>)
    requires Parents(inodes)
    ensures HasChild(inodes, 0)
  {
    assert Live(inodes, 0);
  }

  lemma RemoveParents(inodes: seq<Inode>, i: nat)
    requires Parents(inodes) && i < |inodes| && !HasChild(inodes, i)
    ensures i != 0 && Parents(inodes[i := ZEROED])
  {
    RootHasChild(inodes);
    var r := inodes[i := ZEROED];
    forall j | Live(r, j) ensures IsDir(r, r[j].parent) {
      assert Live(inodes, j);
    }
  }

  lemma RemoveRooted(inodes: seq<Inode>, i: nat)
    requires Parents(inodes) && AllRooted(inodes) && i < |inodes| && !HasChild(inodes, i)
    ensures AllRooted(inodes[i := ZEROED])
  {
    var r := inodes[i := ZEROED];
    forall j: nat | Live(r, j) ensures Rooted(r, j) {
      assert Live(inodes, j);
      var k: nat :| Climbs(inodes, j, k);
      ClimbsPast(inodes, r, i, j, k);
    }
  }

  lemma RemoveUnique(inodes: seq<Inode>, i: nat)
    requires Unique(inodes) && i < |inodes|
    ensures Unique(inodes[i := ZEROED])
  {
    var r := inodes[i := ZEROED];
    forall j | Live(r, j) ensures Live(inodes, j) && r[j] == inodes[j] {
    }
  }

  /** Taking out an inode without children keeps the tree a tree; it is not the root. */
  lemma RemoveKeepsTree(inodes: seq<Inode>, i: nat)
    requires TreeInv(inodes) && i < |inodes| && !HasChild(inodes, i)
    ensures i != 0 && TreeInv(inodes[i := ZEROED])
  {
    RemoveParents(inodes, i);
    RemoveUnique(inodes, i);
    RemoveRooted(inodes, i);
  }

  /** A file has no children. */
  lemma FileHasNoChild(inodes: seq<Inode>, i: nat)
    requires Parents(inodes) && i < |inodes| && inodes[i].kind != Directory
    ensures !HasChild(inodes, i)
  {
  }

  // ------------------------------------------------------------ names of paths

  /** The place of the last slash, -1 if there is none. */
  function LastSlash(s: string): (l: int)
    ensures -1 <= l < |s| && (l >= 0 ==> s[l] == '/')
    ensures forall j :: l < j < |s| ==> s[j] != '/'
  {
    if s == [] then -1 else if s[|s| - 1] == '/' then |s| - 1 else LastSlash(s[..|s| - 1])
  }

  /** The part of a path behind its last slash. */
  function LastPart(s: string): string {
    s[LastSlash(s) + 1..]
  }

  /** A path without the slashes at its end; the root stays. */
  function Trimmed(path: string): string {
    if |path| > 1 && path[|path| - 1] == '/' then Trimmed(path[..|path| - 1]) else path
  }

  /** What `path_basename` computes. */
  function BaseName(path: string): string {
    Clip(LastPart(Trimmed(path)))
  }

  /** The loops of `path_basename`. */
  method BaseNameOf(path: string) returns (base: string)
    ensures base == BaseName(path)
  {
    var end: nat := |path|;
    assert path[..end] == path;
    while end > 1 && path[end - 1] == '/'
      invariant end <= |path| && Trimmed(path[..end]) == Trimmed(path)
    {
      assert path[..end][..end - 1] == path[..end - 1];
      end := end - 1;
    }
    var start: nat := end;
    while start > 0 && path[start - 1] != '/'
      invariant start <= end && LastSlash(path[..start]) == LastSlash(path[..end])
    {
      assert path[..start][..start - 1] == path[..start - 1];
      start := start - 1;
    }
    assert start > 0 ==> LastSlash(path[..start]) == start - 1;
    assert LastPart(path[..end]) == path[start..end];
    return Clip(path[start..end]);
  }

  /** The part of a normalized path before its last slash; the root if there is none. */
  function DirPrefix(norm: string): string {
    if norm == "/" || LastSlash(norm) <= 0 then "/" else norm[..LastSlash(norm)]
  }

  /** What `path_dirname` computes. */
  function DirName(path: string): string {
    DirPrefix(Normalize(path))
  }

  // ---------------------------------------------------------------- creating

  datatype Made = Made(slot: int, inodes: seq<Inode>)

  function Fresh(kind: Kind, parent: nat, name: string): Inode {
    Inode(0, kind, parent, 0, 0, name)
  }

  /** Enter a new inode under a name and a parent, unless that cannot be. */
  ghost function Attach(inodes: seq<Inode>, base: string, parent: int, kind: Kind): Made
    requires |inodes| <= MAX_FILES
  {
    if base == "" || parent < 0 || !IsDir(inodes, parent) || Scan(inodes, base, parent) >= 0 then Made(-1, inodes)
    else
      var slot := SlotFrom(inodes, 0);
      if slot < 0 then Made(-1, inodes) else Made(slot, Put(inodes, slot, Fresh(kind, parent, base)))
  }

  /** `create_inode`: a new inode of the given kind, or -1 and nothing changed. */
  ghost function Create(inodes: seq<Inode>, norm: string, kind: Kind): Made
    requires Parents(inodes)
  {
    Attach(inodes, BaseName(norm), FindPath(inodes, DirName(norm)), kind)
  }

  lemma CreateKeepsTree(inodes: seq<Inode>, norm: string, kind: Kind)
    requires TreeInv(inodes) && kind != Unused
    ensures var m := Create(inodes, norm, kind);
            && TreeInv(m.inodes)
            && (m.slot < 0 ==> m.inodes == inodes)
            && (m.slot >= 0 ==> m.slot <= |inodes| && !Live(inodes, m.slot) && Live(m.inodes, m.slot))
  {
    var m := Create(inodes, norm, kind);
    if m.slot >= 0 {
      AddKeepsTree(inodes, m.slot, Fresh(kind, FindPath(inodes, DirName(norm)), BaseName(norm)));
    }
  }

  // ------------------------------------------------------------ finding again

  lemma {:induction false} WalkAppend(inodes: seq<Inode>, comps: seq<string>, b: string, cur: nat)
    requires Parents(inodes) && Live(inodes, cur)
    ensures var m := Walk(inodes, comps, cur);
            && (m == -1 || Live(inodes, m))
            && Walk(inodes, comps + [b], cur) == if m < 0 then -1 else Walk(inodes, [b], m)
  {
    WalkLive(inodes, comps, cur);
    if comps == [] {
      assert comps + [b] == [b];
    } else {
      WalkOn(inodes, comps[0], comps[1..], cur);
      WalkOn(inodes, comps[0], comps[1..] + [b], cur);
      assert comps == [comps[0]] + comps[1..];
      assert comps + [b] == [comps[0]] + (comps[1..] + [b]);
      var next := Enter(inodes, comps[0], cur);
      if next >= 0 { WalkAppend(inodes, comps[1..], b, next); }
    }
  }

  ghost predicate IsName(b: string) {
    b != "" && forall j :: 0 <= j < |b| ==> b[j] != '/'
  }

  /** The components of a path with one more name at its end. */
  lemma {:induction false} SplitLonger(x: string, b: string, acc: string)
    ensures SplitFrom(x + ['/'] + b, acc) == SplitFrom(x, acc) + Split(b)
    decreases |x|
  {
    var y := x + ['/'] + b;
    if x == [] {
      assert y[1..] == b;
    } else {
      assert y[1..] == x[1..] + ['/'] + b;
      if x[0] == '/' {
        SplitLonger(x[1..], b, []);
      } else {
        SplitLonger(x[1..], b, acc + [x[0]]);
      }
    }
  }

  lemma SplitName(b: string)
    requires IsName(b)
    ensures Split(b) == [b]
  {
    SplitRun(b, |b|, []);
    assert [] + b[..|b|] == b;
  }

  /** A lookup that succeeds gives the same result in a grown tree. */
  lemma EnterGrown(inodes: seq<Inode>, slot: nat, ino: Inode, comp: string, cur: nat)
    requires Parents(inodes) && slot <= |inodes| && !Live(inodes, slot) && Unique(Put(inodes, slot, ino))
    requires Live(inodes, cur) && Enter(inodes, comp, cur) >= 0
    ensures Enter(Put(inodes, slot, ino), comp, cur) == Enter(inodes, comp, cur)
  {
    var r, c := Put(inodes, slot, ino), Clip(comp);
    if comp != "" && c != "." && c != ".." {
      ScanIs(r, c, cur, Scan(inodes, c, cur));
    }
  }

  /** Lookups that succeed in one table give the same result in the other. */
  ghost predicate Agrees(inodes: seq<Inode>, r: seq<Inode>) {
    && Parents(inodes) && |r| >= |inodes|
    && forall comp, cur :: Live(inodes, cur) && Enter(inodes, comp, cur) >= 0 ==> Enter(r, comp, cur) == Enter(inodes, comp, cur)
  }

  lemma PutAgrees(inodes: seq<Inode>, slot: nat, ino: Inode)
    requires Parents(inodes) && slot <= |inodes| && !Live(inodes, slot) && Unique(Put(inodes, slot, ino))
    ensures Agrees(inodes, Put(inodes, slot, ino))
  {
    forall comp, cur | Live(inodes, cur) && Enter(inodes, comp, cur) >= 0
      ensures Enter(Put(inodes, slot, ino), comp, cur) == Enter(inodes, comp, cur)
    {
      EnterGrown(inodes, slot, ino, comp, cur);
    }
  }

  lemma {:induction false} WalkGrown(inodes: seq<Inode>, r: seq<Inode>, comps: seq<string>, cur: nat)
    requires Agrees(inodes, r) && Live(inodes, cur) && Walk(inodes, comps, cur) >= 0
    ensures Walk(r, comps, cur) == Walk(inodes, comps, cur)
    decreases |comps|
  {
    if comps == [] {
    } else {
      var next := Enter(inodes, comps[0], cur);
      StepLive(inodes, Clip(comps[0]), cur);
      assert Enter(r, comps[0], cur) == next;
      WalkGrown(inodes, r, comps[1..], next);
    }
  }

  lemma BasePart(norm: string)
    requires Normal(norm) && norm != "/"
    ensures LastPart(norm) != "" && BaseName(norm) == Clip(LastPart(norm))
  {
    assert Trimmed(norm) == norm;
  }

  lemma DirPart(norm: string)
    requires Normal(norm) && LastSlash(norm) > 0
    ensures var d := norm[..LastSlash(norm)]; Normal(d) && d != "/" && DirName(norm) == d
  {
    var l := LastSlash(norm);
    NormalFixed(norm);
    assert !DoubleAt(norm, l - 1);
    PrefixNoDouble(norm, l);
  }

  /** The directory a normalized path with a slash leads through. */
  ghost function DirTarget(inodes: seq<Inode>, norm: string): (r: int)
    requires inodes != [] && LastSlash(norm) >= 0
    ensures -1 <= r < |inodes|
  {
    if LastSlash(norm) == 0 then 0 else Target(inodes, norm[..LastSlash(norm)])
  }

  /** Where a path leads: first to its directory, then to its last name. */
  lemma PathLeads(inodes: seq<Inode>, norm: string)
    requires Parents(inodes) && norm != "/" && 0 <= LastSlash(norm) && LastPart(norm) != ""
    requires LastSlash(norm) > 0 ==> norm[..LastSlash(norm)] != "/"
    ensures var p := DirTarget(inodes, norm);
            Target(inodes, norm) == if p < 0 then -1 else Walk(inodes, [LastPart(norm)], p)
  {
    var l := LastSlash(norm);
    var b := LastPart(norm);
    SplitName(b);
    if l > 0 {
      var x := norm[..l][1..];
      Halves(norm, l);
      SplitLonger(x, b, []);
      WalkAppend(inodes, Split(x), b, 0);
    }
  }

  /** A path cut at a slash. */
  lemma Halves(norm: string, l: nat)
    requires 0 < l < |norm| && norm[l] == '/'
    ensures norm[1..] == norm[..l][1..] + ['/'] + norm[l + 1..]
  {
    var x, z := norm[..l][1..], norm[l + 1..];
    var all := x + ['/'] + z;
    forall k | 0 <= k < |all| ensures all[k] == norm[1..][k] {
      if k < l - 1 {
        assert all[k] == x[k] == norm[k + 1];
      } else if k > l - 1 {
        assert all[k] == z[k - l];
      }
    }
  }

  lemma DirFound(inodes: seq<Inode>, norm: string)
    requires inodes != [] && Normal(norm) && norm != "/" && LastSlash(norm) >= 0
    ensures FindPath(inodes, DirName(norm)) == DirTarget(inodes, norm)
  {
    if LastSlash(norm) > 0 { DirPart(norm); } else { NormalFixed(norm); }
    FindNormal(inodes, DirName(norm));
  }

  /** The last step of a path, in a tree that has the inode it names. */
  lemma LastStep(r: seq<Inode>, slot: nat, b: string, p: nat)
    requires Parents(r) && Unique(r) && Key(r, slot, Clip(b), p) && Live(r, p) && b != ""
    requires slot != 0 && slot != p && slot != r[p].parent
    ensures Walk(r, [b], p) == slot <==> Clip(b) != "." && Clip(b) != ".."
  {
    WalkOn(r, b, [], p);
    assert [b] + [] == [b];
    if Clip(b) != "." && Clip(b) != ".." {
      ScanIs(r, Clip(b), p, slot);
    }
  }

  /** A path with a slash is found through its directory. */
  lemma FoundThrough(inodes: seq<Inode>, norm: string)
    requires Parents(inodes) && Normal(norm) && norm != "/" && LastSlash(norm) >= 0
    ensures LastPart(norm) != ""
    ensures var p := FindPath(inodes, DirName(norm));
            FindPath(inodes, norm) == if p < 0 then -1 else Walk(inodes, [LastPart(norm)], p)
  {
    BasePart(norm);
    if LastSlash(norm) > 0 { DirPart(norm); }
    DirFound(inodes, norm);
    FindNormal(inodes, norm);
    PathLeads(inodes, norm);
  }

  /** `ino` can be entered in the free slot under the directory and the name of a path, the
      name being the part behind the last slash. */
  ghost predicate Enterable(inodes: seq<Inode>, norm: string, slot: nat, ino: Inode) {
    && Parents(inodes) && slot <= |inodes| && !Live(inodes, slot) && ino.kind != Unused
    && Parents(Put(inodes, slot, ino)) && Unique(Put(inodes, slot, ino))
    && Normal(norm) && norm != "/" && IsDir(inodes, ino.parent)
    && ino.parent == FindPath(inodes, DirName(norm))
    && LastPart(norm) != "" && ino.name == Clip(LastPart(norm))
  }

  /** A path leads to an inode entered under its directory and its name, exactly if that
      name is neither "." nor "..". */
  lemma AttachedIsFound(inodes: seq<Inode>, norm: string, slot: nat, ino: Inode)
    requires Enterable(inodes, norm, slot, ino) && LastSlash(norm) >= 0
    ensures FindPath(Put(inodes, slot, ino), norm) == slot <==> ino.name != "." && ino.name != ".."
  {
    AttachedLeads(inodes, norm, slot, ino);
    NewStep(inodes, slot, ino, LastPart(norm));
  }

  lemma AttachedLeads(inodes: seq<Inode>, norm: string, slot: nat, ino: Inode)
    requires Enterable(inodes, norm, slot, ino) && LastSlash(norm) >= 0
    ensures FindPath(Put(inodes, slot, ino), norm) == Walk(Put(inodes, slot, ino), [LastPart(norm)], ino.parent)
  {
    DirGrown(inodes, norm, slot, ino);
    FoundThrough(Put(inodes, slot, ino), norm);
  }

  lemma NewStep(inodes: seq<Inode>, slot: nat, ino: Inode, b: string)
    requires Parents(inodes) && slot <= |inodes| && !Live(inodes, slot) && ino.kind != Unused && b != ""
    requires Parents(Put(inodes, slot, ino)) && Unique(Put(inodes, slot, ino))
    requires IsDir(inodes, ino.parent) && ino.name == Clip(b)
    ensures Walk(Put(inodes, slot, ino), [b], ino.parent) == slot <==> ino.name != "." && ino.name != ".."
  {
    assert Live(inodes, 0) && Live(inodes, ino.parent) && Live(inodes, inodes[ino.parent].parent);
    assert Key(Put(inodes, slot, ino), slot, Clip(b), ino.parent);
    LastStep(Put(inodes, slot, ino), slot, b, ino.parent);
  }

  /** The lookup skips the first character of a path without a slash, so it leads to the new
      inode exactly if the name cut short is the same without that character. */
  lemma BareIsFound(inodes: seq<Inode>, norm: string, slot: nat, ino: Inode)
    requires Enterable(inodes, norm, slot, ino) && LastSlash(norm) < 0
    ensures FindPath(Put(inodes, slot, ino), norm) == slot <==> Clip(norm[1..]) == ino.name
  {
    var r, b := Put(inodes, slot, ino), norm[1..];
    assert norm[0..] == norm;
    BareDir(inodes, norm);
    FindNormal(r, norm);
    assert Live(inodes, 0);
    if b == "" {
      assert Split(b) == [b];
    } else {
      SplitName(b);
    }
    WalkOn(r, b, [], 0);
    assert [b] + [] == [b];
    BareStep(r, slot, ino, b);
  }

  lemma BareDir(inodes: seq<Inode>, norm: string)
    requires inodes != [] && Normal(norm) && LastSlash(norm) < 0
    ensures FindPath(inodes, DirName(norm)) == 0
  {
    NormalFixed(norm);
    FindNormal(inodes, "/");
  }

  lemma BareStep(r: seq<Inode>, slot: nat, ino: Inode, b: string)
    requires Parents(r) && Unique(r) && 0 < slot < |r| && r[slot] == ino && ino.kind != Unused && ino.parent == 0
    requires |ino.name| == if |b| + 1 <= NAME_MAX then |b| + 1 else NAME_MAX
    ensures Enter(r, b, 0) == slot <==> Clip(b) == ino.name
  {
    if Clip(b) == ino.name {
      assert |b| >= NAME_MAX;
      assert Key(r, slot, ino.name, 0);
      ScanIs(r, ino.name, 0, slot);
    }
  }

  /** The last name of a path is one that can be looked up. */
  predicate Findable(norm: string)
    requires norm != ""
  {
    if LastSlash(norm) < 0 then Clip(norm[1..]) == Clip(norm)
    else Clip(LastPart(norm)) != "." && Clip(LastPart(norm)) != ".."
  }

  /** What entering a new inode leaves. */
  lemma AttachEnters(inodes: seq<Inode>, base: string, parent: int, kind: Kind)
    requires TreeInv(inodes) && kind != Unused && parent < |inodes| && Attach(inodes, base, parent, kind).slot >= 0
    ensures var m := Attach(inodes, base, parent, kind);
            && base != "" && IsDir(inodes, parent) && m.slot <= |inodes| && !Live(inodes, m.slot)
            && m.inodes == Put(inodes, m.slot, Fresh(kind, parent, base)) && TreeInv(m.inodes)
  {
    var m := Attach(inodes, base, parent, kind);
    AddKeepsTree(inodes, m.slot, Fresh(kind, parent, base));
  }

  lemma EnteredIsFound(inodes: seq<Inode>, norm: string, slot: nat, ino: Inode)
    requires Enterable(inodes, norm, slot, ino) && ino.name == Clip(LastPart(norm))
    ensures FindPath(Put(inodes, slot, ino), norm) == slot <==> Findable(norm)
  {
    if LastSlash(norm) < 0 {
      BareIsFound(inodes, norm, slot, ino);
      assert LastPart(norm) == norm;
    } else {
      AttachedIsFound(inodes, norm, slot, ino);
    }
  }

  lemma AttachedFound(inodes: seq<Inode>, norm: string, base: string, parent: int, kind: Kind)
    requires TreeInv(inodes) && kind != Unused && Normal(norm)
    requires base == BaseName(norm) && parent == FindPath(inodes, DirName(norm)) && parent < |inodes|
    ensures var m := Attach(inodes, base, parent, kind);
            m.slot >= 0 ==> m.inodes != [] && (FindPath(m.inodes, norm) == m.slot <==> Findable(norm))
  {
    var m := Attach(inodes, base, parent, kind);
    if m.slot >= 0 {
      AttachEnters(inodes, base, parent, kind);
      RootHasNoName();
      BasePart(norm);
      EnteredIsFound(inodes, norm, m.slot, Fresh(kind, parent, base));
    }
  }

  /** A path that was just created leads to the new inode, exactly if its last name is
      neither "." nor ".." and it has a slash; without one the lookup drops its first
      character, which makes a difference unless the name is cut short. */
  lemma CreatedIsFound(inodes: seq<Inode>, norm: string, kind: Kind)
    requires TreeInv(inodes) && kind != Unused && Normal(norm)
    ensures var m := Create(inodes, norm, kind);
            && TreeInv(m.inodes)
            && (m.slot >= 0 ==> (FindPath(m.inodes, norm) == m.slot <==> Findable(norm)))
  {
    CreateKeepsTree(inodes, norm, kind);
    AttachedFound(inodes, norm, BaseName(norm), FindPath(inodes, DirName(norm)), kind);
  }

  lemma RootHasNoName()
    ensures BaseName("/") == ""
  {
    assert Trimmed("/") == "/" && LastSlash("/") == 0;
  }

  lemma DirGrown(inodes: seq<Inode>, norm: string, slot: nat, ino: Inode)
    requires Parents(inodes) && slot <= |inodes| && !Live(inodes, slot) && Unique(Put(inodes, slot, ino))
    requires FindPath(inodes, DirName(norm)) >= 0
    ensures FindPath(Put(inodes, slot, ino), DirName(norm)) == FindPath(inodes, DirName(norm))
  {
    var d := Normalize(DirName(norm));
    NormalizeNormal(DirName(norm));
    PutAgrees(inodes, slot, ino);
    if d != "/" { WalkGrown(inodes, Put(inodes, slot, ino), Split(d[1..]), 0); }
  }
}
