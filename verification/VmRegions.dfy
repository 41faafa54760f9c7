/** What a sorted list of address ranges means, and what removing or
    re-protecting an address range does to that meaning. */
module VmRegions {

  datatype Option<+T> = None | Some(value: T)

  datatype Attr = Attr(protection: nat, inheritance: nat, mapped: bool, wired: bool)

  datatype Region = Region(start: nat, end: nat, attr: Attr)

  /** The meaning of a list of regions: the attributes found at an address. */
  ghost function At(rs: seq<Region>, a: nat): Option<Attr> {
    if rs == [] then None
    else if rs[0].start <= a < rs[0].end then Some(rs[0].attr)
    else At(rs[1..], a)
  }

  predicate Overlaps(r: Region, lo: nat, hi: nat) {
    !(r.end <= lo || r.start >= hi)
  }

  predicate Straddles(r: Region, a: nat) {
    r.start < a < r.end
  }

  ghost predicate Ordered(rs: seq<Region>) {
    && (forall i :: 0 <= i < |rs| ==> rs[i].start < rs[i].end)
    && (forall i, j :: 0 <= i < j < |rs| ==> rs[i].end <= rs[j].start)
  }

  ghost predicate Inside(rs: seq<Region>, lo: nat, hi: nat) {
    forall i :: 0 <= i < |rs| ==> lo <= rs[i].start && rs[i].end <= hi
  }

  /** Some region of the list meets the range. */
  ghost predicate Hits(rs: seq<Region>, lo: nat, hi: nat) {
    exists i :: 0 <= i < |rs| && Overlaps(rs[i], lo, hi)
  }

  /** Some region of the list contains `a` strictly inside, so a cut there needs a new entry. */
  ghost predicate Crosses(rs: seq<Region>, a: nat) {
    exists i :: 0 <= i < |rs| && Straddles(rs[i], a)
  }

  function Min(x: nat, y: nat): nat { if x < y then x else y }
  function Max(x: nat, y: nat): nat { if x < y then y else x }

  // ------------------------------------------------------ one region, one cut

  function LeftOf(r: Region, lo: nat): seq<Region> {
    if r.start < lo then [r.(end := Min(r.end, lo))] else []
  }

  function RightOf(r: Region, hi: nat): seq<Region> {
    if r.end > hi then [r.(start := Max(r.start, hi))] else []
  }

  function Middle(r: Region, lo: nat, hi: nat, prot: nat): seq<Region> {
    if Overlaps(r, lo, hi)
    then [Region(Max(r.start, lo), Min(r.end, hi), r.attr.(protection := prot))]
    else []
  }

  /** What is left of a region once [lo, hi) is taken out of it. */
  function Cut(r: Region, lo: nat, hi: nat): seq<Region> {
    LeftOf(r, lo) + RightOf(r, hi)
  }

  /** A region with the part inside [lo, hi) given a new protection. */
  function Paint(r: Region, lo: nat, hi: nat, prot: nat): seq<Region> {
    LeftOf(r, lo) + Middle(r, lo, hi, prot) + RightOf(r, hi)
  }

  ghost function CutAll(rs: seq<Region>, lo: nat, hi: nat): seq<Region> {
    if rs == [] then [] else Cut(rs[0], lo, hi) + CutAll(rs[1..], lo, hi)
  }

  ghost function PaintAll(rs: seq<Region>, lo: nat, hi: nat, prot: nat): seq<Region> {
    if rs == [] then [] else Paint(rs[0], lo, hi, prot) + PaintAll(rs[1..], lo, hi, prot)
  }

  ghost function Painted(o: Option<Attr>, prot: nat): Option<Attr> {
    if o.Some? then Some(o.value.(protection := prot)) else None
  }

  // ------------------------------------------------------------ the meaning At

  lemma {:induction false} AtConcat(xs: seq<Region>, ys: seq<Region>, a: nat)
    ensures At(xs + ys, a) == if At(xs, a).Some? then At(xs, a) else At(ys, a)
  {
    if xs == [] {
      assert xs + ys == ys;
    } else {
      assert (xs + ys)[1..] == xs[1..] + ys;
      AtConcat(xs[1..], ys, a);
    }
  }

  lemma {:induction false} AtSome(rs: seq<Region>, a: nat)
    ensures At(rs, a).Some? <==> exists i :: 0 <= i < |rs| && rs[i].start <= a < rs[i].end
  {
    if rs != [] && !(rs[0].start <= a < rs[0].end) {
      AtSome(rs[1..], a);
      if exists i :: 0 <= i < |rs| && rs[i].start <= a < rs[i].end {
        var i :| 0 <= i < |rs| && rs[i].start <= a < rs[i].end;
        assert rs[1..][i - 1] == rs[i];
      }
    }
  }

  /** In an ordered list the region that covers an address decides its attributes. */
  lemma {:induction false} AtIndex(rs: seq<Region>, i: nat, a: nat)
    requires Ordered(rs) && i < |rs| && rs[i].start <= a < rs[i].end
    ensures At(rs, a) == Some(rs[i].attr)
  {
    if i == 0 {
    } else {
      assert rs[0].end <= rs[i].start;
      AtIndex(rs[1..], i - 1, a);
    }
  }

  lemma AtCut(r: Region, lo: nat, hi: nat, a: nat)
    requires lo < hi
    ensures At(Cut(r, lo, hi), a) == if lo <= a < hi then None else At([r], a)
  {
    AtConcat(LeftOf(r, lo), RightOf(r, hi), a);
  }

  lemma AtPaint(r: Region, lo: nat, hi: nat, prot: nat, a: nat)
    requires lo < hi && r.start < r.end
    ensures At(Paint(r, lo, hi, prot), a)
         == if lo <= a < hi then Painted(At([r], a), prot) else At([r], a)
  {
    AtConcat(LeftOf(r, lo) + Middle(r, lo, hi, prot), RightOf(r, hi), a);
    AtConcat(LeftOf(r, lo), Middle(r, lo, hi, prot), a);
  }

  /** Removing a range: nothing is found inside it and every other address keeps its attributes. */
  lemma {:induction false} CutAllMeaning(rs: seq<Region>, lo: nat, hi: nat, a: nat)
    requires lo < hi
    ensures At(CutAll(rs, lo, hi), a) == if lo <= a < hi then None else At(rs, a)
  {
    if rs == [] {
    } else {
      CutAllMeaning(rs[1..], lo, hi, a);
      AtConcat(Cut(rs[0], lo, hi), CutAll(rs[1..], lo, hi), a);
      AtCut(rs[0], lo, hi, a);
    }
  }

  lemma CutAllEverywhere(rs: seq<Region>, lo: nat, hi: nat)
    requires lo < hi
    ensures forall a: nat :: At(CutAll(rs, lo, hi), a) == if lo <= a < hi then None else At(rs, a)
  {
    forall a: nat ensures At(CutAll(rs, lo, hi), a) == if lo <= a < hi then None else At(rs, a) {
      CutAllMeaning(rs, lo, hi, a);
    }
  }

  /** Protecting a range: exactly the mapped addresses of the range get the new
      protection, and the set of mapped addresses is the same. */
  lemma {:induction false} PaintAllMeaning(rs: seq<Region>, lo: nat, hi: nat, prot: nat, a: nat)
    requires lo < hi && forall i :: 0 <= i < |rs| ==> rs[i].start < rs[i].end
    ensures At(PaintAll(rs, lo, hi, prot), a)
         == if lo <= a < hi then Painted(At(rs, a), prot) else At(rs, a)
  {
    if rs == [] {
    } else {
      PaintAllMeaning(rs[1..], lo, hi, prot, a);
      AtConcat(Paint(rs[0], lo, hi, prot), PaintAll(rs[1..], lo, hi, prot), a);
      AtPaint(rs[0], lo, hi, prot, a);
    }
  }

  lemma HitsMeaning(rs: seq<Region>, lo: nat, hi: nat)
    requires lo < hi && forall i :: 0 <= i < |rs| ==> rs[i].start < rs[i].end
    ensures Hits(rs, lo, hi) <==> exists a :: lo <= a < hi && At(rs, a).Some?
  {
    if Hits(rs, lo, hi) {
      var i :| 0 <= i < |rs| && Overlaps(rs[i], lo, hi);
      var a := Max(rs[i].start, lo);
      AtSome(rs, a);
    }
    forall a | lo <= a < hi && At(rs, a).Some?
      ensures Hits(rs, lo, hi)
    {
      AtSome(rs, a);
      var i :| 0 <= i < |rs| && rs[i].start <= a < rs[i].end;
      assert Overlaps(rs[i], lo, hi);
    }
  }

  // -------------------------------------------------------------------- order

  /** Pieces of one region in front of regions that begin behind it. */
  lemma OrderedJoin(ps: seq<Region>, rs: seq<Region>, hi: nat)
    requires Ordered(ps) && Ordered(rs)
    requires forall i :: 0 <= i < |ps| ==> ps[i].end <= hi
    requires forall i :: 0 <= i < |rs| ==> hi <= rs[i].start
    ensures Ordered(ps + rs)
  {
  }

  lemma OrderedTail(rs: seq<Region>)
    requires Ordered(rs) && rs != []
    ensures Ordered(rs[1..]) && rs[0].start < rs[0].end
    ensures forall i :: 0 <= i < |rs[1..]| ==> rs[0].end <= rs[1..][i].start
  {
    assert forall i :: 0 <= i < |rs[1..]| ==> rs[1..][i] == rs[i + 1];
  }

  lemma InsideTail(rs: seq<Region>, lo: nat, hi: nat)
    requires Inside(rs, lo, hi) && rs != []
    ensures Inside(rs[1..], lo, hi)
  {
    assert forall i :: 0 <= i < |rs[1..]| ==> rs[1..][i] == rs[i + 1];
  }

  // ---------------------------------------------------------- the removal loop

  /** How a loop over the list ended: the list it left, whether every allocation
      succeeded and whether it met an entry in the range. */
  datatype Ran = Ran(ok: bool, found: bool, list: seq<Region>)

  /** A region that reaches beyond both ends of the range must be split to be cut. */
  predicate Encloses(r: Region, lo: nat, hi: nat) {
    r.start < lo && hi < r.end
  }

  ghost predicate AnyEncloses(rs: seq<Region>, lo: nat, hi: nat) {
    exists i :: 0 <= i < |rs| && Encloses(rs[i], lo, hi)
  }

  /** The removal loop over the rest of the list. */
  ghost function CutRun(rs: seq<Region>, lo: nat, hi: nat, allocOk: bool): Ran {
    if rs == [] then Ran(true, false, [])
    else if Encloses(rs[0], lo, hi) && !allocOk then Ran(false, true, rs)
    else
      var r := CutRun(rs[1..], lo, hi, allocOk);
      Ran(r.ok, r.found, Cut(rs[0], lo, hi) + r.list)
  }

  /** The removal loop on its way: what it ends with is `done` and what it makes of `todo`. */
  ghost predicate CutGoing(end: Ran, done: seq<Region>, todo: seq<Region>, lo: nat, hi: nat, allocOk: bool) {
    match end
    case Ran(ok, _, list) =>
      && CutRun(todo, lo, hi, allocOk).ok == ok
      && list == done + CutRun(todo, lo, hi, allocOk).list
      && forall i :: 0 <= i < |todo| ==> todo[i].start < todo[i].end
  }

  lemma CutGoingOn(end: Ran, done: seq<Region>, todo: seq<Region>, lo: nat, hi: nat, allocOk: bool)
    requires todo != [] && CutGoing(end, done, todo, lo, hi, allocOk)
    ensures todo[0].start < todo[0].end && done + todo == done + [todo[0]] + todo[1..]
    ensures if Encloses(todo[0], lo, hi) && !allocOk then !end.ok && end.list == done + todo
            else CutGoing(end, done + Cut(todo[0], lo, hi), todo[1..], lo, hi, allocOk)
  {
    Associative(done, Cut(todo[0], lo, hi), CutRun(todo[1..], lo, hi, allocOk).list);
    FirstApart(done, todo);
  }

  lemma Associative(xs: seq<Region>, ys: seq<Region>, zs: seq<Region>)
    ensures xs + (ys + zs) == (xs + ys) + zs
  {
  }

  lemma FirstApart(done: seq<Region>, todo: seq<Region>)
    requires todo != []
    ensures done + todo == done + [todo[0]] + todo[1..]
  {
  }

  lemma CutShape(r: Region, lo: nat, hi: nat)
    requires lo < hi && r.start < r.end
    ensures Ordered(Cut(r, lo, hi)) && Inside(Cut(r, lo, hi), r.start, r.end)
    ensures !Overlaps(r, lo, hi) ==> Cut(r, lo, hi) == [r]
  {
  }

  lemma {:induction false} CutRunInside(rs: seq<Region>, lo: nat, hi: nat, allocOk: bool, base: nat, limit: nat)
    requires lo < hi && Ordered(rs) && Inside(rs, base, limit)
    ensures Inside(CutRun(rs, lo, hi, allocOk).list, base, limit)
  {
    if rs == [] {
    } else {
      OrderedTail(rs);
      InsideTail(rs, base, limit);
      CutShape(rs[0], lo, hi);
      CutRunInside(rs[1..], lo, hi, allocOk, base, limit);
    }
  }

  lemma {:induction false} CutRunOrdered(rs: seq<Region>, lo: nat, hi: nat, allocOk: bool, limit: nat)
    requires lo < hi && Ordered(rs) && Inside(rs, 0, limit)
    ensures Ordered(CutRun(rs, lo, hi, allocOk).list)
  {
    if rs != [] && !(Encloses(rs[0], lo, hi) && !allocOk) {
      OrderedTail(rs);
      InsideTail(rs, 0, limit);
      CutRunOrdered(rs[1..], lo, hi, allocOk, limit);
      CutRunInside(rs[1..], lo, hi, allocOk, rs[0].end, limit);
      CutShape(rs[0], lo, hi);
      OrderedJoin(Cut(rs[0], lo, hi), CutRun(rs[1..], lo, hi, allocOk).list, rs[0].end);
    }
  }

  lemma NoEnclosure(rs: seq<Region>, lo: nat, hi: nat)
    requires Ordered(rs) && lo < hi && rs != []
    ensures AnyEncloses(rs, lo, hi) <==> Encloses(rs[0], lo, hi) || AnyEncloses(rs[1..], lo, hi)
    ensures Overlaps(rs[0], lo, hi) ==> !AnyEncloses(rs[1..], lo, hi)
  {
    OrderedTail(rs);
    if i :| 0 <= i < |rs| && Encloses(rs[i], lo, hi) && i > 0 {
      assert rs[1..][i - 1] == rs[i];
    }
    if i :| 0 <= i < |rs[1..]| && Encloses(rs[1..][i], lo, hi) {
      assert rs[1..][i] == rs[i + 1];
    }
  }

  /** The removal loop cuts every entry, unless it must split one and cannot
      allocate: then it leaves the list as it was. */
  lemma {:induction false} CutRunMeaning(rs: seq<Region>, lo: nat, hi: nat, allocOk: bool)
    requires lo < hi && Ordered(rs)
    ensures var r := CutRun(rs, lo, hi, allocOk);
            && (r.ok <==> allocOk || !AnyEncloses(rs, lo, hi))
            && r.list == if r.ok then CutAll(rs, lo, hi) else rs
  {
    if rs == [] {
    } else {
      NoEnclosure(rs, lo, hi);
      OrderedTail(rs);
      CutRunMeaning(rs[1..], lo, hi, allocOk);
      CutShape(rs[0], lo, hi);
    }
  }

  /** What a removal loop that ended with `ok` has made of `was`. */
  lemma RemoveMeaning(was: seq<Region>, now: seq<Region>, lo: nat, hi: nat, allocOk: bool, ok: bool, base: nat, limit: nat)
    requires lo < hi && Ordered(was) && Inside(was, base, limit)
    requires var r := CutRun(was, lo, hi, allocOk); ok == r.ok && now == r.list
    ensures Ordered(now) && Inside(now, base, limit)
    ensures ok <==> allocOk || !AnyEncloses(was, lo, hi)
    ensures !ok ==> now == was
    ensures ok ==> forall a: nat :: At(now, a) == if lo <= a < hi then None else At(was, a)
  {
    CutRunMeaning(was, lo, hi, allocOk);
    CutRunInside(was, lo, hi, allocOk, base, limit);
    CutRunOrdered(was, lo, hi, allocOk, limit);
    CutAllEverywhere(was, lo, hi);
  }

  // -------------------------------------------------------- the protection loop

  /** A request to protect [lo, hi); `leftOk` and `rightOk` tell whether an entry
      can be allocated for the split at either end. */
  datatype Job = Job(lo: nat, hi: nat, prot: nat, leftOk: bool, rightOk: bool)

  /** A region split in two at `a`, when `a` lies strictly inside it. */
  function SplitAt(r: Region, a: nat): seq<Region> {
    if Straddles(r, a) then [r.(end := a), r.(start := a)] else [r]
  }

  /** Two regions between the same neighbours, read from either side. */
  lemma Regrouped(done: seq<Region>, x: Region, y: Region, rest: seq<Region>)
    ensures done + [x] + ([y] + rest) == (done + [x]) + [y] + rest
  {
  }

  /** The part of a region from `lo` on. */
  function From(r: Region, lo: nat): Region {
    r.(start := Max(r.start, lo))
  }

  /** The part of a region up to `hi`. */
  function UpTo(r: Region, hi: nat): Region {
    r.(end := Min(r.end, hi))
  }

  /** The protection loop over the rest of the list. */
  ghost function PaintRun(rs: seq<Region>, job: Job): Ran {
    if rs == [] then Ran(true, false, [])
    else if !Overlaps(rs[0], job.lo, job.hi) then
      var r := PaintRun(rs[1..], job);
      Ran(r.ok, r.found, [rs[0]] + r.list)
    else if Straddles(rs[0], job.lo) && !job.leftOk then Ran(false, true, rs)
    else if Straddles(rs[0], job.hi) && !job.rightOk then Ran(false, true, SplitAt(rs[0], job.lo) + rs[1..])
    else
      var r := PaintRun(rs[1..], job);
      Ran(r.ok, true, Paint(rs[0], job.lo, job.hi, job.prot) + r.list)
  }

  /** What the loop does with one region that meets the range, in terms of its splits. */
  lemma PaintRunOne(r: Region, job: Job)
    requires job.lo < job.hi && r.start < r.end && Overlaps(r, job.lo, job.hi)
    ensures var run := PaintRun([r], job); var m := UpTo(From(r, job.lo), job.hi);
            && (run.ok <==> (job.leftOk || !Straddles(r, job.lo)) && (job.rightOk || !Straddles(From(r, job.lo), job.hi)))
            && (!run.ok && !job.leftOk && Straddles(r, job.lo) ==> run.list == [r])
            && (!run.ok && (job.leftOk || !Straddles(r, job.lo)) ==> run.list == LeftOf(r, job.lo) + [From(r, job.lo)])
            && Middle(r, job.lo, job.hi, job.prot) == [m.(attr := m.attr.(protection := job.prot))]
            && RightOf(From(r, job.lo), job.hi) == RightOf(r, job.hi)
  {
    assert [r][1..] == [];
    assert PaintRun([], job) == Ran(true, false, []);
    assert SplitAt(r, job.lo) + [] == SplitAt(r, job.lo);
  }

  lemma PaintShape(r: Region, lo: nat, hi: nat, prot: nat)
    requires lo < hi && r.start < r.end
    ensures Ordered(Paint(r, lo, hi, prot)) && Inside(Paint(r, lo, hi, prot), r.start, r.end)
    ensures !Overlaps(r, lo, hi) ==> Paint(r, lo, hi, prot) == [r]
  {
    if Overlaps(r, lo, hi) {
      OrderedJoin(LeftOf(r, lo), Middle(r, lo, hi, prot), Max(r.start, lo));
      OrderedJoin(LeftOf(r, lo) + Middle(r, lo, hi, prot), RightOf(r, hi), Min(r.end, hi));
    } else {
      assert Middle(r, lo, hi, prot) == [];
      assert Paint(r, lo, hi, prot) == [r];
    }
  }

  lemma SplitShape(r: Region, lo: nat)
    requires r.start < r.end
    ensures Ordered(SplitAt(r, lo)) && Inside(SplitAt(r, lo), r.start, r.end)
  {
  }

  lemma InsideJoin(xs: seq<Region>, ys: seq<Region>, lo: nat, hi: nat)
    requires Inside(xs, lo, hi) && Inside(ys, lo, hi)
    ensures Inside(xs + ys, lo, hi)
  {
  }

  lemma {:induction false} PaintRunInside(rs: seq<Region>, job: Job, base: nat, limit: nat)
    requires job.lo < job.hi && Ordered(rs) && Inside(rs, base, limit)
    ensures Inside(PaintRun(rs, job).list, base, limit)
  {
    if rs == [] {
    } else {
      OrderedTail(rs);
      InsideTail(rs, base, limit);
      PaintShape(rs[0], job.lo, job.hi, job.prot);
      SplitShape(rs[0], job.lo);
      PaintRunInside(rs[1..], job, base, limit);
      var rest := PaintRun(rs[1..], job).list;
      InsideJoin(Paint(rs[0], job.lo, job.hi, job.prot), rest, base, limit);
      InsideJoin(SplitAt(rs[0], job.lo), rs[1..], base, limit);
      InsideJoin([rs[0]], rest, base, limit);
    }
  }

  lemma {:induction false} PaintRunOrdered(rs: seq<Region>, job: Job, limit: nat)
    requires job.lo < job.hi && Ordered(rs) && Inside(rs, 0, limit)
    ensures Ordered(PaintRun(rs, job).list)
  {
    if rs == [] {
    } else {
      OrderedTail(rs);
      InsideTail(rs, 0, limit);
      PaintRunOrdered(rs[1..], job, limit);
      PaintRunInside(rs[1..], job, rs[0].end, limit);
      PaintShape(rs[0], job.lo, job.hi, job.prot);
      SplitShape(rs[0], job.lo);
      var rest := PaintRun(rs[1..], job).list;
      OrderedJoin(Paint(rs[0], job.lo, job.hi, job.prot), rest, rs[0].end);
      OrderedJoin(SplitAt(rs[0], job.lo), rs[1..], rs[0].end);
    }
  }

  lemma HeadOrRest(rs: seq<Region>, lo: nat, hi: nat)
    requires rs != []
    ensures Hits(rs, lo, hi) <==> Overlaps(rs[0], lo, hi) || Hits(rs[1..], lo, hi)
  {
    if i :| 0 <= i < |rs| && Overlaps(rs[i], lo, hi) && i > 0 { assert rs[1..][i - 1] == rs[i]; }
    if i :| 0 <= i < |rs[1..]| && Overlaps(rs[1..][i], lo, hi) { assert rs[1..][i] == rs[i + 1]; }
  }

  lemma CrossesHeadOrRest(rs: seq<Region>, a: nat)
    requires rs != []
    ensures Crosses(rs, a) <==> Straddles(rs[0], a) || Crosses(rs[1..], a)
  {
    if i :| 0 <= i < |rs| && Straddles(rs[i], a) && i > 0 { assert rs[1..][i - 1] == rs[i]; }
    if i :| 0 <= i < |rs[1..]| && Straddles(rs[1..][i], a) { assert rs[1..][i] == rs[i + 1]; }
  }

  /** Behind a region that ends above `a` no other region crosses `a`. */
  lemma NoLaterCrossing(rs: seq<Region>, a: nat)
    requires Ordered(rs) && rs != [] && a <= rs[0].end
    ensures !Crosses(rs[1..], a)
  {
    OrderedTail(rs);
  }

  /** The protection loop gets through unless it needs an entry that cannot be allocated. */
  lemma {:induction false} PaintRunOk(rs: seq<Region>, job: Job)
    requires job.lo < job.hi && forall i :: 0 <= i < |rs| ==> rs[i].start < rs[i].end
    ensures PaintRun(rs, job).ok <==>
            (job.leftOk || !Crosses(rs, job.lo)) && (job.rightOk || !Crosses(rs, job.hi))
  {
    if rs == [] {
    } else {
      CrossesHeadOrRest(rs, job.lo);
      CrossesHeadOrRest(rs, job.hi);
      PaintRunOk(rs[1..], job);
    }
  }

  /** A completed protection loop repainted every entry, and met one if there is one in the range. */
  lemma {:induction false} PaintRunDone(rs: seq<Region>, job: Job)
    requires job.lo < job.hi && (forall i :: 0 <= i < |rs| ==> rs[i].start < rs[i].end) && PaintRun(rs, job).ok
    ensures PaintRun(rs, job).list == PaintAll(rs, job.lo, job.hi, job.prot)
    ensures PaintRun(rs, job).found <==> Hits(rs, job.lo, job.hi)
  {
    if rs == [] {
    } else {
      HeadOrRest(rs, job.lo, job.hi);
      PaintRunDone(rs[1..], job);
      PaintShape(rs[0], job.lo, job.hi, job.prot);
    }
  }

  lemma {:induction false} PaintRunNothing(rs: seq<Region>, job: Job)
    requires !PaintRun(rs, job).found
    ensures PaintRun(rs, job).list == rs
  {
    if rs == [] {
    } else {
      PaintRunNothing(rs[1..], job);
    }
  }

  /** If the entry for the left split cannot be allocated nothing changes. */
  lemma {:induction false} PaintRunNoLeft(rs: seq<Region>, job: Job)
    requires job.lo < job.hi && Ordered(rs) && !job.leftOk && Crosses(rs, job.lo)
    ensures PaintRun(rs, job).list == rs
  {
    CrossesHeadOrRest(rs, job.lo);
    if !Straddles(rs[0], job.lo) {
      OrderedTail(rs);
      if job.lo <= rs[0].end {
        NoLaterCrossing(rs, job.lo);
      } else {
        PaintRunNoLeft(rs[1..], job);
      }
    }
  }

  lemma SplitMeaning(r: Region, lo: nat, a: nat)
    ensures At(SplitAt(r, lo), a) == At([r], a)
  {
    AtConcat([r.(end := lo)], [r.(start := lo)], a);
    assert [r.(end := lo)] + [r.(start := lo)] == [r.(end := lo), r.(start := lo)];
  }

  /** Whatever its outcome, the protection loop changes nothing but the protection
      of mapped addresses inside the range. */
  lemma {:induction false} PaintRunPartly(rs: seq<Region>, job: Job, a: nat)
    requires job.lo < job.hi && Ordered(rs)
    ensures var now := At(PaintRun(rs, job).list, a);
            now == At(rs, a) || (job.lo <= a < job.hi && now == Painted(At(rs, a), job.prot))
  {
    if rs == [] {
    } else {
      OrderedTail(rs);
      PaintRunPartly(rs[1..], job, a);
      AtPaint(rs[0], job.lo, job.hi, job.prot, a);
      SplitMeaning(rs[0], job.lo, a);
      var rest := PaintRun(rs[1..], job).list;
      AtConcat(Paint(rs[0], job.lo, job.hi, job.prot), rest, a);
      AtConcat([rs[0]], rest, a);
      AtConcat(SplitAt(rs[0], job.lo), rs[1..], a);
      AtConcat([rs[0]], rs[1..], a);
      assert [rs[0]] + rs[1..] == rs;
    }
  }

  /** A right-hand remainder is passed over. */
  lemma PaintRunRight(r: Region, rest: seq<Region>, job: Job)
    requires job.lo < job.hi
    ensures var t := PaintRun(rest, job); var u := PaintRun(RightOf(r, job.hi) + rest, job);
            u.ok == t.ok && u.found == t.found && u.list == RightOf(r, job.hi) + t.list
  {
    if r.end > job.hi {
      var q := r.(start := Max(r.start, job.hi));
      assert ([q] + rest)[1..] == rest;
    } else {
      assert RightOf(r, job.hi) + rest == rest;
    }
  }

  /** Bounds the turns of the protection loop: an entry it splits is visited twice. */
  ghost function Turns(rs: seq<Region>, lo: nat, hi: nat): nat {
    if rs == [] then 0 else (if Overlaps(rs[0], lo, hi) then 2 else 1) + Turns(rs[1..], lo, hi)
  }

  /** The protection loop on its way: what it ends with is `done` and what it makes of `todo`. */
  ghost predicate PaintGoing(end: Ran, done: seq<Region>, todo: seq<Region>, job: Job, found: bool) {
    match end
    case Ran(ok, endFound, list) =>
      var t := PaintRun(todo, job);
      && t.ok == ok && list == done + t.list
      && (found || t.found <==> endFound)
      && forall i :: 0 <= i < |todo| ==> todo[i].start < todo[i].end
  }

  lemma PaintGoingPast(end: Ran, done: seq<Region>, todo: seq<Region>, job: Job, found: bool)
    requires todo != [] && PaintGoing(end, done, todo, job, found) && !Overlaps(todo[0], job.lo, job.hi)
    ensures PaintGoing(end, done + [todo[0]], todo[1..], job, found)
  {
    Associative(done, [todo[0]], PaintRun(todo[1..], job).list);
  }

  /** Stopping at the head of `todo`, when an allocation fails there. */
  lemma PaintGoingStop(end: Ran, done: seq<Region>, todo: seq<Region>, job: Job, found: bool)
    requires todo != [] && PaintGoing(end, done, todo, job, found) && !PaintRun([todo[0]], job).ok
    ensures !end.ok && end.list == done + PaintRun([todo[0]], job).list + todo[1..]
  {
    assert [todo[0]] + todo[1..] == todo;
    Associative(done, SplitAt(todo[0], job.lo), todo[1..]);
    assert SplitAt(todo[0], job.lo) + [] == SplitAt(todo[0], job.lo);
    FirstApart(done, todo);
  }

  /** Going on behind the repainted piece of the head of `todo`. */
  lemma PaintRunFirst(rs: seq<Region>, job: Job)
    requires rs != [] && Overlaps(rs[0], job.lo, job.hi) && PaintRun([rs[0]], job).ok
    ensures var r, t := PaintRun(rs, job), PaintRun(rs[1..], job);
            r == Ran(t.ok, true, Paint(rs[0], job.lo, job.hi, job.prot) + t.list)
  {
  }

  lemma FivePieces(a: seq<Region>, b: seq<Region>, c: seq<Region>, d: seq<Region>, e: seq<Region>)
    ensures a + ((b + c + d) + e) == (a + b + c) + (d + e)
  {
  }

  lemma PaintGoingOn(end: Ran, done: seq<Region>, todo: seq<Region>, job: Job, found: bool)
    requires todo != [] && PaintGoing(end, done, todo, job, found) && Overlaps(todo[0], job.lo, job.hi)
    requires PaintRun([todo[0]], job).ok && job.lo < job.hi
    ensures var r := todo[0];
            PaintGoing(end, done + LeftOf(r, job.lo) + Middle(r, job.lo, job.hi, job.prot),
                       RightOf(r, job.hi) + todo[1..], job, true)
  {
    var r, rest := todo[0], todo[1..];
    var left, middle, right := LeftOf(r, job.lo), Middle(r, job.lo, job.hi, job.prot), RightOf(r, job.hi);
    PaintRunRight(r, rest, job);
    var t := PaintRun(rest, job);
    PaintRunFirst(todo, job);
    FivePieces(done, left, middle, right, t.list);
    assert forall i :: 0 <= i < |rest| ==> rest[i] == todo[i + 1];
  }

  lemma TurnsFall(r: Region, rest: seq<Region>, lo: nat, hi: nat)
    requires lo < hi
    ensures Turns(RightOf(r, hi) + rest, lo, hi) <= 1 + Turns(rest, lo, hi)
  {
    if r.end > hi {
      assert ([r.(start := Max(r.start, hi))] + rest)[1..] == rest;
    } else {
      assert RightOf(r, hi) + rest == rest;
    }
  }

  lemma PaintAllEverywhere(rs: seq<Region>, lo: nat, hi: nat, prot: nat)
    requires lo < hi && Ordered(rs)
    ensures forall a: nat :: At(PaintAll(rs, lo, hi, prot), a)
                          == if lo <= a < hi then Painted(At(rs, a), prot) else At(rs, a)
  {
    forall a: nat
      ensures At(PaintAll(rs, lo, hi, prot), a) == if lo <= a < hi then Painted(At(rs, a), prot) else At(rs, a)
    {
      PaintAllMeaning(rs, lo, hi, prot, a);
    }
  }

  /** The outcome of the protection loop on an ordered list. */
  lemma PaintRunFacts(rs: seq<Region>, job: Job, base: nat, limit: nat)
    requires job.lo < job.hi && Ordered(rs) && Inside(rs, base, limit)
    ensures var r := PaintRun(rs, job);
            && Ordered(r.list) && Inside(r.list, base, limit)
            && (r.ok <==> (job.leftOk || !Crosses(rs, job.lo)) && (job.rightOk || !Crosses(rs, job.hi)))
            && (r.ok ==> (r.found <==> exists a :: job.lo <= a < job.hi && At(rs, a).Some?))
            && (r.ok ==> forall a: nat ::
                  At(r.list, a) == if job.lo <= a < job.hi then Painted(At(rs, a), job.prot) else At(rs, a))
            && ((r.ok && !r.found) || (!job.leftOk && Crosses(rs, job.lo)) ==> r.list == rs)
            && (forall a: nat :: At(r.list, a) == At(rs, a)
                  || (job.lo <= a < job.hi && At(r.list, a) == Painted(At(rs, a), job.prot)))
  {
    var r := PaintRun(rs, job);
    PaintRunOrdered(rs, job, limit);
    PaintRunInside(rs, job, base, limit);
    PaintRunOk(rs, job);
    forall a: nat
      ensures At(r.list, a) == At(rs, a) || (job.lo <= a < job.hi && At(r.list, a) == Painted(At(rs, a), job.prot))
    {
      PaintRunPartly(rs, job, a);
    }
    if r.ok {
      PaintRunDone(rs, job);
      HitsMeaning(rs, job.lo, job.hi);
      PaintAllEverywhere(rs, job.lo, job.hi, job.prot);
    }
    if !r.found { PaintRunNothing(rs, job); }
    if !job.leftOk && Crosses(rs, job.lo) { PaintRunNoLeft(rs, job); }
  }

  /** What a run that left the list `now` and reported `ok` and `found` has done. */
  lemma PaintRunMeaning(was: seq<Region>, now: seq<Region>, job: Job, ok: bool, found: bool, base: nat, limit: nat)
    requires job.lo < job.hi && Ordered(was) && Inside(was, base, limit)
    requires var r := PaintRun(was, job); ok == r.ok && now == r.list && (ok ==> found == r.found)
    ensures Ordered(now) && Inside(now, base, limit)
    ensures ok <==> !((!job.leftOk && Crosses(was, job.lo)) || (!job.rightOk && Crosses(was, job.hi)))
    ensures ok ==> (!found <==> forall a: nat :: job.lo <= a < job.hi ==> At(was, a).None?)
    ensures ok ==> forall a: nat ::
              At(now, a) == if job.lo <= a < job.hi then Painted(At(was, a), job.prot) else At(was, a)
    ensures (ok && !found) || (!job.leftOk && Crosses(was, job.lo)) ==> now == was
    ensures forall a: nat :: At(now, a) == At(was, a)
              || (job.lo <= a < job.hi && At(now, a) == Painted(At(was, a), job.prot))
    ensures forall a: nat :: At(now, a).Some? <==> At(was, a).Some?
  {
    PaintRunFacts(was, job, base, limit);
  }

  // ------------------------------------------------------------- finding room

  /** The range [a, a + n) meets no region. */
  ghost predicate Fits(rs: seq<Region>, a: nat, n: nat) {
    forall i :: 0 <= i < |rs| ==> !Overlaps(rs[i], a, a + n)
  }

  /** An ordered list stays ordered when a region is put where it fits. */
  lemma InsertOrdered(rs: seq<Region>, k: nat, r: Region)
    requires Ordered(rs) && k <= |rs| && r.start < r.end && Fits(rs, r.start, r.end - r.start)
    requires forall i :: 0 <= i < k ==> rs[i].start < r.start
    requires k < |rs| ==> r.start <= rs[k].start
    ensures Ordered(rs[..k] + [r] + rs[k..])
  {
    forall i | 0 <= i < |rs| ensures if i < k then rs[i].end <= r.start else r.end <= rs[i].start {
      assert !Overlaps(rs[i], r.start, r.end);
      if k < i { assert rs[k].end <= rs[i].start; }
    }
    InsertedOrdered(rs, k, r, rs[..k] + [r] + rs[k..]);
  }

  lemma InsertedOrdered(rs: seq<Region>, k: nat, r: Region, ss: seq<Region>)
    requires Ordered(rs) && k <= |rs| && r.start < r.end && |ss| == |rs| + 1
    requires forall i :: 0 <= i < |rs| ==> if i < k then rs[i].end <= r.start else r.end <= rs[i].start
    requires forall i {:trigger ss[i]} :: 0 <= i < |ss| ==> ss[i] == if i < k then rs[i] else if i == k then r else rs[i - 1]
    ensures Ordered(ss)
  {
    forall i | 0 <= i < |ss| ensures ss[i].start < ss[i].end {
      if i > k { assert ss[i] == rs[i - 1]; }
    }
    forall i, j | 0 <= i < j < |ss| ensures ss[i].end <= ss[j].start {
      if j < k {
        assert ss[i] == rs[i] && ss[j] == rs[j];
      } else if i > k {
        assert ss[i] == rs[i - 1] && ss[j] == rs[j - 1];
      } else if j > k {
        assert ss[j] == rs[j - 1] && r.end <= rs[j - 1].start;
        if i < k { assert ss[i] == rs[i] && rs[i].end <= r.start; }
      }
    }
  }

  /** Exactly the addresses of the new region change their meaning. */
  lemma InsertMeaning(rs: seq<Region>, k: nat, r: Region, a: nat)
    requires k <= |rs| && r.start < r.end && Fits(rs, r.start, r.end - r.start)
    ensures At(rs[..k] + [r] + rs[k..], a) == if r.start <= a < r.end then Some(r.attr) else At(rs, a)
  {
    assert rs == rs[..k] + rs[k..];
    AtConcat(rs[..k], rs[k..], a);
    AtConcat(rs[..k] + [r], rs[k..], a);
    AtConcat(rs[..k], [r], a);
    AtSome(rs, a);
    if r.start <= a < r.end && At(rs, a).Some? {
      var i :| 0 <= i < |rs| && rs[i].start <= a < rs[i].end;
      assert Overlaps(rs[i], r.start, r.end);
    }
  }

  lemma InsertEverywhere(rs: seq<Region>, k: nat, r: Region)
    requires k <= |rs| && r.start < r.end && Fits(rs, r.start, r.end - r.start)
    ensures forall a: nat :: At(rs[..k] + [r] + rs[k..], a) == if r.start <= a < r.end then Some(r.attr) else At(rs, a)
  {
    forall a: nat
      ensures At(rs[..k] + [r] + rs[k..], a) == if r.start <= a < r.end then Some(r.attr) else At(rs, a)
    {
      InsertMeaning(rs, k, r, a);
    }
  }

  lemma InsertFacts(rs: seq<Region>, k: nat, r: Region, base: nat, limit: nat)
    requires Ordered(rs) && Inside(rs, base, limit) && k <= |rs|
    requires base <= r.start < r.end <= limit && Fits(rs, r.start, r.end - r.start)
    requires forall i :: 0 <= i < k ==> rs[i].start < r.start
    requires k < |rs| ==> r.start <= rs[k].start
    ensures var ss := rs[..k] + [r] + rs[k..]; Ordered(ss) && Inside(ss, base, limit)
    ensures rs == rs[..k] + rs[k..]
  {
    InsertOrdered(rs, k, r);
  }

  // --------------------------------------------------- removing what was entered

  /** No region meets the range. */
  ghost predicate Apart(rs: seq<Region>, lo: nat, hi: nat) {
    forall i :: 0 <= i < |rs| ==> rs[i].start < rs[i].end && !Overlaps(rs[i], lo, hi)
  }

  lemma {:induction false} CutAllIdle(rs: seq<Region>, lo: nat, hi: nat)
    requires lo < hi && Apart(rs, lo, hi)
    ensures CutAll(rs, lo, hi) == rs
  {
    if rs == [] {
    } else {
      CutAllIdle(rs[1..], lo, hi);
      assert Cut(rs[0], lo, hi) == [rs[0]];
    }
  }

  lemma CutAllFirst(x: Region, rest: seq<Region>, lo: nat, hi: nat)
    ensures CutAll([x] + rest, lo, hi) == Cut(x, lo, hi) + CutAll(rest, lo, hi)
  {
    assert ([x] + rest)[1..] == rest;
  }

  lemma FirstOf(xs: seq<Region>, ys: seq<Region>)
    requires xs != []
    ensures [xs[0]] + (xs[1..] + ys) == xs + ys
  {
  }

  lemma {:induction false} CutBetween(xs: seq<Region>, r: Region, ys: seq<Region>)
    requires r.start < r.end && Apart(xs, r.start, r.end) && Apart(ys, r.start, r.end)
    ensures CutAll(xs + ([r] + ys), r.start, r.end) == xs + ys
    decreases |xs|
  {
    if xs == [] {
      assert [] + ([r] + ys) == [r] + ys;
      CutAllFirst(r, ys, r.start, r.end);
      CutAllIdle(ys, r.start, r.end);
    } else {
      FirstOf(xs, [r] + ys);
      CutAllFirst(xs[0], xs[1..] + ([r] + ys), r.start, r.end);
      CutBetween(xs[1..], r, ys);
      FirstOf(xs, ys);
    }
  }

  /** Cutting out the range of a region that was put where it fits restores the list. */
  lemma CutUndoesInsert(rs: seq<Region>, k: nat, r: Region)
    requires Ordered(rs) && k <= |rs| && r.start < r.end && Fits(rs, r.start, r.end - r.start)
    ensures CutAll(rs[..k] + [r] + rs[k..], r.start, r.end) == rs
  {
    assert Apart(rs, r.start, r.end);
    assert rs[..k] + rs[k..] == rs && rs[..k] + [r] + rs[k..] == rs[..k] + ([r] + rs[k..]);
    CutBetween(rs[..k], r, rs[k..]);
  }
}
