/** Sequences of different numbers, and how long they can be. */
module Distinctness {

  ghost predicate Distinct(s: seq<nat>) {
    forall i, j :: 0 <= i < j < |s| ==> s[i] != s[j]
  }

  ghost function Elems(s: seq<nat>): set<nat> {
    if s == [] then {} else Elems(s[..|s| - 1]) + {s[|s| - 1]}
  }

  ghost function Below(n: nat): set<nat> {
    if n == 0 then {} else Below(n - 1) + {n - 1}
  }

  lemma {:induction false} ElemsIn(s: seq<nat>, f: nat)
    ensures f in Elems(s) <==> f in s
  {
    if s == [] {
    } else {
      ElemsIn(s[..|s| - 1], f);
      assert s == s[..|s| - 1] + [s[|s| - 1]];
    }
  }

  lemma {:induction false} ElemsSize(s: seq<nat>)
    requires Distinct(s)
    ensures |Elems(s)| == |s|
  {
    if s == [] {
    } else {
      ElemsSize(s[..|s| - 1]);
      ElemsIn(s[..|s| - 1], s[|s| - 1]);
    }
  }

  lemma {:induction false} BelowIn(n: nat, f: nat)
    ensures f in Below(n) <==> f < n
    ensures |Below(n)| == n
  {
    if n == 0 {
    } else {
      BelowIn(n - 1, f);
      BelowIn(n - 1, n - 1);
    }
  }

  lemma {:induction false} SubsetSize(a: set<nat>, b: set<nat>)
    requires a <= b
    ensures |a| <= |b|
  {
    if a != {} {
      var x :| x in a;
      SubsetSize(a - {x}, b - {x});
    }
  }

  /** At most `n` different numbers are below `n`. */
  lemma Pigeonhole(s: seq<nat>, n: nat)
    requires Distinct(s) && forall i :: 0 <= i < |s| ==> s[i] < n
    ensures |s| <= n
  {
    ElemsSize(s);
    BelowIn(n, 0);
    forall f | f in Elems(s) ensures f in Below(n) {
      ElemsIn(s, f);
      BelowIn(n, f);
    }
    SubsetSize(Elems(s), Below(n));
  }
}
