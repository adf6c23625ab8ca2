/** What the nodes' tables are meant to say about the set of members: the
    reference definitions that the program's answers are compared with. */
module Membership {
  import opened RingArithmetic

  /** f is the member nearest clockwise from n among those at least lo steps away. */
  ghost predicate IsFinger(s: set<Point>, n: Point, lo: int, f: Point) {
    && f in s
    && lo <= Distance(n, f)
    && forall x :: x in s && lo <= Distance(n, x) ==> Distance(n, f) <= Distance(n, x)
  }

  /** r is the first member met clockwise from key, key itself included. */
  ghost predicate IsSuccessor(s: set<Point>, key: Point, r: Point) {
    r in s && forall x :: x in s ==> Gap(key, r) <= Gap(key, x)
  }

  /** p is the last member met before n; a sole member precedes itself. */
  ghost predicate IsPredecessor(s: set<Point>, n: Point, p: Point) {
    p in s && forall x :: x in s ==> Distance(p, n) <= Distance(x, n)
  }

  lemma {:induction false} SuccessorExists(s: set<Point>, key: Point)
    requires s != {}
    ensures exists r :: IsSuccessor(s, key, r)
  {
    var p :| p in s;
    var rest := s - {p};
    if rest == {} {
      assert s == {p};
      assert IsSuccessor(s, key, p);
    } else {
      SuccessorExists(rest, key);
      var r :| IsSuccessor(rest, key, r);
      var best := if Gap(key, r) <= Gap(key, p) then r else p;
      assert forall x :: x in s ==> x == p || x in rest;
      assert IsSuccessor(s, key, best);
    }
  }

  lemma {:induction false} PredecessorExists(s: set<Point>, n: Point)
    requires s != {}
    ensures exists p :: IsPredecessor(s, n, p)
  {
    var q :| q in s;
    var rest := s - {q};
    if rest == {} {
      assert s == {q};
      assert IsPredecessor(s, n, q);
    } else {
      PredecessorExists(rest, n);
      var p :| IsPredecessor(rest, n, p);
      var best := if Distance(p, n) <= Distance(q, n) then p else q;
      assert forall x :: x in s ==> x == q || x in rest;
      assert IsPredecessor(s, n, best);
    }
  }

  ghost function Successor(s: set<Point>, key: Point): (r: Point)
    requires s != {}
    ensures IsSuccessor(s, key, r)
  {
    SuccessorExists(s, key);
    var r :| IsSuccessor(s, key, r);
    r
  }

  ghost function Predecessor(s: set<Point>, n: Point): (p: Point)
    requires s != {}
    ensures IsPredecessor(s, n, p)
  {
    PredecessorExists(s, n);
    var p :| IsPredecessor(s, n, p);
    p
  }

  lemma SuccessorUnique(s: set<Point>, key: Point, r: Point)
    requires IsSuccessor(s, key, r)
    ensures r == Successor(s, key)
  {
  }

  /** The finger at least lo steps from n is the successor of the point n + lo. */
  lemma FingerIsSuccessor(s: set<Point>, n: Point, lo: int, f: Point)
    requires n in s && 1 <= lo < TOTAL_HASH_POINTS
    ensures IsFinger(s, n, lo, f) <==> IsSuccessor(s, HashAdd(n, lo), f)
  {
  }
}
