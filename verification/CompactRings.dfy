/** Members that all fit in less than half the circle.  From such a set, exactly the
    joins that keep it so leave every lookup answered and every finger right. */
module CompactRings {
  import opened RingArithmetic
  import opened Membership
  import opened NodeState
  import opened Joining
  import opened Liveness

  /** Every member is less than half a circle clockwise from a. */
  ghost predicate FitsFrom(s: set<Point>, a: Point) {
    forall x :: x in s ==> 2 * Gap(a, x) < TOTAL_HASH_POINTS
  }

  ghost predicate Compact(s: set<Point>) {
    exists a :: a in s && FitsFrom(s, a)
  }

  lemma SoleIsCompact(first: Point)
    ensures Compact({first})
  {
    assert FitsFrom({first}, first);
  }

  /** Fewer members are compact too. */
  lemma FewerIsCompact(s: set<Point>, t: set<Point>)
    requires Compact(s) && t <= s && t != {}
    ensures Compact(t)
  {
    var a :| a in s && FitsFrom(s, a);
    var b := Successor(t, a);
    forall x | x in t
      ensures 2 * Gap(b, x) < TOTAL_HASH_POINTS
    {
      assert Gap(a, b) <= Gap(a, x) && x in s;
    }
    assert FitsFrom(t, b);
  }

  lemma HalfIsHalf()
    ensures 2 * Pow2(FINGER_TABLE_LENGTH - 1) == TOTAL_HASH_POINTS
  {
    Pow2BelowCircle(FINGER_TABLE_LENGTH - 1);
  }

  // ---------- a joiner that keeps to the first member's half ----------

  lemma NearWalk(s: set<Point>, a: Point, joiner: Point)
    requires a in s && FitsFrom(s, a) && joiner !in s && 2 * Gap(a, joiner) < TOTAL_HASH_POINTS
    ensures WalkStart(s, joiner) == a
  {
    HalfIsHalf();
    assert IsSuccessor(s, HalfBack(joiner), a);
    SuccessorUnique(s, HalfBack(joiner), a);
  }

  /** Members before it are visited, those behind it shielded. */
  lemma NearMember(s: set<Point>, a: Point, joiner: Point, n: Point)
    requires a in s && FitsFrom(s, a) && joiner !in s && 2 * Gap(a, joiner) < TOTAL_HASH_POINTS && n in s
    ensures Visited(s, joiner, n) || Pow2(FINGER_TABLE_LENGTH - 1) <= Distance(n, Predecessor(s, joiner))
  {
    HalfIsHalf();
    NearWalk(s, a, joiner);
    var p := Predecessor(s, joiner);
    assert Distance(p, joiner) <= Distance(a, joiner);
  }

  lemma NearJoin(s: set<Point>, a: Point, joiner: Point)
    requires a in s && FitsFrom(s, a) && joiner !in s && 2 * Gap(a, joiner) < TOTAL_HASH_POINTS
    ensures Compact(s + {joiner}) && SuccessorInformed(s, joiner) && MissedShielded(s, joiner)
  {
    assert FitsFrom(s + {joiner}, a);
    forall n | n in s
      ensures Visited(s, joiner, n) || Pow2(FINGER_TABLE_LENGTH - 1) <= Distance(n, Predecessor(s, joiner))
    {
      NearMember(s, a, joiner, n);
    }
  }

  // ---------- a joiner in the other half ----------

  lemma FarSuccessor(s: set<Point>, a: Point, joiner: Point)
    requires a in s && FitsFrom(s, a) && TOTAL_HASH_POINTS <= 2 * Gap(a, joiner)
    ensures Successor(s, joiner) == a
  {
    assert IsSuccessor(s, joiner, a);
    SuccessorUnique(s, joiner, a);
  }

  /** All members lie in its own half: the walk visits them all. */
  lemma FarJoinFits(s: set<Point>, a: Point, joiner: Point)
    requires a in s && FitsFrom(s, a) && joiner !in s && TOTAL_HASH_POINTS <= 2 * Gap(a, joiner)
    requires FitsFrom(s + {joiner}, joiner)
    ensures Compact(s + {joiner}) && SuccessorInformed(s, joiner) && MissedShielded(s, joiner)
  {
    HalfIsHalf();
    assert joiner in s + {joiner};
    FarSuccessor(s, a, joiner);
    assert IsSuccessor(s, HalfBack(joiner), a);
    SuccessorUnique(s, HalfBack(joiner), a);
  }

  /** Some do not: the walk begins behind the first, which nothing shields. */
  lemma FarJoinDoesNot(s: set<Point>, a: Point, joiner: Point, x: Point)
    requires a in s && FitsFrom(s, a) && joiner !in s && TOTAL_HASH_POINTS <= 2 * Gap(a, joiner)
    requires x in s && TOTAL_HASH_POINTS <= 2 * Gap(joiner, x) && HalfBack(joiner) !in s
    ensures !SuccessorInformed(s, joiner)
  {
    HalfIsHalf();
    FarSuccessor(s, a, joiner);
    var w, p := WalkStart(s, joiner), Predecessor(s, joiner);
    assert Gap(HalfBack(joiner), w) <= Gap(HalfBack(joiner), x);
    assert w != a;
  }

  lemma FarJoinNotCompact(s: set<Point>, a: Point, joiner: Point, x: Point)
    requires a in s && FitsFrom(s, a) && joiner !in s && TOTAL_HASH_POINTS <= 2 * Gap(a, joiner)
    requires x in s && TOTAL_HASH_POINTS <= 2 * Gap(joiner, x)
    ensures !Compact(s + {joiner})
  {
    forall b | b in s + {joiner}
      ensures !FitsFrom(s + {joiner}, b)
    {
      assert a in s + {joiner} && x in s + {joiner} && joiner in s + {joiner};
    }
  }

  // ---------- the step ----------

  /** Half a circle back and half a circle on are the same point, a target. */
  lemma HalfBackIsTarget(s: set<Point>, joiner: Point)
    requires TargetsFree(s, joiner)
    ensures HalfBack(joiner) !in s
  {
    HalfIsHalf();
    assert HalfBack(joiner) == Target(joiner, FINGER_TABLE_LENGTH - 1);
  }

  /** The successor is a member: shielded or visited like any other. */
  lemma NotInformedNotShielded(s: set<Point>, joiner: Point)
    requires s != {} && !SuccessorInformed(s, joiner)
    ensures !MissedShielded(s, joiner)
  {
  }

  /** The three conditions agree. */
  ghost predicate AllAgree(s: set<Point>, joiner: Point)
    requires s != {}
  {
    && (SuccessorInformed(s, joiner) <==> Compact(s + {joiner}))
    && (MissedShielded(s, joiner) <==> Compact(s + {joiner}))
  }

  lemma FarJoinSpoils(s: set<Point>, a: Point, joiner: Point, x: Point)
    requires a in s && FitsFrom(s, a) && joiner !in s && TOTAL_HASH_POINTS <= 2 * Gap(a, joiner)
    requires x in s && TOTAL_HASH_POINTS <= 2 * Gap(joiner, x) && TargetsFree(s, joiner)
    ensures !SuccessorInformed(s, joiner) && !MissedShielded(s, joiner) && !Compact(s + {joiner})
  {
    HalfBackIsTarget(s, joiner);
    FarJoinDoesNot(s, a, joiner, x);
    FarJoinNotCompact(s, a, joiner, x);
    NotInformedNotShielded(s, joiner);
  }

  lemma FarJoinIff(s: set<Point>, a: Point, joiner: Point)
    requires a in s && FitsFrom(s, a) && joiner !in s && TOTAL_HASH_POINTS <= 2 * Gap(a, joiner)
    requires TargetsFree(s, joiner)
    ensures AllAgree(s, joiner)
  {
    if FitsFrom(s + {joiner}, joiner) {
      FarJoinFits(s, a, joiner);
    } else {
      assert Gap(joiner, joiner) == 0;
      var x :| x in s + {joiner} && TOTAL_HASH_POINTS <= 2 * Gap(joiner, x);
      FarJoinSpoils(s, a, joiner, x);
    }
  }

  /** With the targets free, a join of compact members keeps them compact exactly if
      the joiner's successor is informed, and exactly if every missed member is
      shielded. */
  lemma CompactJoinIff(s: set<Point>, joiner: Point)
    requires Compact(s) && joiner !in s && TargetsFree(s, joiner)
    ensures SuccessorInformed(s, joiner) <==> Compact(s + {joiner})
    ensures MissedShielded(s, joiner) <==> Compact(s + {joiner})
  {
    var a :| a in s && FitsFrom(s, a);
    if 2 * Gap(a, joiner) < TOTAL_HASH_POINTS {
      NearJoin(s, a, joiner);
    } else {
      FarJoinIff(s, a, joiner);
    }
  }

  /** Exactly which joins of an exact ring with compact members leave every lookup
      answered, and exactly which leave it exact: the same ones, those that land
      clear of every target and keep the members compact. */
  lemma CompactRingJoinIff(ring: Ring, joiner: Point)
    requires Exact(ring) && Compact(ring.Keys) && joiner !in ring
    ensures Named(Joined(ring, joiner))
    ensures AllAnswered(Joined(ring, joiner)) <==> TargetsFree(ring.Keys, joiner) && Compact(ring.Keys + {joiner})
    ensures Exact(Joined(ring, joiner)) <==> TargetsFree(ring.Keys, joiner) && Compact(ring.Keys + {joiner})
  {
    AllAnsweredIff(ring, joiner);
    JoinExactIff(ring, joiner);
    if TargetsFree(ring.Keys, joiner) {
      CompactJoinIff(ring.Keys, joiner);
    }
  }
}
