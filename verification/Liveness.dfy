/** Which joins leave every lookup answered.  A safe ring never answers wrongly,
    but a stale finger can make it not answer at all. */
module Liveness {
  import opened RingArithmetic
  import opened Membership
  import opened NodeState
  import opened Routing
  import opened Joining

  ghost predicate AllAnswered(ring: Ring)
    requires Named(ring)
  {
    forall n, key :: n in ring ==> Answered(ring, n, key)
  }

  lemma ExactAnswersAll(ring: Ring)
    requires Exact(ring)
    ensures AllAnswered(ring)
  {
    forall n, key | n in ring
      ensures Answered(ring, n, key)
    {
      var path := LookupTotal(ring, n, key);
    }
  }

  /** The walk reaches the joiner's successor, or the joiner's predecessor is half
      a circle or more past it. */
  ghost predicate SuccessorInformed(s: set<Point>, joiner: Point)
    requires s != {}
  {
    var r := Successor(s, joiner);
    Visited(s, joiner, r) || Pow2(FINGER_TABLE_LENGTH - 1) <= Distance(r, Predecessor(s, joiner))
  }

  // ---------- joins that break lookups ----------

  lemma JoinerForwardsToItself(s: set<Point>, handedOver: Directory, joiner: Point, i: nat)
    requires joiner !in s && i < FINGER_TABLE_LENGTH && Target(joiner, i) in s
    ensures Forwards(JoinerNode(s, handedOver, joiner), Target(joiner, i), joiner)
  {
    var n, key := JoinerNode(s, handedOver, joiner), Target(joiner, i);
    TakenTargetGivesJoiner(s, joiner, i);
    Pow2BelowCircle(i);
    NextHopIs(n, key, i);
    assert Distance(Predecessor(s, joiner), joiner) <= Distance(key, joiner);
  }

  /** A member on one of the joiner's targets: the joiner forwards the lookup of
      that member's hash to itself, for ever. */
  lemma TakenTargetBreaksLookup(ring: Ring, joiner: Point, i: nat)
    requires Named(ring) && joiner !in ring && i < FINGER_TABLE_LENGTH && Target(joiner, i) in ring
    ensures Named(Joined(ring, joiner))
    ensures !Answered(Joined(ring, joiner), joiner, Target(joiner, i))
  {
    JoinedStaysNamed(ring, joiner);
    var cur := Successor(ring.Keys, joiner);
    JoinerForwardsToItself(ring.Keys, Sent(ring[cur].dht, cur, joiner), joiner, i);
    SelfForwardNeverAnswered(Joined(ring, joiner), joiner, Target(joiner, i));
  }

  lemma UninformedLastFinger(s: set<Point>, joiner: Point, f: Point)
    requires s != {} && joiner !in s && !SuccessorInformed(s, joiner)
    requires IsFinger(s, Successor(s, joiner), Pow2(FINGER_TABLE_LENGTH - 1), f)
    ensures f == Successor(s, joiner)
    ensures Pow2(FINGER_TABLE_LENGTH - 1) <= Distance(Successor(s, joiner), joiner) < TOTAL_HASH_POINTS
  {
  }

  lemma NotItsPredecessors(n: Node, joiner: Point)
    requires n.start == HashAdd(joiner, 1) && n.hash != joiner
    ensures !n.Responsible(joiner)
  {
  }

  lemma SuccessorForwardsToItself(s: set<Point>, n: Node, joiner: Point)
    requires n.hash in s && joiner !in s && !SuccessorInformed(s, joiner)
    requires n.hash == Successor(s, joiner) && ExactTable(s, n.hash, n.fingers)
    ensures Forwards(MemberNode(s, n, joiner), joiner, n.hash)
  {
    var last := FINGER_TABLE_LENGTH - 1;
    UninformedLastFinger(s, joiner, n.fingers[last]);
    Pow2BelowCircle(last);
    var after := MemberNode(s, n, joiner);
    NotItsPredecessors(after, joiner);
    assert after.fingers == n.fingers && after.hash == n.hash;
    NextHopIs(after, joiner, last);
  }

  /** A missed, unshielded successor forwards the joiner's own hash to itself. */
  lemma UninformedSuccessorBreaksLookup(ring: Ring, joiner: Point)
    requires Exact(ring) && joiner !in ring && !SuccessorInformed(ring.Keys, joiner)
    ensures Named(Joined(ring, joiner))
    ensures !Answered(Joined(ring, joiner), Successor(ring.Keys, joiner), joiner)
  {
    var r := Successor(ring.Keys, joiner);
    JoinedStaysNamed(ring, joiner);
    assert ExactAt(ring, r) && ring[r].hash == r;
    SuccessorForwardsToItself(ring.Keys, ring[r], joiner);
    SelfForwardNeverAnswered(Joined(ring, joiner), r, joiner);
  }

  // ---------- joins that keep every lookup answered ----------

  /** The members other than the joiner answer for the keys they did. */
  lemma SameSuccessor(s: set<Point>, joiner: Point, key: Point)
    requires s != {} && joiner !in s
    ensures Successor(s + {joiner}, key) != joiner ==> Successor(s, key) == Successor(s + {joiner}, key)
    ensures Successor(s + {joiner}, key) == joiner ==>
      && Successor(s, key) == Successor(s, joiner)
      && (forall n :: n in s ==> Distance(n, key) <= Distance(n, joiner))
      && Distance(Predecessor(s, joiner), key) <= Distance(Predecessor(s, joiner), joiner)
  {
  }

  /** One hop of a missed member, whose table is exact for the old membership. */
  lemma MissedHop(ring: Ring, joiner: Point, n: Point, key: Point)
    requires Exact(ring) && joiner !in ring && n in ring && !Visited(ring.Keys, joiner, n)
    requires !Joined(ring, joiner)[n].Responsible(key) && n != Successor(ring.Keys, key)
    ensures key != n
    ensures var h := Joined(ring, joiner)[n].NextHop(key);
            h in ring && (h == Successor(ring.Keys, key) || Distance(h, key) < Distance(n, key))
  {
    var m := Joined(ring, joiner)[n];
    assert Gap(n, n) == 0;
    assert m.hash == ring[n].hash == n;
    FingersAfterJoin(ring, joiner, n);
    assert ExactAt(ring, n);
    Log2Below(Distance(n, key), FINGER_TABLE_LENGTH);
    assert m.NextHop(key) == ring[n].NextHop(key);
    FingerTowardsKey(ring.Keys, n, key, ring[n].NextHop(key));
  }

  ghost predicate LiveJoin(ring: Ring, joiner: Point) {
    && Exact(ring) && joiner !in ring && TargetsFree(ring.Keys, joiner)
    && Safe(Joined(ring, joiner))
  }

  lemma AnsweredAtSuccessor(ring: Ring, key: Point)
    requires Partitioned(ring)
    ensures Answered(ring, Successor(ring.Keys, key), key)
  {
    var a := Successor(ring.Keys, key);
    ResponsibilityPartitions(ring, key);
    assert ring[a].Responsible(key);
    assert IsRoute(ring, [a], key) && [a][0] == a;
  }

  lemma InformedIsExact(ring: Ring, joiner: Point, n: Point)
    requires LiveJoin(ring, joiner)
    requires n == joiner || (n in ring && (Visited(ring.Keys, joiner, n)
               || Pow2(FINGER_TABLE_LENGTH - 1) <= Distance(n, Predecessor(ring.Keys, joiner))))
    ensures ExactAt(Joined(ring, joiner), n)
  {
    if n == joiner {
      JoinerExactIff(ring, joiner);
    } else {
      MemberExactIff(ring, joiner, n);
    }
  }

  /** Keys the joiner does not answer for are routed as if by exact tables. */
  lemma {:induction false} OtherKeysAnswered(ring: Ring, joiner: Point, n: Point, key: Point)
    requires LiveJoin(ring, joiner) && n in Joined(ring, joiner)
    requires Successor(ring.Keys + {joiner}, key) != joiner
    ensures Answered(Joined(ring, joiner), n, key)
    decreases Distance(n, key)
  {
    var s, after := ring.Keys, Joined(ring, joiner);
    var a := Successor(s + {joiner}, key);
    AnsweredAtSuccessor(after, key);
    ResponsibilityPartitions(after, key);
    SameSuccessor(s, joiner, key);
    if n != a {
      assert !after[n].Responsible(key);
      if n in ring && !Visited(s, joiner, n) {
        MissedHop(ring, joiner, n, key);
      } else {
        InformedIsExact(ring, joiner, n);
        HopProgress(after, n, key);
      }
      var h := after[n].NextHop(key);
      if h != a {
        OtherKeysAnswered(ring, joiner, h, key);
      }
      AnsweredByNextHop(after, n, h, key);
    }
  }

  lemma HopStaysVisited(s: set<Point>, joiner: Point, n: Point, h: Point, key: Point)
    requires n in s && h in s && joiner !in s && Successor(s + {joiner}, key) == joiner
    requires Visited(s, joiner, n) && Distance(n, h) < Distance(n, key)
    ensures Visited(s, joiner, h)
  {
  }

  /** Visited members route the joiner's keys among themselves. */
  lemma {:induction false} JoinersKeysAnsweredNearby(ring: Ring, joiner: Point, n: Point, key: Point)
    requires LiveJoin(ring, joiner) && Successor(ring.Keys + {joiner}, key) == joiner
    requires n == joiner || (n in ring && Visited(ring.Keys, joiner, n))
    ensures Answered(Joined(ring, joiner), n, key)
    decreases Distance(n, key)
  {
    var s, after := ring.Keys, Joined(ring, joiner);
    AnsweredAtSuccessor(after, key);
    ResponsibilityPartitions(after, key);
    if n != joiner {
      assert !after[n].Responsible(key);
      InformedIsExact(ring, joiner, n);
      HopProgress(after, n, key);
      var h := after[n].NextHop(key);
      if h != joiner {
        HopStaysVisited(s, joiner, n, h, key);
        JoinersKeysAnsweredNearby(ring, joiner, h, key);
      }
      AnsweredByNextHop(after, n, h, key);
    }
  }

  /** The joiner's keys are half a circle or more from a shielded successor. */
  lemma JoinersKeysAreFar(s: set<Point>, joiner: Point, key: Point)
    requires s != {} && joiner !in s && Successor(s + {joiner}, key) == joiner
    requires SuccessorInformed(s, joiner) && !Visited(s, joiner, Successor(s, joiner))
    ensures Pow2(FINGER_TABLE_LENGTH - 1) <= Distance(Successor(s, joiner), key) < TOTAL_HASH_POINTS
  {
  }

  lemma SuccessorLeapsHalf(ring: Ring, joiner: Point, key: Point)
    requires LiveJoin(ring, joiner) && Successor(ring.Keys + {joiner}, key) == joiner
    requires SuccessorInformed(ring.Keys, joiner) && !Visited(ring.Keys, joiner, Successor(ring.Keys, joiner))
    requires key != Successor(ring.Keys, joiner)
    ensures var r := Successor(ring.Keys, joiner);
            Pow2(FINGER_TABLE_LENGTH - 1) <= Distance(r, Joined(ring, joiner)[r].NextHop(key))
  {
    var after, last, r := Joined(ring, joiner), FINGER_TABLE_LENGTH - 1, Successor(ring.Keys, joiner);
    JoinersKeysAreFar(ring.Keys, joiner, key);
    Pow2BelowCircle(last);
    MemberLinkedAfterJoin(ring, joiner, r);
    NextHopIs(after[r], key, last);
  }

  lemma LeapLandsVisited(s: set<Point>, joiner: Point, h: Point, key: Point)
    requires h in s && joiner !in s && Successor(s + {joiner}, key) == joiner
    requires var r := Successor(s, joiner);
             Pow2(FINGER_TABLE_LENGTH - 1) <= Distance(r, h) < Distance(r, key)
    ensures Visited(s, joiner, h)
  {
  }

  lemma ShieldedSuccessorHop(ring: Ring, joiner: Point, key: Point)
    requires LiveJoin(ring, joiner) && Successor(ring.Keys + {joiner}, key) == joiner
    requires SuccessorInformed(ring.Keys, joiner) && !Visited(ring.Keys, joiner, Successor(ring.Keys, joiner))
    ensures key != Successor(ring.Keys, joiner)
    ensures var n := Joined(ring, joiner)[Successor(ring.Keys, joiner)];
      && Forwards(n, key, n.NextHop(key))
      && (n.NextHop(key) == joiner || (n.NextHop(key) in ring && Visited(ring.Keys, joiner, n.NextHop(key))))
  {
    var s, after := ring.Keys, Joined(ring, joiner);
    var r := Successor(s, joiner);
    ResponsibilityPartitions(after, key);
    assert !after[r].Responsible(key);
    InformedIsExact(ring, joiner, r);
    HopProgress(after, r, key);
    SuccessorLeapsHalf(ring, joiner, key);
    var h := after[r].NextHop(key);
    if h != joiner {
      LeapLandsVisited(s, joiner, h, key);
    }
  }

  /** An informed successor hands the joiner's keys straight to a visited member. */
  lemma JoinersKeysAnsweredAtSuccessor(ring: Ring, joiner: Point, key: Point)
    requires LiveJoin(ring, joiner) && Successor(ring.Keys + {joiner}, key) == joiner
    requires SuccessorInformed(ring.Keys, joiner)
    ensures Answered(Joined(ring, joiner), Successor(ring.Keys, joiner), key)
  {
    var r := Successor(ring.Keys, joiner);
    if Visited(ring.Keys, joiner, r) {
      JoinersKeysAnsweredNearby(ring, joiner, r, key);
    } else {
      ShieldedSuccessorHop(ring, joiner, key);
      var h := Joined(ring, joiner)[r].NextHop(key);
      if h == joiner {
        AnsweredAtSuccessor(Joined(ring, joiner), key);
      } else {
        JoinersKeysAnsweredNearby(ring, joiner, h, key);
      }
      AnsweredByNextHop(Joined(ring, joiner), r, h, key);
    }
  }

  lemma {:induction false} JoinersKeysAnswered(ring: Ring, joiner: Point, n: Point, key: Point)
    requires LiveJoin(ring, joiner) && Successor(ring.Keys + {joiner}, key) == joiner
    requires SuccessorInformed(ring.Keys, joiner) && n in Joined(ring, joiner)
    ensures Answered(Joined(ring, joiner), n, key)
    decreases Distance(n, key)
  {
    var s, after := ring.Keys, Joined(ring, joiner);
    var r := Successor(s, joiner);
    if n == joiner || Visited(s, joiner, n) {
      JoinersKeysAnsweredNearby(ring, joiner, n, key);
    } else if n == r {
      JoinersKeysAnsweredAtSuccessor(ring, joiner, key);
    } else {
      ResponsibilityPartitions(after, key);
      assert !after[n].Responsible(key);
      SameSuccessor(s, joiner, key);
      MissedHop(ring, joiner, n, key);
      var h := after[n].NextHop(key);
      if h == r {
        JoinersKeysAnsweredAtSuccessor(ring, joiner, key);
      } else {
        JoinersKeysAnswered(ring, joiner, h, key);
      }
      AnsweredByNextHop(after, n, h, key);
    }
  }

  /** Exactly which joins of an exact ring leave every lookup, from every node and
      for every key, answered.  For members spread over more than half the circle
      this is weaker than staying exact: members other than the joiner's successor
      may be left with stale fingers.  No run gets there with every lookup answered
      throughout: its members fit in less than half, where the two are the same. */
  lemma AllAnsweredIff(ring: Ring, joiner: Point)
    requires Exact(ring) && joiner !in ring
    ensures Named(Joined(ring, joiner))
    ensures AllAnswered(Joined(ring, joiner)) <==>
            TargetsFree(ring.Keys, joiner) && SuccessorInformed(ring.Keys, joiner)
  {
    var s, after := ring.Keys, Joined(ring, joiner);
    JoinedStaysNamed(ring, joiner);
    if !TargetsFree(s, joiner) {
      var i :| 0 <= i < FINGER_TABLE_LENGTH && Target(joiner, i) in s;
      TakenTargetBreaksLookup(ring, joiner, i);
    } else if !SuccessorInformed(s, joiner) {
      UninformedSuccessorBreaksLookup(ring, joiner);
    } else {
      assert Target(joiner, 0) == HashAdd(joiner, 1);
      JoinSafeIff(ring, joiner);
      forall n, key | n in after
        ensures Answered(after, n, key)
      {
        if Successor(s + {joiner}, key) == joiner {
          JoinersKeysAnswered(ring, joiner, n, key);
        } else {
          OtherKeysAnswered(ring, joiner, n, key);
        }
      }
    }
  }
}
