/** Joins of a ring that need only be safe, and may have stale fingers and lookups
    that are never answered: exactly which of them leave every lookup answered, in
    terms of the ring as it was. */
module LiveJoins {
  import opened RingArithmetic
  import opened Membership
  import opened NodeState
  import opened Routing
  import opened Joining
  import opened Liveness

  /** Once told, the member would send the key to the joiner. */
  ghost predicate Diverted(ring: Ring, joiner: Point, n: Point, key: Point)
    requires n in ring
  {
    && Visited(ring.Keys, joiner, n)
    && key != ring[n].hash
    && Told(ring[n], joiner).NextHop(key) == joiner
  }

  /** Some forwarding node of the path would send the key to the joiner. */
  ghost predicate DivertsRoute(ring: Ring, joiner: Point, path: seq<Point>, key: Point) {
    exists i :: 0 <= i < |path| - 1 && path[i] in ring && Diverted(ring, joiner, path[i], key)
  }

  /** From n the request, answered in the end or not, comes by such a node. */
  ghost predicate LedToDiverted(ring: Ring, joiner: Point, n: Point, key: Point)
    requires Named(ring)
  {
    exists path :: Leads(ring, path, key) && path[0] == n && DivertsRoute(ring, joiner, path, key)
  }

  /** Where the joiner will send a key that is not its own hash. */
  ghost function JoinerHop(s: set<Point>, joiner: Point, key: Point): Point
    requires s != {} && key != joiner
  {
    JoinerNode(s, map[], joiner).NextHop(key)
  }

  /** A key of another member: the joiner sends it to a member whose lookup is
      answered and does not come back to the joiner. */
  ghost predicate OtherKeyLives(ring: Ring, joiner: Point, key: Point)
    requires Named(ring) && key != joiner
  {
    var h := JoinerHop(ring.Keys, joiner, key);
    h != joiner && Answered(ring, h, key) && !LedToDiverted(ring, joiner, h, key)
  }

  /** A key of the joiner: its successor sends it to the joiner, or to a member from
      which it is led to one that does. */
  ghost predicate JoinersKeyLives(ring: Ring, joiner: Point, key: Point)
    requires Named(ring)
  {
    var r := Successor(ring.Keys, joiner);
    key != ring[r].hash &&
    (Diverted(ring, joiner, r, key) || LedToDiverted(ring, joiner, ring[r].NextHop(key), key))
  }

  /** At the joiner or its successor, whichever is not the end of the matter. */
  ghost predicate EndLives(ring: Ring, joiner: Point, key: Point)
    requires Named(ring)
  {
    if Successor(ring.Keys + {joiner}, key) == joiner then JoinersKeyLives(ring, joiner, key)
    else key != joiner && OtherKeyLives(ring, joiner, key)
  }

  /** A member's lookup is answered now, or is led to the joiner. */
  ghost predicate Saved(ring: Ring, joiner: Point, n: Point, key: Point)
    requires Named(ring)
  {
    Answered(ring, n, key) || LedToDiverted(ring, joiner, n, key)
  }

  ghost predicate AllSaved(ring: Ring, joiner: Point, key: Point)
    requires Named(ring)
  {
    forall n :: n in ring ==> Saved(ring, joiner, n, key)
  }

  ghost predicate KeyLives(ring: Ring, joiner: Point, key: Point)
    requires Named(ring)
  {
    EndLives(ring, joiner, key) && AllSaved(ring, joiner, key)
  }

  ghost predicate JoinLives(ring: Ring, joiner: Point)
    requires Named(ring)
  {
    forall key {:trigger KeyLives(ring, joiner, key)} :: KeyLives(ring, joiner, key)
  }

  /** What the statements below are about. */
  ghost predicate SafeJoin(ring: Ring, joiner: Point) {
    Safe(ring) && joiner !in ring && Partitioned(Joined(ring, joiner))
  }

  // ---------- one hop after the join ----------

  /** A member that does not answer the key forwards it as before, unless it is
      diverted to the joiner. */
  lemma HopAfterJoin(ring: Ring, joiner: Point, n: Point, key: Point)
    requires SafeJoin(ring, joiner) && n in ring && n != Successor(ring.Keys + {joiner}, key)
    ensures key != n
    ensures var after := Joined(ring, joiner);
            Forwards(after[n], key, if Diverted(ring, joiner, n, key) then joiner else ring[n].NextHop(key))
  {
    var after := Joined(ring, joiner);
    ResponsibilityPartitions(after, key);
    assert !after[n].Responsible(key);
    assert Gap(n, n) == 0 && after[n].hash == ring[n].hash == n;
    FingersAfterJoin(ring, joiner, n);
    Log2Below(Distance(n, key), FINGER_TABLE_LENGTH);
  }

  lemma JoinerHopAfterJoin(ring: Ring, joiner: Point, key: Point)
    requires SafeJoin(ring, joiner) && Successor(ring.Keys + {joiner}, key) != joiner
    ensures key != joiner
    ensures Forwards(Joined(ring, joiner)[joiner], key, JoinerHop(ring.Keys, joiner, key))
  {
    var after := Joined(ring, joiner);
    ResponsibilityPartitions(after, key);
    assert !after[joiner].Responsible(key);
    assert Gap(joiner, joiner) == 0;
    assert after[joiner].fingers == NewTable(ring.Keys, joiner);
  }

  lemma DivertsTail(ring: Ring, joiner: Point, path: seq<Point>, key: Point)
    requires |path| > 1 && path[0] in ring
    ensures DivertsRoute(ring, joiner, path, key) <==>
            Diverted(ring, joiner, path[0], key) || DivertsRoute(ring, joiner, path[1..], key)
  {
  }

  // ---------- following a present route after the join ----------

  /** In the ring after, hop j of the route is made as before or is diverted. */
  ghost predicate HopKept(ring: Ring, after: Ring, joiner: Point, path: seq<Point>, key: Point, j: int)
    requires 0 <= j < |path| - 1 && path[j] in ring && path[j] in after
  {
    Forwards(after[path[j]], key, if Diverted(ring, joiner, path[j], key) then joiner else path[j + 1])
  }

  ghost predicate HopsKept(ring: Ring, after: Ring, joiner: Point, path: seq<Point>, key: Point) {
    && Named(after) && joiner in after && path != []
    && (forall j :: 0 <= j < |path| ==> path[j] in ring && path[j] in after)
    && forall j :: 0 <= j < |path| - 1 ==> HopKept(ring, after, joiner, path, key, j)
  }

  lemma HopsKeptTail(ring: Ring, after: Ring, joiner: Point, path: seq<Point>, key: Point)
    requires HopsKept(ring, after, joiner, path, key) && |path| > 1
    ensures HopsKept(ring, after, joiner, path[1..], key)
  {
    forall j | 0 <= j < |path[1..]| - 1
      ensures HopKept(ring, after, joiner, path[1..], key, j)
    {
      assert HopKept(ring, after, joiner, path, key, j + 1);
    }
  }

  /** Where an undiverted route's request ends up, and where a diverted one's. */
  lemma {:induction false} LeadAlong(ring: Ring, after: Ring, joiner: Point, path: seq<Point>, key: Point)
    returns (lead: seq<Point>)
    requires HopsKept(ring, after, joiner, path, key)
    ensures Leads(after, lead, key) && lead[0] == path[0]
    ensures lead[|lead| - 1] == if DivertsRoute(ring, joiner, path, key) then joiner else path[|path| - 1]
    decreases |path|
  {
    if |path| == 1 {
      lead := path;
    } else {
      assert HopKept(ring, after, joiner, path, key, 0);
      DivertsTail(ring, joiner, path, key);
      var rest := [joiner];
      if !Diverted(ring, joiner, path[0], key) {
        HopsKeptTail(ring, after, joiner, path, key);
        rest := LeadAlong(ring, after, joiner, path[1..], key);
      }
      LeadFrom(after, path[0], rest, key);
      lead := [path[0]] + rest;
    }
  }

  /** A forwarding node of a present path forwards the key after the join too. */
  lemma HopOfPath(ring: Ring, joiner: Point, path: seq<Point>, key: Point, j: nat)
    requires SafeJoin(ring, joiner) && Leads(ring, path, key) && j < |path| - 1
    ensures HopKept(ring, Joined(ring, joiner), joiner, path, key, j)
  {
    assert Forwards(ring[path[j]], key, path[j + 1]);
    ResponsibilityPartitions(ring, key);
    SameSuccessor(ring.Keys, joiner, key);
    HopAfterJoin(ring, joiner, path[j], key);
  }

  /** After the join the request goes where it went, or to the joiner if the path
      diverts it. */
  lemma PathAfterJoin(ring: Ring, joiner: Point, path: seq<Point>, key: Point) returns (lead: seq<Point>)
    requires SafeJoin(ring, joiner) && Leads(ring, path, key)
    ensures Leads(Joined(ring, joiner), lead, key) && lead[0] == path[0]
    ensures lead[|lead| - 1] == if DivertsRoute(ring, joiner, path, key) then joiner else path[|path| - 1]
  {
    var after := Joined(ring, joiner);
    forall j | 0 <= j < |path| - 1
      ensures HopKept(ring, after, joiner, path, key, j)
    {
      HopOfPath(ring, joiner, path, key, j);
    }
    lead := LeadAlong(ring, after, joiner, path, key);
  }

  /** So a saved member's request ends up at the joiner or at the old owner, and at
      the joiner if it is led there. */
  lemma SavedAfterJoin(ring: Ring, joiner: Point, n: Point, key: Point) returns (lead: seq<Point>)
    requires SafeJoin(ring, joiner) && Saved(ring, joiner, n, key)
    ensures Leads(Joined(ring, joiner), lead, key) && lead[0] == n
    ensures lead[|lead| - 1] ==
            if LedToDiverted(ring, joiner, n, key) then joiner else Successor(ring.Keys, key)
  {
    if LedToDiverted(ring, joiner, n, key) {
      var path :| Leads(ring, path, key) && path[0] == n && DivertsRoute(ring, joiner, path, key);
      lead := PathAfterJoin(ring, joiner, path, key);
    } else {
      var path := Route(ring, n, key);
      AnswerIsSuccessor(ring, path, key);
      lead := PathAfterJoin(ring, joiner, path, key);
    }
  }

  /** A request that is led to an answer is answered. */
  lemma {:induction false} AnsweredAlong(ring: Ring, lead: seq<Point>, key: Point)
    requires Named(ring) && Leads(ring, lead, key) && Answered(ring, lead[|lead| - 1], key)
    ensures Answered(ring, lead[0], key)
    decreases |lead|
  {
    if |lead| > 1 {
      assert Forwards(ring[lead[0]], key, lead[0 + 1]);
      LeadTail(ring, lead, key);
      AnsweredAlong(ring, lead[1..], key);
      AnsweredByNextHop(ring, lead[0], lead[1], key);
    }
  }

  // ---------- and back: an answer after the join comes from one before ----------

  lemma DivertedIsLed(ring: Ring, joiner: Point, n: Point, key: Point)
    requires Safe(ring) && n in ring && !ring[n].Responsible(key) && Diverted(ring, joiner, n, key)
    ensures LedToDiverted(ring, joiner, n, key)
  {
    assert LinkedAt(ring, n);
    var next := ring[n].NextHop(key);
    HopIsMember(ring, n, key);
    LeadFrom(ring, n, [next], key);
    var path := [n] + [next];
    DivertsTail(ring, joiner, path, key);
    assert Leads(ring, path, key) && path[0] == n && DivertsRoute(ring, joiner, path, key);
  }

  lemma LedFrom(ring: Ring, joiner: Point, n: Point, next: Point, key: Point)
    requires Named(ring) && n in ring && Forwards(ring[n], key, next) && LedToDiverted(ring, joiner, next, key)
    ensures LedToDiverted(ring, joiner, n, key)
  {
    var path :| Leads(ring, path, key) && path[0] == next && DivertsRoute(ring, joiner, path, key);
    LeadFrom(ring, n, path, key);
    var longer := [n] + path;
    assert longer[1..] == path;
    DivertsTail(ring, joiner, longer, key);
    assert longer[0] == n;
  }

  /** Where a forwarding member forwards to after the join, and what that tells. */
  lemma SavedByHop(ring: Ring, joiner: Point, n: Point, next: Point, key: Point)
    requires SafeJoin(ring, joiner) && n in ring && !ring[n].Responsible(key)
    requires Forwards(Joined(ring, joiner)[n], key, next)
    requires next != joiner ==> next in ring && Saved(ring, joiner, next, key)
    ensures Saved(ring, joiner, n, key)
  {
    ResponsibilityPartitions(Joined(ring, joiner), key);
    HopAfterJoin(ring, joiner, n, key);
    if Diverted(ring, joiner, n, key) {
      DivertedIsLed(ring, joiner, n, key);
    } else {
      assert LinkedAt(ring, n);
      HopIsMember(ring, n, key);
      if Answered(ring, next, key) {
        AnsweredByNextHop(ring, n, next, key);
      } else {
        LedFrom(ring, joiner, n, next, key);
      }
    }
  }

  lemma OwnerIsSaved(ring: Ring, joiner: Point, n: Point, key: Point)
    requires SafeJoin(ring, joiner) && n in ring
    requires ring[n].Responsible(key) || Joined(ring, joiner)[n].Responsible(key)
    ensures Saved(ring, joiner, n, key)
  {
    ResponsibilityPartitions(ring, key);
    ResponsibilityPartitions(Joined(ring, joiner), key);
    SameSuccessor(ring.Keys, joiner, key);
    AnsweredAtSuccessor(ring, key);
  }

  /** A member whose lookup is answered after the join was saved before. */
  lemma {:induction false} AnsweredWasSaved(ring: Ring, joiner: Point, n: Point, key: Point, route: seq<Point>)
    requires SafeJoin(ring, joiner) && n in ring
    requires IsRoute(Joined(ring, joiner), route, key) && route[0] == n
    ensures Saved(ring, joiner, n, key)
    decreases |route|
  {
    FirstHop(Joined(ring, joiner), route, key);
    if ring[n].Responsible(key) || |route| == 1 {
      OwnerIsSaved(ring, joiner, n, key);
    } else {
      RouteTail(Joined(ring, joiner), route, key);
      if route[1] != joiner {
        AnsweredWasSaved(ring, joiner, route[1], key, route[1..]);
      }
      SavedByHop(ring, joiner, n, route[1], key);
    }
  }

  // ---------- the two ends: the joiner and its successor ----------

  lemma JoinerHopIsMember(ring: Ring, joiner: Point, key: Point)
    requires Named(ring) && joiner !in ring && key != joiner
    ensures JoinerHop(ring.Keys, joiner, key) in ring.Keys + {joiner}
  {
    Log2Below(Distance(joiner, key), FINGER_TABLE_LENGTH);
    NewFingerCharacterised(ring.Keys, joiner, Log2(Distance(joiner, key)));
  }

  /** A request that is led away and back never gets an answer. */
  lemma LedBack(ring: Ring, n: Point, lead: seq<Point>, key: Point)
    requires Named(ring) && n in ring && Leads(ring, lead, key) && Forwards(ring[n], key, lead[0])
    requires lead[|lead| - 1] == n
    ensures !Answered(ring, n, key)
  {
    LeadFrom(ring, n, lead, key);
    CircleNeverAnswered(ring, [n] + lead, key);
  }

  lemma AnsweredOnward(ring: Ring, n: Point, lead: seq<Point>, key: Point)
    requires Named(ring) && n in ring && Leads(ring, lead, key) && Forwards(ring[n], key, lead[0])
    requires Answered(ring, lead[|lead| - 1], key)
    ensures Answered(ring, n, key)
  {
    LeadFrom(ring, n, lead, key);
    AnsweredAlong(ring, [n] + lead, key);
  }

  /** The joiner's lookup of another member's key goes the way of its first hop. */
  lemma OtherKeyByHop(ring: Ring, joiner: Point, key: Point)
    requires SafeJoin(ring, joiner) && Successor(ring.Keys + {joiner}, key) != joiner
    requires key != joiner && JoinerHop(ring.Keys, joiner, key) in ring
    requires Saved(ring, joiner, JoinerHop(ring.Keys, joiner, key), key)
    ensures Answered(Joined(ring, joiner), joiner, key)
            <==> !LedToDiverted(ring, joiner, JoinerHop(ring.Keys, joiner, key), key)
  {
    var after, h := Joined(ring, joiner), JoinerHop(ring.Keys, joiner, key);
    JoinerHopAfterJoin(ring, joiner, key);
    var lead := SavedAfterJoin(ring, joiner, h, key);
    if LedToDiverted(ring, joiner, h, key) {
      LedBack(after, joiner, lead, key);
    } else {
      SameSuccessor(ring.Keys, joiner, key);
      AnsweredAtSuccessor(after, key);
      AnsweredOnward(after, joiner, lead, key);
    }
  }

  lemma OtherKeyIff(ring: Ring, joiner: Point, key: Point)
    requires SafeJoin(ring, joiner) && Successor(ring.Keys + {joiner}, key) != joiner
    ensures key != joiner
    ensures Answered(Joined(ring, joiner), joiner, key) <==> OtherKeyLives(ring, joiner, key)
  {
    var after := Joined(ring, joiner);
    JoinerHopAfterJoin(ring, joiner, key);
    var h := JoinerHop(ring.Keys, joiner, key);
    if h == joiner {
      SelfForwardNeverAnswered(after, joiner, key);
    } else {
      JoinerHopIsMember(ring, joiner, key);
      if Answered(after, joiner, key) {
        RouteAfterHop(after, joiner, h, key);
        AnsweredWasSaved(ring, joiner, h, key, Route(after, h, key));
      }
      if Saved(ring, joiner, h, key) {
        OtherKeyByHop(ring, joiner, key);
      }
    }
  }

  lemma UndivertedHop(ring: Ring, joiner: Point, key: Point)
    requires SafeJoin(ring, joiner) && Successor(ring.Keys + {joiner}, key) == joiner
    requires key != Successor(ring.Keys, joiner) && !Diverted(ring, joiner, Successor(ring.Keys, joiner), key)
    ensures var r := Successor(ring.Keys, joiner);
      && ring[r].hash == r == Successor(ring.Keys, key) && ring[r].NextHop(key) in ring
      && Forwards(Joined(ring, joiner)[r], key, ring[r].NextHop(key))
  {
    var r := Successor(ring.Keys, joiner);
    HopAfterJoin(ring, joiner, r, key);
    SameSuccessor(ring.Keys, joiner, key);
    assert LinkedAt(ring, r);
    HopIsMember(ring, r, key);
  }

  /** From an undiverted successor a saved request goes to the joiner, or back. */
  lemma UndivertedByHop(ring: Ring, joiner: Point, h: Point, key: Point)
    requires SafeJoin(ring, joiner) && Successor(ring.Keys + {joiner}, key) == joiner
    requires Successor(ring.Keys, key) == Successor(ring.Keys, joiner)
    requires Forwards(Joined(ring, joiner)[Successor(ring.Keys, joiner)], key, h) && Saved(ring, joiner, h, key)
    ensures Answered(Joined(ring, joiner), Successor(ring.Keys, joiner), key) <==> LedToDiverted(ring, joiner, h, key)
  {
    var after, r := Joined(ring, joiner), Successor(ring.Keys, joiner);
    var lead := SavedAfterJoin(ring, joiner, h, key);
    if LedToDiverted(ring, joiner, h, key) {
      AnsweredAtSuccessor(after, key);
      AnsweredOnward(after, r, lead, key);
    } else {
      LedBack(after, r, lead, key);
    }
  }

  lemma UndivertedSuccessorIff(ring: Ring, joiner: Point, key: Point)
    requires SafeJoin(ring, joiner) && Successor(ring.Keys + {joiner}, key) == joiner
    requires key != Successor(ring.Keys, joiner) && !Diverted(ring, joiner, Successor(ring.Keys, joiner), key)
    ensures var r := Successor(ring.Keys, joiner);
      && ring[r].hash == r
      && (Answered(Joined(ring, joiner), r, key) <==> LedToDiverted(ring, joiner, ring[r].NextHop(key), key))
  {
    var after, r := Joined(ring, joiner), Successor(ring.Keys, joiner);
    UndivertedHop(ring, joiner, key);
    var h := ring[r].NextHop(key);
    if Answered(after, r, key) {
      RouteAfterHop(after, r, h, key);
      AnsweredWasSaved(ring, joiner, h, key, Route(after, h, key));
    }
    if Saved(ring, joiner, h, key) {
      UndivertedByHop(ring, joiner, h, key);
    }
  }

  lemma JoinersKeyIff(ring: Ring, joiner: Point, key: Point)
    requires SafeJoin(ring, joiner) && Successor(ring.Keys + {joiner}, key) == joiner
    ensures Answered(Joined(ring, joiner), Successor(ring.Keys, joiner), key) <==> JoinersKeyLives(ring, joiner, key)
  {
    var after, r := Joined(ring, joiner), Successor(ring.Keys, joiner);
    HopAfterJoin(ring, joiner, r, key);
    if Diverted(ring, joiner, r, key) {
      AnsweredAtSuccessor(after, key);
      AnsweredByNextHop(after, r, joiner, key);
    } else {
      UndivertedSuccessorIff(ring, joiner, key);
    }
  }

  // ---------- the characterisation ----------

  /** The lookup that decides, at the joiner or its successor. */
  ghost predicate EndsAnswered(ring: Ring, joiner: Point, key: Point)
    requires ring.Keys != {} && Named(Joined(ring, joiner))
  {
    && Answered(Joined(ring, joiner), joiner, key)
    && (Successor(ring.Keys + {joiner}, key) == joiner ==>
          Answered(Joined(ring, joiner), Successor(ring.Keys, joiner), key))
  }

  lemma EndsAnsweredIff(ring: Ring, joiner: Point, key: Point)
    requires SafeJoin(ring, joiner)
    ensures EndsAnswered(ring, joiner, key) <==> EndLives(ring, joiner, key)
  {
    if Successor(ring.Keys + {joiner}, key) == joiner {
      AnsweredAtSuccessor(Joined(ring, joiner), key);
      JoinersKeyIff(ring, joiner, key);
    } else {
      OtherKeyIff(ring, joiner, key);
    }
  }

  /** Then a saved member's lookup is answered. */
  lemma SavedIsAnswered(ring: Ring, joiner: Point, n: Point, key: Point)
    requires SafeJoin(ring, joiner) && n in ring && EndsAnswered(ring, joiner, key) && Saved(ring, joiner, n, key)
    ensures Answered(Joined(ring, joiner), n, key)
  {
    var lead := SavedAfterJoin(ring, joiner, n, key);
    SameSuccessor(ring.Keys, joiner, key);
    AnsweredAtSuccessor(Joined(ring, joiner), key);
    AnsweredAlong(Joined(ring, joiner), lead, key);
  }

  /** The lookup of the key is answered from every member. */
  ghost predicate KeyAnswered(ring: Ring, key: Point)
    requires Named(ring)
  {
    forall n :: n in ring ==> Answered(ring, n, key)
  }

  lemma AnsweredWereSaved(ring: Ring, joiner: Point, key: Point)
    requires SafeJoin(ring, joiner) && KeyAnswered(Joined(ring, joiner), key)
    ensures EndsAnswered(ring, joiner, key) && AllSaved(ring, joiner, key)
  {
    assert joiner in Joined(ring, joiner) && Successor(ring.Keys, joiner) in Joined(ring, joiner);
    forall n | n in ring
      ensures Saved(ring, joiner, n, key)
    {
      AnsweredWasSaved(ring, joiner, n, key, Route(Joined(ring, joiner), n, key));
    }
  }

  lemma SavedAreAnswered(ring: Ring, joiner: Point, key: Point)
    requires SafeJoin(ring, joiner) && EndsAnswered(ring, joiner, key) && AllSaved(ring, joiner, key)
    ensures KeyAnswered(Joined(ring, joiner), key)
  {
    forall n | n in Joined(ring, joiner)
      ensures Answered(Joined(ring, joiner), n, key)
    {
      if n != joiner {
        SavedIsAnswered(ring, joiner, n, key);
      }
    }
  }

  lemma KeyAnsweredIff(ring: Ring, joiner: Point, key: Point)
    requires SafeJoin(ring, joiner)
    ensures KeyAnswered(Joined(ring, joiner), key) <==> KeyLives(ring, joiner, key)
  {
    EndsAnsweredIff(ring, joiner, key);
    if KeyAnswered(Joined(ring, joiner), key) {
      AnsweredWereSaved(ring, joiner, key);
    } else if KeyLives(ring, joiner, key) {
      SavedAreAnswered(ring, joiner, key);
    }
  }

  lemma JustBeforeIsNotLive(ring: Ring, joiner: Point)
    requires Named(ring) && joiner !in ring && HashAdd(joiner, 1) in ring
    ensures Named(Joined(ring, joiner)) && !AllAnswered(Joined(ring, joiner))
  {
    assert Target(joiner, 0) == HashAdd(joiner, 1);
    TakenTargetBreaksLookup(ring, joiner, 0);
    assert joiner in Joined(ring, joiner);
  }

  lemma AllAnsweredByKey(ring: Ring)
    requires Named(ring)
    ensures AllAnswered(ring) <==> forall key {:trigger KeyAnswered(ring, key)} :: KeyAnswered(ring, key)
  {
    if forall key {:trigger KeyAnswered(ring, key)} :: KeyAnswered(ring, key) {
      forall n, key | n in ring
        ensures Answered(ring, n, key)
      {
        assert KeyAnswered(ring, key);
      }
    }
  }

  /** Exactly which joins of a safe ring leave every lookup answered, whatever stale
      fingers and unanswered lookups the ring has: those for which every key lives.
      The ring then stays safe. */
  lemma JoinLivesIff(ring: Ring, joiner: Point)
    requires Safe(ring) && joiner !in ring
    ensures Named(Joined(ring, joiner))
    ensures AllAnswered(Joined(ring, joiner)) <==> JoinLives(ring, joiner)
    ensures JoinLives(ring, joiner) ==> Safe(Joined(ring, joiner))
  {
    var after := Joined(ring, joiner);
    JoinedStaysPartitioned(ring, joiner);
    forall key {:trigger KeyLives(ring, joiner, key)} {:trigger KeyAnswered(after, key)}
      ensures KeyAnswered(after, key) <==> KeyLives(ring, joiner, key)
    {
      KeyAnsweredIff(ring, joiner, key);
    }
    AllAnsweredByKey(after);
    JoinSafeIff(ring, joiner);
    if HashAdd(joiner, 1) in ring {
      JustBeforeIsNotLive(ring, joiner);
    }
  }
}
