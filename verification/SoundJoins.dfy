/** Joins of rings in which every member knows its successor, except those that
    landed immediately before one and so took themselves for it (src/join.cpp).
    These self-pointed members alone decide where a walk ends, and with it which
    joins keep every answer right. */
module SoundJoins {
  import opened RingArithmetic
  import opened Membership
  import opened NodeState
  import opened Routing
  import opened Joining
  import opened CompletedJoins

  /** The member takes itself for its successor, which sits on the very next point. */
  ghost predicate SelfPointed(ring: Ring, n: Point)
    requires n in ring
  {
    ring[n].fingers[0] == n && HashAdd(n, 1) in ring
  }

  ghost predicate Oriented(ring: Ring, n: Point)
    requires n in ring
  {
    SelfPointed(ring, n) || IsFinger(ring.Keys, n, 1, ring[n].fingers[0])
  }

  /** Every interval is right, and every first finger but the self-pointed ones. */
  ghost predicate Sound(ring: Ring) {
    Partitioned(ring) && forall n {:trigger Oriented(ring, n)} :: n in ring ==> Oriented(ring, n)
  }

  /** A true first finger is not the member itself if the next point is a member. */
  lemma NotBoth(s: set<Point>, n: Point, f: Point)
    requires IsFinger(s, n, 1, f) && HashAdd(n, 1) in s
    ensures f != n
  {
  }

  lemma OrientedNotSelfPointed(ring: Ring, n: Point)
    requires n in ring && IsFinger(ring.Keys, n, 1, ring[n].fingers[0])
    ensures Oriented(ring, n) && !SelfPointed(ring, n)
  {
    if HashAdd(n, 1) in ring {
      NotBoth(ring.Keys, n, ring[n].fingers[0]);
    }
  }

  lemma SafeIsSound(ring: Ring)
    requires Safe(ring)
    ensures Sound(ring)
    ensures forall n :: n in ring ==> !SelfPointed(ring, n)
  {
    forall n {:trigger Oriented(ring, n)} {:trigger SelfPointed(ring, n)} | n in ring
      ensures Oriented(ring, n) && !SelfPointed(ring, n)
    {
      assert LinkedAt(ring, n);
      OrientedNotSelfPointed(ring, n);
    }
  }

  lemma SoundIsSafe(ring: Ring)
    requires Sound(ring) && AllSpread(ring)
    requires forall n :: n in ring ==> !SelfPointed(ring, n)
    ensures Safe(ring)
  {
    forall n {:trigger LinkedAt(ring, n)} | n in ring
      ensures LinkedAt(ring, n)
    {
      assert IntervalRightAt(ring, n) && SpreadAt(ring, n) && Oriented(ring, n) && !SelfPointed(ring, n);
    }
  }

  // ---------- where the walk ends ----------

  /** No self-pointed member lies from the start of the walk to the joiner. */
  ghost predicate ClearFrom(ring: Ring, joiner: Point, start: Point) {
    forall b {:trigger SelfPointed(ring, b)} :: b in ring && SelfPointed(ring, b) ==>
      Distance(start, joiner) < Distance(b, joiner)
  }

  /** The walk's arc holds no self-pointed member. */
  ghost predicate Clear(ring: Ring, joiner: Point)
    requires ring.Keys != {}
  {
    forall b {:trigger SelfPointed(ring, b)} :: b in ring && SelfPointed(ring, b) ==> !Visited(ring.Keys, joiner, b)
  }

  lemma ClearFurther(ring: Ring, joiner: Point, start: Point, next: Point)
    requires start in ring && !SelfPointed(ring, start)
    requires IsNextStop(ring.Keys, joiner, start, next) && next != joiner
    ensures ClearFrom(ring, joiner, next) <==> ClearFrom(ring, joiner, start)
  {
  }

  lemma PredecessorIsNotJustBefore(s: set<Point>, joiner: Point, b: Point)
    requires b in s && HashAdd(b, 1) in s && joiner !in s
    ensures b != Predecessor(s, joiner)
  {
  }

  lemma ClearAtPredecessor(ring: Ring, joiner: Point)
    requires ring.Keys != {} && joiner !in ring
    ensures ClearFrom(ring, joiner, Predecessor(ring.Keys, joiner))
  {
    forall b {:trigger SelfPointed(ring, b)} | b in ring && SelfPointed(ring, b)
      ensures Distance(Predecessor(ring.Keys, joiner), joiner) < Distance(b, joiner)
    {
      PredecessorIsNotJustBefore(ring.Keys, joiner, b);
      PredecessorIsNearest(ring.Keys, joiner, b);
    }
  }

  lemma OneStopMore(ring: Ring, joiner: Point, start: Point, rest: seq<Point>)
    requires start in ring && !SelfPointed(ring, start) && IsWalk(ring, joiner, rest)
    requires IsNextStop(ring.Keys, joiner, start, rest[0]) && GoesOn(ring[start], joiner, rest[0])
    requires if ClearFrom(ring, joiner, rest[0]) then Itinerary(ring.Keys, joiner, rest)
             else SelfPointed(ring, Last(rest))
    ensures IsWalk(ring, joiner, [start] + rest)
    ensures if ClearFrom(ring, joiner, start) then Itinerary(ring.Keys, joiner, [start] + rest)
            else SelfPointed(ring, Last([start] + rest))
  {
    ClearFurther(ring, joiner, start, rest[0]);
    WalkFrom(ring, joiner, start, rest);
    if ClearFrom(ring, joiner, start) {
      ItineraryFrom(ring.Keys, joiner, start, rest);
    }
  }

  /** In a sound ring every walk ends: at the joiner's predecessor, having stopped at
      every member on the way once and at no other, if the way is clear; and at a
      self-pointed member if it is not. */
  lemma {:induction false} SoundWalk(ring: Ring, joiner: Point, start: Point) returns (path: seq<Point>)
    requires Sound(ring) && joiner !in ring && start in ring
    ensures IsWalk(ring, joiner, path) && path[0] == start
    ensures if ClearFrom(ring, joiner, start) then Itinerary(ring.Keys, joiner, path) else SelfPointed(ring, Last(path))
    decreases Distance(start, joiner)
  {
    assert Oriented(ring, start);
    if SelfPointed(ring, start) {
      path := [start];
    } else {
      var next := NextStop(ring[start], joiner);
      NextOnWalk(ring.Keys, joiner, start, ring[start].fingers[0]);
      if next == joiner {
        path := [start];
        ItineraryEnd(ring.Keys, joiner, start);
        ClearAtPredecessor(ring, joiner);
      } else {
        var rest := SoundWalk(ring, joiner, next);
        OneStopMore(ring, joiner, start, rest);
        path := [start] + rest;
      }
    }
  }

  // ---------- one join ----------

  lemma SoundJoinStops(ring: Ring, entry: Point, joiner: Point)
    requires Sound(ring) && Served(ring, entry, joiner)
    ensures Completes(ring, entry, joiner)
    ensures if Clear(ring, joiner) then Itinerary(ring.Keys, joiner, Stops(ring, entry, joiner))
            else SelfPointed(ring, Last(Stops(ring, entry, joiner)))
  {
    var path := SoundWalk(ring, joiner, FirstStop(ring, entry, joiner));
    WalkUnique(ring, joiner, path, Stops(ring, entry, joiner));
    OutcomeOfPartitioned(ring, entry, joiner);
    assert Clear(ring, joiner) <==> ClearFrom(ring, joiner, WalkStart(ring.Keys, joiner));
  }

  lemma ItineraryIsArc(s: set<Point>, joiner: Point, path: seq<Point>)
    requires s != {} && Itinerary(s, joiner, path) && path[0] == WalkStart(s, joiner)
    ensures Elements(path) == Arc(s, joiner)
  {
  }

  /** A served join of a sound ring always completes.  If the walk's arc is clear, it
      visits each member of it once and leaves the ring the theorems of Joining are
      about... */
  lemma ClearJoin(ring: Ring, entry: Point, joiner: Point)
    requires Sound(ring) && Served(ring, entry, joiner) && Clear(ring, joiner)
    ensures Completes(ring, entry, joiner)
    ensures Itinerary(ring.Keys, joiner, Stops(ring, entry, joiner))
    ensures Outcome(ring, entry, joiner) == Joined(ring, joiner)
  {
    SoundJoinStops(ring, entry, joiner);
    OutcomeOfPartitioned(ring, entry, joiner);
    ItineraryIsArc(ring.Keys, joiner, Stops(ring, entry, joiner));
  }

  /** ...and if not, the walk stops early and the joiner answers for its
      predecessor's hash. */
  lemma BlockedJoin(ring: Ring, entry: Point, joiner: Point)
    requires Sound(ring) && Served(ring, entry, joiner) && !Clear(ring, joiner)
    ensures Completes(ring, entry, joiner) && !StopsAtPredecessor(ring, entry, joiner)
    ensures var p := Predecessor(ring.Keys, joiner);
      && Outcome(ring, entry, joiner)[joiner].Responsible(p)
      && Successor(ring.Keys + {joiner}, p) == p != joiner
  {
    SoundJoinStops(ring, entry, joiner);
    PredecessorIsNotJustBefore(ring.Keys, joiner, Last(Stops(ring, entry, joiner)));
    EarlyStopMisanswers(ring, entry, joiner);
  }

  /** Exactly which joins of a sound ring leave every interval, and with it every
      answer, right: those with no self-pointed member on the walk's arc. */
  lemma SoundJoinIff(ring: Ring, entry: Point, joiner: Point)
    requires Sound(ring) && Served(ring, entry, joiner)
    ensures Completes(ring, entry, joiner)
    ensures Partitioned(Outcome(ring, entry, joiner)) <==> Clear(ring, joiner)
  {
    if Clear(ring, joiner) {
      ClearJoin(ring, entry, joiner);
      JoinedStaysPartitioned(ring, joiner);
    } else {
      BlockedJoin(ring, entry, joiner);
      OutcomePartitionedIff(ring, entry, joiner);
    }
  }

  // ---------- soundness is kept ----------

  lemma SelfPointedStays(ring: Ring, joiner: Point, n: Point)
    requires Named(ring) && joiner !in ring && n in ring && SelfPointed(ring, n) && !Visited(ring.Keys, joiner, n)
    ensures SelfPointed(Joined(ring, joiner), n)
  {
    FingersAfterJoin(ring, joiner, n);
  }

  lemma TrueFirstFingerStays(ring: Ring, joiner: Point, n: Point)
    requires Named(ring) && joiner !in ring && n in ring && IsFinger(ring.Keys, n, 1, ring[n].fingers[0])
    ensures IsFinger(ring.Keys + {joiner}, n, 1, Joined(ring, joiner)[n].fingers[0])
  {
    FingersAfterJoin(ring, joiner, n);
    FirstFingerAfterJoin(ring.Keys, joiner, n, ring[n].fingers[0]);
  }

  lemma JoinerOriented(ring: Ring, joiner: Point)
    requires Named(ring) && joiner !in ring
    ensures Oriented(Joined(ring, joiner), joiner)
    ensures SelfPointed(Joined(ring, joiner), joiner) <==> HashAdd(joiner, 1) in ring
  {
    NewFingerCharacterised(ring.Keys, joiner, 0);
    assert Target(joiner, 0) == HashAdd(joiner, 1);
    assert Joined(ring, joiner)[joiner].fingers[0] == NewFinger(ring.Keys, joiner, 0);
  }

  lemma MemberOriented(ring: Ring, joiner: Point, n: Point)
    requires Sound(ring) && joiner !in ring && Clear(ring, joiner) && n in ring
    ensures Oriented(Joined(ring, joiner), n)
    ensures SelfPointed(Joined(ring, joiner), n) <==> SelfPointed(ring, n)
  {
    assert Oriented(ring, n);
    if SelfPointed(ring, n) {
      SelfPointedStays(ring, joiner, n);
    } else {
      TrueFirstFingerStays(ring, joiner, n);
      OrientedNotSelfPointed(Joined(ring, joiner), n);
    }
  }

  /** A join with a clear arc keeps the ring sound; the joiner is self-pointed exactly
      if it landed immediately before a member, and no one else becomes so or ceases
      to be. */
  lemma ClearJoinKeepsSound(ring: Ring, joiner: Point)
    requires Sound(ring) && joiner !in ring && Clear(ring, joiner)
    ensures Sound(Joined(ring, joiner))
    ensures SelfPointed(Joined(ring, joiner), joiner) <==> HashAdd(joiner, 1) in ring
    ensures forall n :: n in ring ==> (SelfPointed(Joined(ring, joiner), n) <==> SelfPointed(ring, n))
  {
    var after := Joined(ring, joiner);
    JoinedStaysPartitioned(ring, joiner);
    JoinerOriented(ring, joiner);
    forall n {:trigger Oriented(after, n)} {:trigger SelfPointed(after, n)} | n in ring
      ensures Oriented(after, n) && (SelfPointed(after, n) <==> SelfPointed(ring, n))
    {
      MemberOriented(ring, joiner, n);
    }
  }

  // ---------- on a safe ring ----------

  /** On a safe ring every served join completes, wherever the joiner lands, visits
      each member of its arc once, and leaves the ring the theorems of Joining are
      about. */
  lemma SafeJoinCompletes(ring: Ring, entry: Point, joiner: Point)
    requires Safe(ring) && Served(ring, entry, joiner)
    ensures Completes(ring, entry, joiner)
    ensures StopsAtPredecessor(ring, entry, joiner)
    ensures Itinerary(ring.Keys, joiner, Stops(ring, entry, joiner))
    ensures Outcome(ring, entry, joiner) == Joined(ring, joiner)
  {
    SafeIsSound(ring);
    ClearJoin(ring, entry, joiner);
  }
}
