/** Concrete rings on which the natural claims fail, for every table length. */
module Witnesses {
  import opened Options
  import opened RingArithmetic
  import opened Membership
  import opened NodeState
  import opened Routing
  import opened Joining
  import opened CompletedJoins
  import opened SoundJoins
  import opened Liveness
  import opened GlobalDirectory
  import opened Runs

  function Alone(first: Point): (ring: Ring)
    ensures ring.Keys == {first}
  {
    map[first := InitialNode(first)]
  }

  lemma AloneFacts(first: Point, k: Point)
    ensures Alone(first).Keys == {first} && Exact(Alone(first))
    ensures Successor({first}, k) == Predecessor({first}, k) == first
  {
    InitialExact(first);
    assert Alone(first).Keys == {first};
  }

  /** Two nodes at opposite points: the second never gets an answer for the first
      one's hash, because its table names itself where the first one sits. */
  lemma OppositeNodesLoop()
    ensures Pow2(FINGER_TABLE_LENGTH - 1) < TOTAL_HASH_POINTS
    ensures var half: Point := Pow2(FINGER_TABLE_LENGTH - 1);
      && Named(Joined(Alone(0), half))
      && !Answered(Joined(Alone(0), half), half, 0)
  {
    var last := FINGER_TABLE_LENGTH - 1;
    Pow2BelowCircle(last);
    var half: Point := Pow2(last);
    AloneFacts(0, half);
    assert Target(half, last) == 0;
    TakenTargetBreaksLookup(Alone(0), half, last);
  }

  lemma LandingJustBefore(ring: Ring, joiner: Point)
    requires Safe(ring) && joiner !in ring && HashAdd(joiner, 1) in ring
    ensures !Safe(Joined(ring, joiner)) && Joined(ring, joiner)[joiner].fingers[0] == joiner
  {
    Pow2BelowCircle(0);
    assert HashAdd(joiner, 1) == Target(joiner, 0);
    JoinSafeIff(ring, joiner);
    TakenTargetGivesJoiner(ring.Keys, joiner, 0);
  }

  /** A node landing immediately before a member takes itself for its successor. */
  lemma LandingJustBeforeIsUnsafe(last: Point)
    requires last == TOTAL_HASH_POINTS - 1
    ensures !Safe(Joined(Alone(0), last)) && Joined(Alone(0), last)[last].fingers[0] == last
  {
    Pow2BelowCircle(0);
    AloneFacts(0, 0);
    LandingJustBefore(Alone(0), last);
  }

  lemma OneAndThree()
    requires 3 <= FINGER_TABLE_LENGTH
    ensures 4 <= Pow2(FINGER_TABLE_LENGTH - 1) && 2 * Pow2(FINGER_TABLE_LENGTH - 1) == TOTAL_HASH_POINTS
    ensures Joined(Alone(1), 3).Keys == {1, 3} && Exact(Joined(Alone(1), 3))
  {
    var half := Pow2(FINGER_TABLE_LENGTH - 1);
    Pow2BelowCircle(FINGER_TABLE_LENGTH - 1);
    Pow2Monotonic(1, FINGER_TABLE_LENGTH - 1);
    AloneFacts(1, 3);
    forall i | 0 <= i < FINGER_TABLE_LENGTH
      ensures Target(3, i) != 1
    {
      Pow2BelowCircle(i);
      if i < FINGER_TABLE_LENGTH - 1 {
        Pow2Monotonic(i, FINGER_TABLE_LENGTH - 1);
      }
    }
    assert WalkStart({1}, 3) == 1;
    JoinExactIff(Alone(1), 3);
  }

  lemma HalfBackIsTwo(joiner: Point)
    requires 3 <= FINGER_TABLE_LENGTH && joiner == Pow2(FINGER_TABLE_LENGTH - 1) + 2
    requires 4 <= Pow2(FINGER_TABLE_LENGTH - 1) && 2 * Pow2(FINGER_TABLE_LENGTH - 1) == TOTAL_HASH_POINTS
    ensures WalkStart({1, 3}, joiner) == 3 && !Visited({1, 3}, joiner, 1)
    ensures Successor({1, 3}, joiner) == 1 && Predecessor({1, 3}, joiner) == 3
  {
  }

  lemma OneIsMissed(ring: Ring, joiner: Point)
    requires 3 <= FINGER_TABLE_LENGTH && joiner == Pow2(FINGER_TABLE_LENGTH - 1) + 2
    requires 4 <= Pow2(FINGER_TABLE_LENGTH - 1) && 2 * Pow2(FINGER_TABLE_LENGTH - 1) == TOTAL_HASH_POINTS
    requires ring.Keys == {1, 3} && Exact(ring)
    ensures Named(Joined(ring, joiner)) && !Answered(Joined(ring, joiner), 1, joiner)
  {
    HalfBackIsTwo(joiner);
    UninformedSuccessorBreaksLookup(ring, joiner);
  }

  /** Members 1 and 3 and a joiner at 2^(m-1) + 2 (10 when m is 4): the walk misses
      node 1, which then looks the joiner up for ever. */
  lemma MissedNodeLoops(joiner: Point, ring: Ring)
    requires 3 <= FINGER_TABLE_LENGTH && joiner == Pow2(FINGER_TABLE_LENGTH - 1) + 2
    requires 3 < TOTAL_HASH_POINTS && ring == Joined(Alone(1), 3)
    ensures ring.Keys == {1, 3} && Exact(ring) && !Visited(ring.Keys, joiner, 1)
    ensures Named(Joined(ring, joiner)) && !Answered(Joined(ring, joiner), 1, joiner)
  {
    OneAndThree();
    HalfBackIsTwo(joiner);
    OneIsMissed(ring, joiner);
  }

  // ---------- a join that repairs ----------

  /** A quarter of the circle. */
  ghost predicate Quarter(q: int) {
    4 <= FINGER_TABLE_LENGTH && 4 <= q && q == Pow2(FINGER_TABLE_LENGTH - 2) && TOTAL_HASH_POINTS == 4 * q
  }

  lemma QuarterIs()
    requires 4 <= FINGER_TABLE_LENGTH
    ensures Quarter(Pow2(FINGER_TABLE_LENGTH - 2))
  {
    Pow2BelowCircle(FINGER_TABLE_LENGTH - 1);
    assert Pow2(2) == 4;
    if FINGER_TABLE_LENGTH > 4 {
      Pow2Monotonic(2, FINGER_TABLE_LENGTH - 2);
    }
  }

  /** The spans of the fingers: less than half a quarter, a quarter, two. */
  lemma Spans(q: int, i: nat)
    requires Quarter(q) && i < FINGER_TABLE_LENGTH
    ensures i < FINGER_TABLE_LENGTH - 2 ==> 2 * Pow2(i) <= q
    ensures i == FINGER_TABLE_LENGTH - 2 ==> Pow2(i) == q
    ensures i == FINGER_TABLE_LENGTH - 1 ==> Pow2(i) == 2 * q
  {
    if i < FINGER_TABLE_LENGTH - 2 {
      Pow2Monotonic(i, FINGER_TABLE_LENGTH - 2);
    }
  }

  /** Node 0, joined by a node at three quarters, which has itself for its last two
      fingers: wrongly for the first of them, where node 0 sits. */
  ghost predicate TwoShape(ring: Ring, q: int, b: Point) {
    && Quarter(q) && b == 3 * q && Safe(ring) && ring.Keys == {0, b}
    && ring[0].start == b + 1 && ring[b].start == 1
    && (forall i :: 0 <= i < FINGER_TABLE_LENGTH ==> ring[0].fingers[i] == b)
    && forall i :: 0 <= i < FINGER_TABLE_LENGTH ==>
         ring[b].fingers[i] == if i < FINGER_TABLE_LENGTH - 2 then 0 else b
  }

  lemma TwoFingers(q: int, b: Point, i: nat)
    requires Quarter(q) && b == 3 * q && i < FINGER_TABLE_LENGTH
    ensures PatchedEntry(0, 0, i, b) == b
    ensures NewFinger({0}, b, i) == if i < FINGER_TABLE_LENGTH - 2 then 0 else b
  {
    Spans(q, i);
    AloneFacts(0, Target(b, i));
  }

  lemma TwoNodes(q: int, b: Point)
    requires Quarter(q) && b == 3 * q
    ensures TwoShape(Joined(Alone(0), b), q, b)
  {
    AloneFacts(0, b);
    AloneFacts(0, HalfBack(b));
    JoinSafeIff(Alone(0), b);
    forall i | 0 <= i < FINGER_TABLE_LENGTH
      ensures PatchedEntry(0, 0, i, b) == b
      ensures NewFinger({0}, b, i) == if i < FINGER_TABLE_LENGTH - 2 then 0 else b
    {
      TwoFingers(q, b, i);
    }
  }

  /** The ring once a third node has joined just past one half: the one at three
      quarters still has a stale finger. */
  ghost predicate ThreeShape(ring: Ring, q: int, b: Point, c: Point) {
    && Quarter(q) && b == 3 * q && c == 2 * q + 1 && Named(ring) && ring.Keys == {0, b, c}
    && ring[0].start == b + 1 && ring[c].start == 1 && ring[b].start == c + 1
    && (forall i :: 0 <= i < FINGER_TABLE_LENGTH ==> ring[0].fingers[i] == c)
    && (forall i :: 0 <= i < FINGER_TABLE_LENGTH ==>
          ring[b].fingers[i] == if i < FINGER_TABLE_LENGTH - 2 then 0 else c)
    && forall i :: 0 <= i < FINGER_TABLE_LENGTH ==>
         ring[c].fingers[i] == if i < FINGER_TABLE_LENGTH - 2 then b
                               else if i < FINGER_TABLE_LENGTH - 1 then 0 else c
  }

  lemma ThirdNodePlace(s: set<Point>, q: int, b: Point, c: Point)
    requires Quarter(q) && b == 3 * q && c == 2 * q + 1 && s == {0, b}
    ensures Successor(s, c) == b && Predecessor(s, c) == 0
    ensures Visited(s, c, 0) && Visited(s, c, b)
  {
    assert IsSuccessor(s, c, b) && IsPredecessor(s, c, 0);
    SuccessorUnique(s, c, b);
    assert HalfBack(c) == 1 && IsSuccessor(s, 1, b);
    SuccessorUnique(s, 1, b);
  }

  lemma ThirdNodeFinger(s: set<Point>, q: int, b: Point, c: Point, i: nat)
    requires Quarter(q) && b == 3 * q && c == 2 * q + 1 && s == {0, b} && i < FINGER_TABLE_LENGTH
    ensures NewFinger(s, c, i) == if i < FINGER_TABLE_LENGTH - 2 then b
                                  else if i < FINGER_TABLE_LENGTH - 1 then 0 else c
  {
    Spans(q, i);
    var found := if i == FINGER_TABLE_LENGTH - 2 then 0 else b;
    assert IsSuccessor(s, Target(c, i), found);
    SuccessorUnique(s, Target(c, i), found);
  }

  lemma ThirdNodePatches(q: int, b: Point, c: Point, i: nat)
    requires Quarter(q) && b == 3 * q && c == 2 * q + 1 && i < FINGER_TABLE_LENGTH
    ensures PatchedEntry(0, b, i, c) == c
    ensures PatchedEntry(b, if i < FINGER_TABLE_LENGTH - 2 then 0 else b, i, c)
            == if i < FINGER_TABLE_LENGTH - 2 then 0 else c
  {
    Spans(q, i);
  }

  lemma ThreeFingers(ring: Ring, q: int, b: Point, c: Point, i: nat)
    requires TwoShape(ring, q, b) && c == 2 * q + 1 && i < FINGER_TABLE_LENGTH
    ensures Joined(ring, c)[0].fingers[i] == c
    ensures Joined(ring, c)[b].fingers[i] == if i < FINGER_TABLE_LENGTH - 2 then 0 else c
    ensures Joined(ring, c)[c].fingers[i] == if i < FINGER_TABLE_LENGTH - 2 then b
                                             else if i < FINGER_TABLE_LENGTH - 1 then 0 else c
  {
    ThirdNodePlace(ring.Keys, q, b, c);
    FingersAfterJoin(ring, c, 0);
    FingersAfterJoin(ring, c, b);
    ThirdNodePatches(q, b, c, i);
    ThirdNodeFinger(ring.Keys, q, b, c, i);
  }

  lemma ThreeStarts(ring: Ring, q: int, b: Point, c: Point)
    requires TwoShape(ring, q, b) && c == 2 * q + 1
    ensures Joined(ring, c)[0].start == b + 1 && Joined(ring, c)[c].start == 1 && Joined(ring, c)[b].start == c + 1
  {
    ThirdNodePlace(ring.Keys, q, b, c);
  }

  lemma ThreeNodes(ring: Ring, q: int, b: Point, c: Point)
    requires TwoShape(ring, q, b) && c == 2 * q + 1
    ensures ThreeShape(Joined(ring, c), q, b, c)
  {
    JoinedStaysNamed(ring, c);
    ThreeStarts(ring, q, b, c);
    var after := Joined(ring, c);
    forall i | 0 <= i < FINGER_TABLE_LENGTH
      ensures after[0].fingers[i] == c
      ensures after[b].fingers[i] == if i < FINGER_TABLE_LENGTH - 2 then 0 else c
      ensures after[c].fingers[i] == if i < FINGER_TABLE_LENGTH - 2 then b
                                     else if i < FINGER_TABLE_LENGTH - 1 then 0 else c
    {
      ThreeFingers(ring, q, b, c, i);
    }
  }

  /** Which finger a key is sent along. */
  lemma SentAlong(q: int, n: Node, key: Point) returns (i: nat)
    requires Quarter(q) && key != n.hash
    ensures i < FINGER_TABLE_LENGTH && n.NextHop(key) == n.fingers[i]
    ensures i < FINGER_TABLE_LENGTH - 2 <==> Distance(n.hash, key) < q
    ensures i < FINGER_TABLE_LENGTH - 1 <==> Distance(n.hash, key) < 2 * q
  {
    var d := Distance(n.hash, key);
    i := Log2(d);
    Log2Below(d, FINGER_TABLE_LENGTH);
    Log2Below(d, FINGER_TABLE_LENGTH - 2);
    Log2Below(d, FINGER_TABLE_LENGTH - 1);
    Spans(q, FINGER_TABLE_LENGTH - 1);
  }

  lemma ThirdAnswers(ring: Ring, q: int, b: Point, c: Point, key: Point)
    requires ThreeShape(ring, q, b, c)
    ensures Answered(ring, c, key)
  {
    if ring[c].Responsible(key) {
      RouteOfAnswerer(ring, c, key);
    } else {
      var i := SentAlong(q, ring[c], key);
      var h := ring[c].NextHop(key);
      RouteOfAnswerer(ring, h, key);
      AnsweredByNextHop(ring, c, h, key);
    }
  }

  lemma OthersAnswer(ring: Ring, q: int, b: Point, c: Point, n: Point, key: Point)
    requires ThreeShape(ring, q, b, c) && (n == 0 || n == b)
    ensures Answered(ring, n, key)
  {
    if ring[n].Responsible(key) {
      RouteOfAnswerer(ring, n, key);
    } else {
      var i := SentAlong(q, ring[n], key);
      var h := ring[n].NextHop(key);
      if h == c {
        ThirdAnswers(ring, q, b, c, key);
      } else {
        RouteOfAnswerer(ring, h, key);
      }
      AnsweredByNextHop(ring, n, h, key);
    }
  }

  lemma ThreeAnswerAll(ring: Ring, q: int, b: Point, c: Point)
    requires ThreeShape(ring, q, b, c)
    ensures AllAnswered(ring)
  {
    forall n, key | n in ring
      ensures Answered(ring, n, key)
    {
      if n == c {
        ThirdAnswers(ring, q, b, c, key);
      } else {
        OthersAnswer(ring, q, b, c, n, key);
      }
    }
  }

  lemma ThreeAreStale(ring: Ring, q: int, b: Point, c: Point)
    requires ThreeShape(ring, q, b, c)
    ensures !Exact(ring)
  {
    var i := FINGER_TABLE_LENGTH - 2;
    Spans(q, i);
    assert !IsFinger(ring.Keys, b, Pow2(i), ring[b].fingers[i]);
    assert !ExactAt(ring, b);
  }

  /** Nodes 0 and 12, then 9 (when m is 4): node 12 never gets an answer for key 0
      until 9 joins; then every lookup is answered, through a finger that is wrong. */
  lemma JoinRepairs(q: int, b: Point, before: Ring, joiner: Point)
    requires 4 <= FINGER_TABLE_LENGTH && q == Pow2(FINGER_TABLE_LENGTH - 2)
    requires b == 3 * q && before == Joined(Alone(0), b) && joiner == 2 * q + 1
    ensures Safe(before) && joiner !in before && !AllAnswered(before)
    ensures Named(Joined(before, joiner)) && AllAnswered(Joined(before, joiner)) && !Exact(Joined(before, joiner))
  {
    QuarterIs();
    AloneFacts(0, b);
    assert Target(b, FINGER_TABLE_LENGTH - 2) == 0;
    TakenTargetBreaksLookup(Alone(0), b, FINGER_TABLE_LENGTH - 2);
    TwoNodes(q, b);
    ThreeNodes(before, q, b, joiner);
    ThreeAnswerAll(Joined(before, joiner), q, b, joiner);
    ThreeAreStale(Joined(before, joiner), q, b, joiner);
  }

  // ---------- a wrong answer ----------

  /** Two nodes, 0 and the last point of the circle, that both have the latter for
      every finger. */
  ghost predicate PointAtLast(ring: Ring) {
    && 8 <= TOTAL_HASH_POINTS
    && var last: Point := TOTAL_HASH_POINTS - 1;
    && ring.Keys == {0, last} && Partitioned(ring)
    && ring[0].start == 0 && ring[last].start == 1
    && (forall i :: 0 <= i < FINGER_TABLE_LENGTH ==> ring[0].fingers[i] == last)
    && (forall i :: 0 <= i < FINGER_TABLE_LENGTH ==> ring[last].fingers[i] == last)
  }

  /** The ring that the last point's join of node 0 leaves. */
  lemma ZeroAndLast()
    requires 3 <= FINGER_TABLE_LENGTH
    ensures PointAtLast(Joined(Alone(0), TOTAL_HASH_POINTS - 1))
  {
    Pow2Monotonic(2, FINGER_TABLE_LENGTH);
    assert Pow2(2) == 4;
    var last: Point := TOTAL_HASH_POINTS - 1;
    AloneFacts(0, last);
    AloneFacts(0, HalfBack(last));
    JoinedStaysPartitioned(Alone(0), last);
    forall i | 0 <= i < FINGER_TABLE_LENGTH
      ensures PatchedEntry(0, 0, i, last) == last && NewFinger({0}, last, i) == last
    {
      Pow2BelowCircle(i);
      AloneFacts(0, Target(last, i));
    }
  }

  /** No lookup that the last node makes for a joiner at 5 is for key 0. */
  lemma FivesTargets(i: nat)
    requires 3 <= FINGER_TABLE_LENGTH && 8 <= TOTAL_HASH_POINTS && i < FINGER_TABLE_LENGTH
    ensures Target(5, i) != 0 && HalfBack(5) != 0
  {
  }

  lemma LastAnswers(ring: Ring, key: Point)
    requires PointAtLast(ring) && key != 0
    ensures Answered(ring, TOTAL_HASH_POINTS - 1, key)
    ensures Answerer(ring, TOTAL_HASH_POINTS - 1, key) == TOTAL_HASH_POINTS - 1
  {
    RouteOfAnswerer(ring, TOTAL_HASH_POINTS - 1, key);
  }

  lemma ZeroAsksLast(ring: Ring)
    requires PointAtLast(ring)
    ensures Answered(ring, 0, 5) && Answerer(ring, 0, 5) == TOTAL_HASH_POINTS - 1
  {
    var last: Point := TOTAL_HASH_POINTS - 1;
    LastAnswers(ring, 5);
    Log2Below(5, FINGER_TABLE_LENGTH);
    AnsweredByNextHop(ring, 0, last, 5);
    var path :| IsRoute(ring, path, 5) && path[0] == 0;
    assert !ring[0].Responsible(5);
  }

  lemma FiveIsServed(ring: Ring)
    requires 3 <= FINGER_TABLE_LENGTH && PointAtLast(ring)
    ensures Served(ring, 0, 5) && FirstStop(ring, 0, 5) == TOTAL_HASH_POINTS - 1
  {
    ZeroAsksLast(ring);
    FivesTargets(0);
    LastAnswers(ring, HalfBack(5));
    forall i | 0 <= i < FINGER_TABLE_LENGTH
      ensures Answered(ring, TOTAL_HASH_POINTS - 1, Target(5, i))
    {
      FivesTargets(i);
      LastAnswers(ring, Target(5, i));
    }
  }

  /** The last node is on the arc of the joiner at 5, before its predecessor. */
  lemma LastIsOnTheWay(last: Point)
    requires 3 <= FINGER_TABLE_LENGTH && 8 <= TOTAL_HASH_POINTS && last == TOTAL_HASH_POINTS - 1
    ensures Visited({0, last}, 5, last) && Predecessor({0, last}, 5) == 0
  {
    var s := {0, last};
    assert IsPredecessor(s, 5, 0);
    Pow2BelowCircle(FINGER_TABLE_LENGTH - 1);
    assert IsSuccessor(s, HalfBack(5), last);
    SuccessorUnique(s, HalfBack(5), last);
  }

  lemma FirstJoin(first: Point, joiner: Point)
    requires joiner != first
    ensures RepliedRun(first, [] + [Join(first, joiner)]) && ClearRun(first, [] + [Join(first, joiner)])
    ensures RingAfter(first, [] + [Join(first, joiner)]) == Joined(Alone(first), joiner)
  {
    AloneFacts(first, joiner);
    InitialAnswers(first);
    var ring := RingAfter(first, []);
    assert ring == Alone(first);
    AnsweringRingServes(ring, first, joiner);
    NextJoinIsClear(first, [], first, joiner);
  }

  lemma FirstJoinOrder(first: Point, ops: seq<Op>, joiner: Point)
    requires ops == [Join(first, joiner)]
    ensures Members(first, ops) == {first, joiner}
    ensures Blind(first, ops) == if HashAdd(joiner, 1) == first then {joiner} else {}
  {
    assert ops[..0] == [];
  }

  lemma LastBlocksFive(ops: seq<Op>, last: Point)
    requires 3 <= FINGER_TABLE_LENGTH && RepliedRun(0, ops) && ClearRun(0, ops) && PointAtLast(RingAfter(0, ops))
    requires last == TOTAL_HASH_POINTS - 1 && Members(0, ops) == {0, last} && Blind(0, ops) == {last}
    ensures FinishedRun(0, ops + [Join(0, 5)]) && !ClearRun(0, ops + [Join(0, 5)])
    ensures IsRoute(RingAfter(0, ops + [Join(0, 5)]), [5], 0)
    ensures Successor(RingAfter(0, ops + [Join(0, 5)]).Keys, 0) == 0
  {
    FiveIsServed(RingAfter(0, ops));
    LastIsOnTheWay(last);
    OneMore(0, ops, Join(0, 5));
    BlockedJoinMisanswers(0, ops, 0, 5);
  }

  /** Node 0 starts a ring, the last point of the circle joins, then 5.  After the
      first join, immediately before a member, every answer is right; the last point
      lies on the arc of the second, after which node 5 answers for key 0, which is
      node 0's. */
  lemma SecondJoinMisanswers(first: seq<Op>, second: Op)
    requires 3 <= FINGER_TABLE_LENGTH && 5 < TOTAL_HASH_POINTS
    requires first == [Join(0, TOTAL_HASH_POINTS - 1)] && second == Join(0, 5)
    ensures RepliedRun(0, first) && ClearRun(0, first)
    ensures FinishedRun(0, first + [second]) && !ClearRun(0, first + [second])
    ensures IsRoute(RingAfter(0, first + [second]), [5], 0)
    ensures Successor(RingAfter(0, first + [second]).Keys, 0) == 0
  {
    var last: Point := TOTAL_HASH_POINTS - 1;
    assert first == [] + [Join(0, last)];
    FirstJoin(0, last);
    FirstJoinOrder(0, first, last);
    ZeroAndLast();
    LastBlocksFive(first, last);
  }

  // ---------- lost entries ----------

  lemma OneAdd(op: Op)
    requires op.Add? && op.at == 0
    ensures RepliedRun(0, [op]) && Blind(0, [op]) == {}
    ensures AllAnswered(RingAfter(0, [op])) && RingAfter(0, [op]).Keys == {0}
    ensures GlobalMap([op]) == map[op.key := Contact(0, op.port)]
  {
    assert [op][..0] == [];
    InitialAnswers(0);
    AloneFacts(0, 0);
    assert RingAfter(0, []) == Alone(0);
    InitialCompact(0);
    assert SensibleRun(0, []) && SensibleRun(0, [op]) && CompactRun(0, [op]);
    CompactRunIsExact(0, [op]);
    ExactAnswersAll(RingAfter(0, [op]));
  }

  lemma AddThenJoin(op: Op, joiner: Point)
    requires op.Add? && op.at == 0 && joiner != 0
    ensures var ops := [op] + [Join(0, joiner)];
      && RepliedRun(0, ops) && ClearRun(0, ops)
      && Stored(RingAfter(0, ops), joiner) == None && Stored(RingAfter(0, ops), 0) == None
      && Find(GlobalMap(ops), op.key) == Some(Contact(0, op.port))
  {
    OneAdd(op);
    var ring := RingAfter(0, [op]);
    AnsweringRingServes(ring, 0, joiner);
    NextJoinIsClear(0, [op], 0, joiner);
    OneMore(0, [op], Join(0, joiner));
    var s := ring.Keys;
    JoinStored(ring, joiner, Arc(s, joiner), Predecessor(s, joiner), NewTable(s, joiner), joiner);
    JoinStored(ring, joiner, Arc(s, joiner), Predecessor(s, joiner), NewTable(s, joiner), 0);
  }

  /** Node 0 adds key 1 and node 1 joins: the entry stays behind, and is lost. */
  lemma JoinersHashIsLost(add: Op, ops: seq<Op>)
    requires 1 < TOTAL_HASH_POINTS && add.Add? && add.at == 0 && add.key == 1
    requires ops == [add] + [Join(0, 1)]
    ensures RepliedRun(0, ops) && ClearRun(0, ops)
    ensures Stored(RingAfter(0, ops), 1) == None && Find(GlobalMap(ops), 1) == Some(Contact(0, add.port))
  {
    AddThenJoin(add, 1);
  }

  /** Node 0 adds key 0 and node 1 joins: the entry is moved, and is lost. */
  lemma OwnHashIsLost(add: Op, ops: seq<Op>)
    requires 1 < TOTAL_HASH_POINTS && add.Add? && add.at == 0 && add.key == 0
    requires ops == [add] + [Join(0, 1)]
    ensures RepliedRun(0, ops) && ClearRun(0, ops)
    ensures Stored(RingAfter(0, ops), 0) == None && Find(GlobalMap(ops), 0) == Some(Contact(0, add.port))
  {
    AddThenJoin(add, 1);
  }
}
