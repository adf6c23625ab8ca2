/** A join as the program carries it out on any ring whatever: each lookup ends
    where it ends, and the walk follows the finger-0 entries it finds.  On a ring
    whose intervals are right, and on a safe one, this is the join of Joining. */
module CompletedJoins {
  import opened RingArithmetic
  import opened Membership
  import opened NodeState
  import opened Routing
  import opened Joining

  // ---------- the walk ----------

  /** The node a told member names as the next to be told. */
  function NextStop(n: Node, joiner: Point): Point {
    PatchedEntry(n.hash, n.fingers[0], 0, joiner)
  }

  ghost predicate GoesOn(n: Node, joiner: Point, next: Point) {
    next == NextStop(n, joiner) && next != joiner
  }

  /** The stops of a walk that ends: each names the next, the last the joiner. */
  ghost predicate IsWalk(ring: Ring, joiner: Point, path: seq<Point>) {
    && path != []
    && (forall i :: 0 <= i < |path| ==> path[i] in ring)
    && (forall i :: 0 <= i < |path| - 1 ==> GoesOn(ring[path[i]], joiner, path[i + 1]))
    && NextStop(ring[path[|path| - 1]], joiner) == joiner
  }

  ghost predicate Ends(ring: Ring, joiner: Point, start: Point) {
    exists path :: IsWalk(ring, joiner, path) && path[0] == start
  }

  lemma WalkTail(ring: Ring, joiner: Point, path: seq<Point>)
    requires IsWalk(ring, joiner, path) && |path| > 1
    ensures IsWalk(ring, joiner, path[1..]) && GoesOn(ring[path[0]], joiner, path[1])
  {
  }

  /** A walk has one course: its start and the joiner determine every stop. */
  lemma {:induction false} WalkUnique(ring: Ring, joiner: Point, p: seq<Point>, q: seq<Point>)
    requires IsWalk(ring, joiner, p) && IsWalk(ring, joiner, q) && p[0] == q[0]
    ensures p == q
    decreases |p|
  {
    if |p| > 1 {
      WalkTail(ring, joiner, p);
    }
    if |q| > 1 {
      WalkTail(ring, joiner, q);
    }
    if |p| > 1 && |q| > 1 {
      WalkUnique(ring, joiner, p[1..], q[1..]);
      assert p == [p[0]] + p[1..] && q == [q[0]] + q[1..];
    }
  }

  ghost function Walk(ring: Ring, joiner: Point, start: Point): (path: seq<Point>)
    requires Ends(ring, joiner, start)
    ensures IsWalk(ring, joiner, path) && path[0] == start
  {
    var path :| IsWalk(ring, joiner, path) && path[0] == start;
    path
  }

  function Last(path: seq<Point>): Point
    requires path != []
  {
    path[|path| - 1]
  }

  /** Telling a node twice is telling it once, and it names the same next stop. */
  lemma ToldAgain(n: Node, joiner: Point)
    ensures Told(Told(n, joiner), joiner) == Told(n, joiner)
    ensures NextStop(Told(n, joiner), joiner) == NextStop(n, joiner)
  {
  }

  /** One stop of the walk, on the ring as the stops before it have left it. */
  lemma WalkStep(ring: Ring, joiner: Point, path: seq<Point>, k: nat)
    requires IsWalk(ring, joiner, path) && k < |path|
    ensures var sofar, cur := AllTold(ring, joiner, Elements(path[..k])), path[k];
      && cur in sofar
      && sofar[cur := Told(sofar[cur], joiner)] == AllTold(ring, joiner, Elements(path[..k + 1]))
      && (NextStop(sofar[cur], joiner) == joiner <==> k == |path| - 1)
      && (k < |path| - 1 ==> NextStop(sofar[cur], joiner) == path[k + 1])
    ensures k == |path| - 1 ==> path[..k + 1] == path
  {
    ToldAgain(ring[path[k]], joiner);
    assert Elements(path[..k + 1]) == Elements(path[..k]) + {path[k]} by {
      assert path[..k + 1] == path[..k] + [path[k]];
    }
    if k < |path| - 1 {
      assert GoesOn(ring[path[k]], joiner, path[k + 1]);
    }
  }

  /** The responsible node's new interval and files do not turn the walk. */
  lemma WalkAfterShrinking(ring: Ring, joiner: Point, r: Point, path: seq<Point>)
    requires r in ring && IsWalk(ring, joiner, path)
    ensures IsWalk(ring[r := Shrunk(ring[r], joiner)], joiner, path)
  {
  }

  // ---------- the walk over true successors ----------

  /** Ever closer to the joiner; so no stop twice. */
  ghost predicate Approaching(joiner: Point, path: seq<Point>) {
    forall i, j :: 0 <= i < j < |path| ==> Distance(path[j], joiner) < Distance(path[i], joiner)
  }

  ghost function UpTo(s: set<Point>, joiner: Point, start: Point): set<Point> {
    set n | n in s && Distance(n, joiner) <= Distance(start, joiner)
  }

  /** From its first stop to the joiner's predecessor, every member in between and
      no other, each once. */
  ghost predicate Itinerary(s: set<Point>, joiner: Point, path: seq<Point>)
    requires s != {}
  {
    && path != []
    && Last(path) == Predecessor(s, joiner)
    && Approaching(joiner, path)
    && Elements(path) == UpTo(s, joiner, path[0])
  }

  lemma ItineraryFrom(s: set<Point>, joiner: Point, cur: Point, rest: seq<Point>)
    requires cur in s && Itinerary(s, joiner, rest) && IsNextStop(s, joiner, cur, rest[0]) && rest[0] != joiner
    ensures Itinerary(s, joiner, [cur] + rest)
  {
    var path := [cur] + rest;
    assert Elements(path) == {cur} + Elements(rest);
    assert UpTo(s, joiner, cur) == {cur} + UpTo(s, joiner, rest[0]);
    forall j | 0 <= j < |rest|
      ensures Distance(rest[j], joiner) < Distance(cur, joiner)
    {
      assert rest[j] in Elements(rest);
    }
  }

  lemma ItineraryEnd(s: set<Point>, joiner: Point, cur: Point)
    requires cur in s && joiner !in s && IsNextStop(s, joiner, cur, joiner)
    ensures Itinerary(s, joiner, [cur])
  {
  }

  lemma WalkFrom(ring: Ring, joiner: Point, cur: Point, rest: seq<Point>)
    requires cur in ring && IsWalk(ring, joiner, rest) && GoesOn(ring[cur], joiner, rest[0])
    ensures IsWalk(ring, joiner, [cur] + rest)
  {
  }

  // ---------- the join ----------

  /** The lookups the responsible node makes for a joiner are answered. */
  ghost predicate HelpAnswered(ring: Ring, r: Point, joiner: Point)
    requires Named(ring)
  {
    && Answered(ring, r, HalfBack(joiner))
    && forall i :: 0 <= i < FINGER_TABLE_LENGTH ==> Answered(ring, r, Target(joiner, i))
  }

  /** Entry i of the table the responsible node sends. */
  ghost function SentFinger(ring: Ring, r: Point, joiner: Point, i: nat): Point
    requires Named(ring) && HelpAnswered(ring, r, joiner) && i < FINGER_TABLE_LENGTH
  {
    Chosen(Target(joiner, i), Answerer(ring, r, Target(joiner, i)), joiner)
  }

  ghost function SentTable(ring: Ring, r: Point, joiner: Point): FingerTable
    requires Named(ring) && HelpAnswered(ring, r, joiner)
  {
    seq(FINGER_TABLE_LENGTH, i requires 0 <= i < FINGER_TABLE_LENGTH => SentFinger(ring, r, joiner, i))
  }

  /** The join request reaches a responsible node and its lookups are answered. */
  ghost predicate Served(ring: Ring, entry: Point, joiner: Point) {
    && Named(ring) && joiner !in ring && entry in ring
    && Answered(ring, entry, joiner)
    && HelpAnswered(ring, Answerer(ring, entry, joiner), joiner)
  }

  /** The first stop of the walk the responsible node names. */
  ghost function FirstStop(ring: Ring, entry: Point, joiner: Point): Point
    requires Served(ring, entry, joiner)
  {
    Answerer(ring, Answerer(ring, entry, joiner), HalfBack(joiner))
  }

  /** The join completes: it is served and its walk ends.  Otherwise the program
      waits for ever. */
  ghost predicate Completes(ring: Ring, entry: Point, joiner: Point) {
    Served(ring, entry, joiner) && Ends(ring, joiner, FirstStop(ring, entry, joiner))
  }

  ghost function Stops(ring: Ring, entry: Point, joiner: Point): (path: seq<Point>)
    requires Completes(ring, entry, joiner)
    ensures IsWalk(ring, joiner, path) && path[0] == FirstStop(ring, entry, joiner)
  {
    Walk(ring, joiner, FirstStop(ring, entry, joiner))
  }

  /** The ring a completed join leaves. */
  ghost function Outcome(ring: Ring, entry: Point, joiner: Point): (after: Ring)
    requires Completes(ring, entry, joiner)
    ensures after.Keys == ring.Keys + {joiner}
  {
    var r, path := Answerer(ring, entry, joiner), Stops(ring, entry, joiner);
    JoinedWith(ring, joiner, r, Elements(path), Last(path), SentTable(ring, r, joiner))
  }

  // ---------- on a ring whose intervals are right ----------

  lemma SentTableOfPartitioned(ring: Ring, r: Point, joiner: Point)
    requires Partitioned(ring) && HelpAnswered(ring, r, joiner)
    ensures SentTable(ring, r, joiner) == NewTable(ring.Keys, joiner)
  {
    forall i | 0 <= i < FINGER_TABLE_LENGTH
      ensures SentFinger(ring, r, joiner, i) == NewFinger(ring.Keys, joiner, i)
    {
      AnswererIsSuccessor(ring, r, Target(joiner, i));
    }
  }

  /** Every lookup of the join finds the true successor; what remains open is where
      the walk goes. */
  lemma OutcomeOfPartitioned(ring: Ring, entry: Point, joiner: Point)
    requires Partitioned(ring) && Completes(ring, entry, joiner)
    ensures Stops(ring, entry, joiner)[0] == WalkStart(ring.Keys, joiner)
    ensures var path := Stops(ring, entry, joiner);
            Outcome(ring, entry, joiner) == JoinedWith(ring, joiner, Successor(ring.Keys, joiner), Elements(path),
                                                       Last(path), NewTable(ring.Keys, joiner))
  {
    AnswererIsSuccessor(ring, entry, joiner);
    var r := Answerer(ring, entry, joiner);
    AnswererIsSuccessor(ring, r, HalfBack(joiner));
    SentTableOfPartitioned(ring, r, joiner);
  }

  /** The walk's last stop is the joiner's predecessor. */
  ghost predicate StopsAtPredecessor(ring: Ring, entry: Point, joiner: Point)
    requires Completes(ring, entry, joiner)
  {
    Last(Stops(ring, entry, joiner)) == Predecessor(ring.Keys, joiner)
  }

  /** Exactly which completed joins leave every interval, and with it every answer,
      right: those whose walk stops at the joiner's predecessor. */
  lemma OutcomePartitionedIff(ring: Ring, entry: Point, joiner: Point)
    requires Partitioned(ring) && Completes(ring, entry, joiner)
    ensures Partitioned(Outcome(ring, entry, joiner)) <==> StopsAtPredecessor(ring, entry, joiner)
  {
    var path := Stops(ring, entry, joiner);
    OutcomeOfPartitioned(ring, entry, joiner);
    JoinPartitionedIff(ring, joiner, Elements(path), Last(path), NewTable(ring.Keys, joiner));
  }

  lemma IntervalTooLong(joiner: Point, p: Point, last: Point)
    requires Distance(p, joiner) < Distance(last, joiner) && last != joiner
    ensures Gap(p, joiner) <= Gap(HashAdd(last, 1), joiner)
  {
  }

  lemma PredecessorIsNearest(s: set<Point>, joiner: Point, n: Point)
    requires n in s && n != Predecessor(s, joiner)
    ensures Distance(Predecessor(s, joiner), joiner) < Distance(n, joiner)
  {
  }

  lemma OwnSuccessor(s: set<Point>, n: Point)
    requires n in s
    ensures Successor(s, n) == n
  {
  }

  /** A walk that stops early makes the joiner answer for its predecessor's hash. */
  lemma EarlyStopMisanswers(ring: Ring, entry: Point, joiner: Point)
    requires Completes(ring, entry, joiner) && !StopsAtPredecessor(ring, entry, joiner)
    ensures var p := Predecessor(ring.Keys, joiner);
      && Outcome(ring, entry, joiner)[joiner].Responsible(p)
      && Successor(ring.Keys + {joiner}, p) == p != joiner
  {
    var p, last := Predecessor(ring.Keys, joiner), Last(Stops(ring, entry, joiner));
    PredecessorIsNearest(ring.Keys, joiner, last);
    IntervalTooLong(joiner, p, last);
    OwnSuccessor(ring.Keys + {joiner}, p);
  }

  lemma ChosenIsFar(joiner: Point, i: nat, found: Point)
    requires i < FINGER_TABLE_LENGTH && found != joiner
    ensures Pow2(i) <= Distance(joiner, Chosen(Target(joiner, i), found, joiner))
  {
    Pow2BelowCircle(i);
    assert Distance(Target(joiner, i), joiner) == TOTAL_HASH_POINTS - Pow2(i);
  }

  lemma JoinerSpread(ring: Ring, entry: Point, joiner: Point)
    requires Completes(ring, entry, joiner)
    ensures SpreadAt(Outcome(ring, entry, joiner), joiner)
  {
    var r := Answerer(ring, entry, joiner);
    forall i | 0 <= i < FINGER_TABLE_LENGTH
      ensures SentFinger(ring, r, joiner, i) in ring.Keys + {joiner}
      ensures Pow2(i) <= Distance(joiner, SentFinger(ring, r, joiner, i))
    {
      ChosenIsFar(joiner, i, Answerer(ring, r, Target(joiner, i)));
    }
  }

  lemma MemberSpread(ring: Ring, entry: Point, joiner: Point, n: Point)
    requires AllSpread(ring) && Completes(ring, entry, joiner) && n in ring
    ensures SpreadAt(Outcome(ring, entry, joiner), n)
  {
    assert SpreadAt(ring, n);
    var m := Outcome(ring, entry, joiner)[n];
    assert m.hash == ring[n].hash;
    forall i | 0 <= i < FINGER_TABLE_LENGTH
      ensures m.fingers[i] in ring.Keys + {joiner} && Pow2(i) <= Distance(m.hash, m.fingers[i])
    {
      assert ring[n].fingers[i] in ring.Keys;
      assert m.fingers[i] == ring[n].fingers[i] || m.fingers[i] == PatchedEntry(m.hash, ring[n].fingers[i], i, joiner);
    }
  }

  /** Fingers stay members at their distances in every completed join. */
  lemma OutcomeSpread(ring: Ring, entry: Point, joiner: Point)
    requires AllSpread(ring) && Completes(ring, entry, joiner)
    ensures AllSpread(Outcome(ring, entry, joiner))
  {
    var after := Outcome(ring, entry, joiner);
    forall n {:trigger SpreadAt(after, n)} | n in after
      ensures SpreadAt(after, n)
    {
      if n == joiner {
        JoinerSpread(ring, entry, joiner);
      } else {
        MemberSpread(ring, entry, joiner, n);
      }
    }
  }
}
