/** What one completed join does to the ring (src/join.cpp), and when the tables
    it leaves are exact. */
module Joining {
  import opened RingArithmetic
  import opened Membership
  import opened NodeState

  // ---------- the finger patch ----------

  /** An entry after its node is told of a joiner. */
  function PatchedEntry(n: Point, f: Point, i: nat, joiner: Point): Point {
    if Pow2(i) <= Distance(n, joiner) < Distance(n, f) then joiner else f
  }

  function Patched(n: Point, fingers: FingerTable, joiner: Point): FingerTable {
    seq(FINGER_TABLE_LENGTH, i requires 0 <= i < FINGER_TABLE_LENGTH => PatchedEntry(n, fingers[i], i, joiner))
  }

  function PatchedForAll(n: Point, fingers: FingerTable, joiners: seq<Point>): FingerTable
    decreases |joiners|
  {
    if joiners == [] then fingers
    else PatchedForAll(n, Patched(n, fingers, joiners[0]), joiners[1..])
  }

  ghost function Elements(joiners: seq<Point>): set<Point> {
    set x | x in joiners
  }

  lemma PatchKeepsExact(s: set<Point>, n: Point, fingers: FingerTable, joiner: Point)
    requires ExactTable(s, n, fingers)
    ensures ExactTable(s + {joiner}, n, Patched(n, fingers, joiner))
  {
  }

  lemma ExactTableUnique(s: set<Point>, n: Point, t: FingerTable, u: FingerTable)
    requires ExactTable(s, n, t) && ExactTable(s, n, u)
    ensures t == u
  {
    forall i | 0 <= i < FINGER_TABLE_LENGTH
      ensures t[i] == u[i]
    {
      assert IsFinger(s, n, Pow2(i), t[i]) && IsFinger(s, n, Pow2(i), u[i]);
    }
  }

  /** Patching in place equals computing the table from scratch for the enlarged
      membership: for any sequence of joiners, in any order and with repeats. */
  lemma {:induction false} PatchingIsRecomputation(s: set<Point>, n: Point, fingers: FingerTable, joiners: seq<Point>)
    requires ExactTable(s, n, fingers)
    ensures ExactTable(s + Elements(joiners), n, PatchedForAll(n, fingers, joiners))
    ensures forall t :: ExactTable(s + Elements(joiners), n, t) ==> t == PatchedForAll(n, fingers, joiners)
    decreases |joiners|
  {
    var all := s + Elements(joiners);
    if joiners == [] {
      assert all == s;
    } else {
      PatchKeepsExact(s, n, fingers, joiners[0]);
      PatchingIsRecomputation(s + {joiners[0]}, n, Patched(n, fingers, joiners[0]), joiners[1..]);
      assert s + {joiners[0]} + Elements(joiners[1..]) == all;
    }
    forall t | ExactTable(all, n, t)
      ensures t == PatchedForAll(n, fingers, joiners)
    {
      ExactTableUnique(all, n, t, PatchedForAll(n, fingers, joiners));
    }
  }

  // ---------- the joiner's own table ----------

  /** The point 2^i past the joiner. */
  function Target(joiner: Point, i: nat): Point
    requires i < FINGER_TABLE_LENGTH
  {
    Pow2BelowCircle(i);
    HashAdd(joiner, Pow2(i))
  }

  /** The node found for a target, unless the joiner itself is strictly nearer. */
  function Chosen(target: Point, found: Point, joiner: Point): Point {
    if Distance(target, found) > Distance(target, joiner) then joiner else found
  }

  /** Entry i of the joiner's table when lookups find true successors. */
  ghost function NewFinger(s: set<Point>, joiner: Point, i: nat): Point
    requires s != {} && i < FINGER_TABLE_LENGTH
  {
    Chosen(Target(joiner, i), Successor(s, Target(joiner, i)), joiner)
  }

  ghost function NewTable(s: set<Point>, joiner: Point): FingerTable
    requires s != {}
  {
    seq(FINGER_TABLE_LENGTH, i requires 0 <= i < FINGER_TABLE_LENGTH => NewFinger(s, joiner, i))
  }

  lemma TakenTargetGivesJoiner(s: set<Point>, joiner: Point, i: nat)
    requires joiner !in s && i < FINGER_TABLE_LENGTH && Target(joiner, i) in s
    ensures NewFinger(s, joiner, i) == joiner
    ensures !IsFinger(s + {joiner}, joiner, Pow2(i), joiner)
  {
  }

  lemma FreeTargetGivesSuccessor(s: set<Point>, joiner: Point, i: nat)
    requires s != {} && joiner !in s && i < FINGER_TABLE_LENGTH && Target(joiner, i) !in s
    ensures IsSuccessor(s + {joiner}, Target(joiner, i), NewFinger(s, joiner, i))
  {
    var target := Target(joiner, i);
    var found := Successor(s, target);
    assert Distance(target, found) == Gap(target, found);
    assert Distance(target, joiner) == Gap(target, joiner) by {
      Pow2BelowCircle(i);
    }
  }

  /** Each entry is the successor of its target in the enlarged membership,
      except exactly where a member sits on the target: there it is the joiner. */
  lemma NewFingerCharacterised(s: set<Point>, joiner: Point, i: nat)
    requires s != {} && joiner !in s && i < FINGER_TABLE_LENGTH
    ensures Target(joiner, i) !in s ==> NewFinger(s, joiner, i) == Successor(s + {joiner}, Target(joiner, i))
    ensures Target(joiner, i) in s ==> NewFinger(s, joiner, i) == joiner
    ensures IsFinger(s + {joiner}, joiner, Pow2(i), NewFinger(s, joiner, i)) <==> Target(joiner, i) !in s
    ensures NewFinger(s, joiner, i) in s + {joiner} && Pow2(i) <= Distance(joiner, NewFinger(s, joiner, i))
  {
    Pow2BelowCircle(i);
    var f := NewFinger(s, joiner, i);
    if Target(joiner, i) in s {
      TakenTargetGivesJoiner(s, joiner, i);
    } else {
      FreeTargetGivesSuccessor(s, joiner, i);
      SuccessorUnique(s + {joiner}, Target(joiner, i), f);
      FingerIsSuccessor(s + {joiner}, joiner, Pow2(i), f);
    }
  }

  // ---------- the update walk ----------

  function HalfBack(joiner: Point): Point {
    Pow2BelowCircle(FINGER_TABLE_LENGTH - 1);
    HashAdd(joiner, -Pow2(FINGER_TABLE_LENGTH - 1))
  }

  /** Where the walk over the predecessors begins: half a circle back. */
  ghost function WalkStart(s: set<Point>, joiner: Point): (start: Point)
    requires s != {}
    ensures IsSuccessor(s, HalfBack(joiner), start)
  {
    Successor(s, HalfBack(joiner))
  }

  /** The members on the arc from the walk's start to the joiner. */
  ghost predicate Visited(s: set<Point>, joiner: Point, n: Point)
    requires s != {}
  {
    Distance(n, joiner) <= Distance(WalkStart(s, joiner), joiner)
  }

  /** A member the walk misses is more than half a circle behind the joiner. */
  lemma MissedIsFar(s: set<Point>, joiner: Point, n: Point)
    requires joiner !in s && n in s && !Visited(s, joiner, n)
    ensures TOTAL_HASH_POINTS < 2 * Distance(n, joiner)
  {
  }

  /** When no member lies in the half circle before the joiner the walk starts at
      the joiner's successor and goes all the way round. */
  lemma EmptyHalfIsAllVisited(s: set<Point>, joiner: Point)
    requires s != {} && joiner !in s
    requires forall x :: x in s ==> TOTAL_HASH_POINTS < 2 * Distance(x, joiner)
    ensures WalkStart(s, joiner) == Successor(s, joiner)
    ensures forall n :: n in s ==> Visited(s, joiner, n)
  {
  }

  lemma ShieldedByPredecessor(s: set<Point>, joiner: Point, n: Point, lo: int, f: Point)
    requires joiner !in s && n in s && IsFinger(s, n, lo, f) && lo <= Distance(n, joiner)
    requires n != Predecessor(s, joiner)
    ensures IsFinger(s + {joiner}, n, lo, f) <==> lo <= Distance(n, Predecessor(s, joiner))
  {
  }

  /** A finger of a missed member survives the join exactly when the joiner's
      predecessor is already far enough away to shield it. */
  lemma MissedFingerStaleIff(s: set<Point>, joiner: Point, n: Point, i: nat, f: Point)
    requires joiner !in s && n in s && !Visited(s, joiner, n)
    requires i < FINGER_TABLE_LENGTH && IsFinger(s, n, Pow2(i), f)
    ensures IsFinger(s + {joiner}, n, Pow2(i), f) <==> Pow2(i) <= Distance(n, Predecessor(s, joiner))
  {
    MissedIsFar(s, joiner, n);
    Pow2BelowCircle(i);
    assert Pow2(i) <= Distance(n, joiner);
    var p := Predecessor(s, joiner);
    assert Distance(p, joiner) <= Distance(WalkStart(s, joiner), joiner);
    ShieldedByPredecessor(s, joiner, n, Pow2(i), f);
  }

  /** A node that has been told of the joiner. */
  function Told(n: Node, joiner: Point): Node {
    Node(n.hash, n.start, Patched(n.hash, n.fingers, joiner), n.dht)
  }

  /** The ring once the given members have been told. */
  ghost function AllTold(ring: Ring, joiner: Point, told: set<Point>): Ring {
    map n | n in ring :: if n in told then Told(ring[n], joiner) else ring[n]
  }

  /** The members on the walk's arc. */
  ghost function Arc(s: set<Point>, joiner: Point): set<Point>
    requires s != {}
  {
    set n | n in s && Visited(s, joiner, n)
  }

  /** From cur the walk goes on to the next member towards the joiner, or ends. */
  ghost predicate IsNextStop(s: set<Point>, joiner: Point, cur: Point, next: Point)
    requires s != {}
  {
    && (next == joiner <==> cur == Predecessor(s, joiner))
    && (next != joiner ==> next in s && Distance(next, joiner) < Distance(cur, joiner))
    && forall n :: n in s ==>
         (Distance(cur, joiner) <= Distance(n, joiner)
          <==> next == joiner || Distance(next, joiner) < Distance(n, joiner))
  }

  /** The patched finger 0 leads to the next member, or to the joiner exactly from
      the joiner's predecessor. */
  lemma NextOnWalk(s: set<Point>, joiner: Point, cur: Point, f: Point)
    requires cur in s && joiner !in s && IsFinger(s, cur, 1, f)
    ensures IsNextStop(s, joiner, cur, PatchedEntry(cur, f, 0, joiner))
  {
  }

  // ---------- the file hand-over ----------

  predicate Moves(cur: Point, joiner: Point, file: Point) {
    Distance(file, cur) > Distance(joiner, cur)
  }

  function Sent(dht: Directory, cur: Point, joiner: Point): Directory {
    map file | file in dht && Moves(cur, joiner, file) :: dht[file]
  }

  function Kept(dht: Directory, cur: Point, joiner: Point): Directory {
    map file | file in dht && !Moves(cur, joiner, file) :: dht[file]
  }

  /** The two tables are disjoint and together are the old one, owners included. */
  lemma HandoverConserves(dht: Directory, cur: Point, joiner: Point)
    ensures Sent(dht, cur, joiner).Keys !! Kept(dht, cur, joiner).Keys
    ensures Sent(dht, cur, joiner) + Kept(dht, cur, joiner) == dht
  {
  }

  /** A key in the responsible node's interval ends where the new intervals say it
      belongs, unless it is the hash of one of the two nodes; then never. */
  lemma HandoverPlaces(s: set<Point>, joiner: Point, file: Point)
    requires s != {} && joiner !in s && Successor(s, file) == Successor(s, joiner)
    ensures var cur := Successor(s, joiner);
            var holder := if Moves(cur, joiner, file) then joiner else cur;
            holder == Successor(s + {joiner}, file) <==> file != joiner && file != cur
  {
  }

  /** A key outside the responsible node's interval belongs to whom it did before. */
  lemma OtherKeysStay(s: set<Point>, joiner: Point, file: Point)
    requires s != {} && joiner !in s && Successor(s, file) != Successor(s, joiner)
    ensures Successor(s + {joiner}, file) == Successor(s, file)
  {
  }

  // ---------- the whole join ----------

  /** A member after a join: told of the joiner or not, its successor or not. */
  function AfterJoin(n: Node, joiner: Point, told: bool, first: bool): Node {
    Node(n.hash,
         if first then HashAdd(joiner, 1) else n.start,
         if told then Patched(n.hash, n.fingers, joiner) else n.fingers,
         if first then Kept(n.dht, n.hash, joiner) else n.dht)
  }

  /** The ring after a join served by cur, in which the given members were told,
      last the last of them, and the table was sent to the joiner. */
  ghost function JoinedWith(ring: Ring, joiner: Point, cur: Point, told: set<Point>, last: Point, table: FingerTable)
    : (after: Ring)
    requires cur in ring
    ensures after.Keys == ring.Keys + {joiner}
  {
    (map n | n in ring :: AfterJoin(ring[n], joiner, n in told, n == cur))
      [joiner := Node(joiner, HashAdd(last, 1), table, Sent(ring[cur].dht, cur, joiner))]
  }

  /** The responsible node once the joiner precedes it. */
  function Shrunk(n: Node, joiner: Point): Node {
    Node(n.hash, HashAdd(joiner, 1), n.fingers, Kept(n.dht, n.hash, joiner))
  }

  /** The parts of a join make the whole. */
  lemma JoinAssembled(ring: Ring, joiner: Point, cur: Point, told: set<Point>, last: Point, table: FingerTable)
    requires Named(ring) && joiner !in ring && cur in ring
    ensures AllTold(ring[cur := Shrunk(ring[cur], joiner)], joiner, told)
              [joiner := Node(joiner, HashAdd(last, 1), table, Sent(ring[cur].dht, cur, joiner))]
            == JoinedWith(ring, joiner, cur, told, last, table)
  {
  }

  /** The join of a ring whose lookups and walk find what they should. */
  ghost function Joined(ring: Ring, joiner: Point): (after: Ring)
    requires ring.Keys != {}
    ensures after.Keys == ring.Keys + {joiner}
  {
    var s := ring.Keys;
    JoinedWith(ring, joiner, Successor(s, joiner), Arc(s, joiner), Predecessor(s, joiner), NewTable(s, joiner))
  }

  ghost function JoinerNode(s: set<Point>, handedOver: Directory, joiner: Point): Node
    requires s != {}
  {
    Node(joiner, HashAdd(Predecessor(s, joiner), 1), NewTable(s, joiner), handedOver)
  }

  ghost function MemberNode(s: set<Point>, n: Node, joiner: Point): (after: Node)
    requires s != {}
  {
    AfterJoin(n, joiner, Visited(s, joiner, n.hash), n.hash == Successor(s, joiner))
  }

  lemma PredecessorAfterJoin(s: set<Point>, joiner: Point, n: Point)
    requires n in s && joiner !in s
    ensures Predecessor(s + {joiner}, joiner) == Predecessor(s, joiner)
    ensures Predecessor(s + {joiner}, n) == if n == Successor(s, joiner) then joiner else Predecessor(s, n)
  {
  }

  /** Finger 0 of a member after the join is the true successor, visited or not. */
  lemma FirstFingerAfterJoin(s: set<Point>, joiner: Point, n: Point, f: Point)
    requires n in s && joiner !in s && IsFinger(s, n, 1, f)
    ensures IsFinger(s + {joiner}, n, 1, PatchedEntry(n, f, 0, joiner))
    ensures !Visited(s, joiner, n) ==> IsFinger(s + {joiner}, n, 1, f)
  {
  }

  lemma MemberStaysLinked(s: set<Point>, n: Node, joiner: Point)
    requires Linked(s, n) && joiner !in s
    ensures Linked(s + {joiner}, MemberNode(s, n, joiner))
  {
    var after := MemberNode(s, n, joiner);
    PredecessorAfterJoin(s, joiner, n.hash);
    FirstFingerAfterJoin(s, joiner, n.hash, n.fingers[0]);
    forall i | 0 <= i < FINGER_TABLE_LENGTH
      ensures after.fingers[i] in s + {joiner} && Pow2(i) <= Distance(n.hash, after.fingers[i])
    {
      assert n.fingers[i] in s && Pow2(i) <= Distance(n.hash, n.fingers[i]);
      assert after.fingers[i] == n.fingers[i] || after.fingers[i] == PatchedEntry(n.hash, n.fingers[i], i, joiner);
    }
  }

  lemma JoinerLinkedIff(s: set<Point>, handedOver: Directory, joiner: Point)
    requires s != {} && joiner !in s
    ensures Linked(s + {joiner}, JoinerNode(s, handedOver, joiner)) <==> HashAdd(joiner, 1) !in s
  {
    NewFingerCharacterised(s, joiner, 0);
    assert Target(joiner, 0) == HashAdd(joiner, 1);
    PredecessorAfterJoin(s, joiner, Successor(s, joiner));
    forall i | 0 <= i < FINGER_TABLE_LENGTH
      ensures NewFinger(s, joiner, i) in s + {joiner} && Pow2(i) <= Distance(joiner, NewFinger(s, joiner, i))
    {
      NewFingerCharacterised(s, joiner, i);
    }
  }

  lemma MemberLinkedAfterJoin(ring: Ring, joiner: Point, n: Point)
    requires Safe(ring) && joiner !in ring && n in ring
    ensures LinkedAt(Joined(ring, joiner), n) && Joined(ring, joiner)[n].hash == n
  {
    assert LinkedAt(ring, n);
    MemberStaysLinked(ring.Keys, ring[n], joiner);
  }

  lemma JoinerLinkedAfterJoin(ring: Ring, joiner: Point)
    requires ring.Keys != {} && joiner !in ring
    ensures LinkedAt(Joined(ring, joiner), joiner) <==> HashAdd(joiner, 1) !in ring
    ensures Joined(ring, joiner)[joiner].hash == joiner
  {
    var cur := Successor(ring.Keys, joiner);
    JoinerLinkedIff(ring.Keys, Sent(ring[cur].dht, cur, joiner), joiner);
  }

  lemma JoinedWithStaysNamed(ring: Ring, joiner: Point, cur: Point, told: set<Point>, last: Point, table: FingerTable)
    requires Named(ring) && cur in ring
    ensures Named(JoinedWith(ring, joiner, cur, told, last, table))
  {
  }

  lemma MemberIntervalAfterJoin(ring: Ring, joiner: Point, told: set<Point>, last: Point, table: FingerTable, n: Point)
    requires Partitioned(ring) && joiner !in ring && n in ring
    ensures IntervalRightAt(JoinedWith(ring, joiner, Successor(ring.Keys, joiner), told, last, table), n)
  {
    assert IntervalRightAt(ring, n);
    PredecessorAfterJoin(ring.Keys, joiner, n);
  }

  lemma JoinerIntervalIff(ring: Ring, joiner: Point, cur: Point, told: set<Point>, last: Point, table: FingerTable)
    requires joiner !in ring && cur in ring
    ensures IntervalRightAt(JoinedWith(ring, joiner, cur, told, last, table), joiner)
            <==> last == Predecessor(ring.Keys, joiner)
  {
  }

  /** A join served by the joiner's successor leaves every interval right exactly
      when the last node told is the joiner's predecessor. */
  lemma JoinPartitionedIff(ring: Ring, joiner: Point, told: set<Point>, last: Point, table: FingerTable)
    requires Partitioned(ring) && joiner !in ring
    ensures Partitioned(JoinedWith(ring, joiner, Successor(ring.Keys, joiner), told, last, table))
            <==> last == Predecessor(ring.Keys, joiner)
  {
    var cur := Successor(ring.Keys, joiner);
    var after := JoinedWith(ring, joiner, cur, told, last, table);
    JoinedWithStaysNamed(ring, joiner, cur, told, last, table);
    JoinerIntervalIff(ring, joiner, cur, told, last, table);
    forall n {:trigger IntervalRightAt(after, n)} | n in ring
      ensures IntervalRightAt(after, n)
    {
      MemberIntervalAfterJoin(ring, joiner, told, last, table, n);
    }
  }

  lemma JoinedStaysPartitioned(ring: Ring, joiner: Point)
    requires Partitioned(ring) && joiner !in ring
    ensures Partitioned(Joined(ring, joiner))
  {
    var s := ring.Keys;
    JoinPartitionedIff(ring, joiner, Arc(s, joiner), Predecessor(s, joiner), NewTable(s, joiner));
  }

  lemma JoinedStaysNamed(ring: Ring, joiner: Point)
    requires Named(ring)
    ensures Named(Joined(ring, joiner))
  {
  }

  /** A join keeps the ring safe exactly when the joiner does not land
      immediately before a member. */
  lemma JoinSafeIff(ring: Ring, joiner: Point)
    requires Safe(ring) && joiner !in ring
    ensures Safe(Joined(ring, joiner)) <==> HashAdd(joiner, 1) !in ring
  {
    var after := Joined(ring, joiner);
    JoinedStaysPartitioned(ring, joiner);
    JoinerLinkedAfterJoin(ring, joiner);
    forall n {:trigger LinkedAt(after, n)} | n in ring
      ensures LinkedAt(after, n)
    {
      MemberLinkedAfterJoin(ring, joiner, n);
    }
  }

  /** No member sits a power of two past the joiner. */
  ghost predicate TargetsFree(s: set<Point>, joiner: Point) {
    forall i :: 0 <= i < FINGER_TABLE_LENGTH ==> Target(joiner, i) !in s
  }

  /** Every member the walk misses has the joiner's predecessor half a circle or
      more ahead. */
  ghost predicate MissedShielded(s: set<Point>, joiner: Point)
    requires s != {}
  {
    forall n :: n in s && !Visited(s, joiner, n) ==>
      Pow2(FINGER_TABLE_LENGTH - 1) <= Distance(n, Predecessor(s, joiner))
  }

  lemma HalfReachesAll(i: nat, d: int)
    requires i < FINGER_TABLE_LENGTH && Pow2(FINGER_TABLE_LENGTH - 1) <= d
    ensures Pow2(i) <= d
  {
    if i < FINGER_TABLE_LENGTH - 1 {
      Pow2Monotonic(i, FINGER_TABLE_LENGTH - 1);
    }
  }

  lemma ShieldedTableStaysExact(s: set<Point>, n: Point, fingers: FingerTable, joiner: Point)
    requires n in s && joiner !in s && ExactTable(s, n, fingers) && !Visited(s, joiner, n)
    requires Pow2(FINGER_TABLE_LENGTH - 1) <= Distance(n, Predecessor(s, joiner))
    ensures ExactTable(s + {joiner}, n, fingers)
  {
    forall i | 0 <= i < FINGER_TABLE_LENGTH
      ensures IsFinger(s + {joiner}, n, Pow2(i), fingers[i])
    {
      HalfReachesAll(i, Distance(n, Predecessor(s, joiner)));
      MissedFingerStaleIff(s, joiner, n, i, fingers[i]);
    }
  }

  /** A missed member's table stays exact exactly when its last finger does. */
  lemma MissedTableStaleIff(s: set<Point>, n: Point, fingers: FingerTable, joiner: Point)
    requires n in s && joiner !in s && ExactTable(s, n, fingers) && !Visited(s, joiner, n)
    ensures ExactTable(s + {joiner}, n, fingers) <==>
            Pow2(FINGER_TABLE_LENGTH - 1) <= Distance(n, Predecessor(s, joiner))
  {
    var last := FINGER_TABLE_LENGTH - 1;
    if Pow2(last) <= Distance(n, Predecessor(s, joiner)) {
      ShieldedTableStaysExact(s, n, fingers, joiner);
    } else {
      assert IsFinger(s, n, Pow2(last), fingers[last]);
      MissedFingerStaleIff(s, joiner, n, last, fingers[last]);
      assert !IsFinger(s + {joiner}, n, Pow2(last), fingers[last]);
    }
  }

  lemma FingersAfterJoin(ring: Ring, joiner: Point, n: Point)
    requires Named(ring) && joiner !in ring && n in ring
    ensures Joined(ring, joiner)[n].fingers ==
            if Visited(ring.Keys, joiner, n) then Patched(n, ring[n].fingers, joiner) else ring[n].fingers
  {
  }

  lemma MemberExactIff(ring: Ring, joiner: Point, n: Point)
    requires Exact(ring) && joiner !in ring && n in ring
    ensures ExactAt(Joined(ring, joiner), n) <==>
            (!Visited(ring.Keys, joiner, n) ==>
               Pow2(FINGER_TABLE_LENGTH - 1) <= Distance(n, Predecessor(ring.Keys, joiner)))
  {
    assert ExactAt(ring, n);
    FingersAfterJoin(ring, joiner, n);
    var s, fingers := ring.Keys, ring[n].fingers;
    if Visited(s, joiner, n) {
      PatchKeepsExact(s, n, fingers, joiner);
    } else {
      MissedTableStaleIff(s, n, fingers, joiner);
    }
  }

  lemma JoinerExactIff(ring: Ring, joiner: Point)
    requires ring.Keys != {} && joiner !in ring
    ensures ExactAt(Joined(ring, joiner), joiner) <==> TargetsFree(ring.Keys, joiner)
  {
    var s := ring.Keys;
    forall i | 0 <= i < FINGER_TABLE_LENGTH
      ensures IsFinger(s + {joiner}, joiner, Pow2(i), NewTable(s, joiner)[i]) <==> Target(joiner, i) !in s
    {
      NewFingerCharacterised(s, joiner, i);
    }
  }

  lemma MembersExactIff(ring: Ring, joiner: Point)
    requires Exact(ring) && joiner !in ring
    ensures (forall n {:trigger ExactAt(Joined(ring, joiner), n)} :: n in ring ==> ExactAt(Joined(ring, joiner), n))
            <==> MissedShielded(ring.Keys, joiner)
  {
    var s, after := ring.Keys, Joined(ring, joiner);
    forall n {:trigger ExactAt(after, n)} {:trigger Visited(s, joiner, n)} | n in ring
      ensures ExactAt(after, n) <==>
              (!Visited(s, joiner, n) ==> Pow2(FINGER_TABLE_LENGTH - 1) <= Distance(n, Predecessor(s, joiner)))
    {
      MemberExactIff(ring, joiner, n);
    }
  }

  /** Exactly which joins leave an exact ring exact: no member on a target point,
      and no missed member that can see past the joiner's predecessor. */
  lemma JoinExactIff(ring: Ring, joiner: Point)
    requires Exact(ring) && joiner !in ring
    ensures Exact(Joined(ring, joiner)) <==> TargetsFree(ring.Keys, joiner) && MissedShielded(ring.Keys, joiner)
  {
    JoinSafeIff(ring, joiner);
    JoinerExactIff(ring, joiner);
    assert Target(joiner, 0) == HashAdd(joiner, 1);
    MembersExactIff(ring, joiner);
  }

  /** With no member in the half circle before the joiner, the walk goes all the
      way round and only the targets matter. */
  lemma EmptyHalfJoinExactIff(ring: Ring, joiner: Point)
    requires Exact(ring) && joiner !in ring
    requires forall x :: x in ring ==> TOTAL_HASH_POINTS < 2 * Distance(x, joiner)
    ensures forall n :: n in ring ==> Visited(ring.Keys, joiner, n)
    ensures Exact(Joined(ring, joiner)) <==> TargetsFree(ring.Keys, joiner)
  {
    EmptyHalfIsAllVisited(ring.Keys, joiner);
    JoinExactIff(ring, joiner);
  }
}
