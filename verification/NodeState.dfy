/** A node as a value: what its fields hold, and the decisions it takes from them. */
module NodeState {
  import opened RingArithmetic
  import opened Membership

  /** Hosts are named by their hash. */
  datatype Contact = Contact(host: Point, port: string)

  type FingerTable = t: seq<Point> | |t| == FINGER_TABLE_LENGTH witness seq(FINGER_TABLE_LENGTH, _ => 0)

  type Directory = map<Point, Contact>

  /** start is the first key the node answers for, as a point of the circle. */
  datatype Node = Node(hash: Point, start: Point, fingers: FingerTable, dht: Directory) {

    /** The key lies on the arc from start to the node itself. */
    predicate Responsible(key: Point) {
      Gap(key, hash) <= Gap(start, hash)
    }

    /** The finger whose span, a power of two, contains the key. */
    function NextHop(key: Point): (next: Point)
      requires key != hash
    {
      Log2Below(Distance(hash, key), FINGER_TABLE_LENGTH);
      fingers[Log2(Distance(hash, key))]
    }
  }

  type Ring = map<Point, Node>

  /** The interval begins one past the predecessor. */
  ghost predicate IntervalRight(s: set<Point>, n: Node) {
    n.hash in s && n.start == HashAdd(Predecessor(s, n.hash), 1)
  }

  /** Finger i is some member at least 2^i steps away. */
  ghost predicate Spread(s: set<Point>, n: Node) {
    forall i :: 0 <= i < FINGER_TABLE_LENGTH ==>
      n.fingers[i] in s && Pow2(i) <= Distance(n.hash, n.fingers[i])
  }

  /** The interval, the distances of the fingers and, in finger 0, the true
      successor are right; other fingers may be stale. */
  ghost predicate Linked(s: set<Point>, n: Node) {
    IntervalRight(s, n) && Spread(s, n) && IsFinger(s, n.hash, 1, n.fingers[0])
  }

  /** Every finger is the nearest member at its distance or further. */
  ghost predicate ExactTable(s: set<Point>, n: Point, fingers: FingerTable) {
    forall i :: 0 <= i < FINGER_TABLE_LENGTH ==> IsFinger(s, n, Pow2(i), fingers[i])
  }

  ghost predicate Named(ring: Ring) {
    ring.Keys != {} && forall n {:trigger ring[n]} :: n in ring ==> ring[n].hash == n
  }

  ghost predicate IntervalRightAt(ring: Ring, n: Point)
    requires n in ring
  {
    IntervalRight(ring.Keys, ring[n])
  }

  ghost predicate SpreadAt(ring: Ring, n: Point)
    requires n in ring
  {
    Spread(ring.Keys, ring[n])
  }

  ghost predicate LinkedAt(ring: Ring, n: Point)
    requires n in ring
  {
    Linked(ring.Keys, ring[n])
  }

  ghost predicate ExactAt(ring: Ring, n: Point)
    requires n in ring
  {
    ExactTable(ring.Keys, n, ring[n].fingers)
  }

  // Quantified over the predicates above and not over membership, so that one
  // node's fingers do not bring in the fingers' fingers.

  /** Every interval is right. */
  ghost predicate Partitioned(ring: Ring) {
    Named(ring) && forall n {:trigger IntervalRightAt(ring, n)} :: n in ring ==> IntervalRightAt(ring, n)
  }

  /** Every finger is a member at its distance. */
  ghost predicate AllSpread(ring: Ring) {
    forall n {:trigger SpreadAt(ring, n)} :: n in ring ==> SpreadAt(ring, n)
  }

  ghost predicate Safe(ring: Ring) {
    Partitioned(ring) && forall n {:trigger LinkedAt(ring, n)} :: n in ring ==> LinkedAt(ring, n)
  }

  ghost predicate Exact(ring: Ring) {
    Safe(ring) && forall n {:trigger ExactAt(ring, n)} :: n in ring ==> ExactAt(ring, n)
  }

  /** The ring the first node starts: it points everywhere at itself. */
  function InitialNode(first: Point): (n: Node) {
    Node(first, HashAdd(first, 1), seq(FINGER_TABLE_LENGTH, _ => first), map[])
  }

  lemma InitialExact(first: Point)
    ensures Exact(map[first := InitialNode(first)])
  {
    var ring := map[first := InitialNode(first)];
    assert ring.Keys == {first};
    forall i | 0 <= i < FINGER_TABLE_LENGTH
      ensures IsFinger(ring.Keys, first, Pow2(i), first)
    {
      Pow2BelowCircle(i);
    }
    assert Predecessor(ring.Keys, first) == first;
    assert IntervalRightAt(ring, first) && LinkedAt(ring, first) && ExactAt(ring, first);
  }

  lemma NextHopIs(n: Node, key: Point, i: nat)
    requires i < FINGER_TABLE_LENGTH && key != n.hash
    requires Pow2(i) <= Distance(n.hash, key) < 2 * Pow2(i)
    ensures n.NextHop(key) == n.fingers[i]
  {
    Log2Below(Distance(n.hash, key), i);
    Log2Below(Distance(n.hash, key), i + 1);
  }

  /** The interval test is the successor test: a node answers for a key exactly
      when it is the first member clockwise from it. */
  lemma ResponsibleIffSuccessor(s: set<Point>, n: Node, key: Point)
    requires IntervalRight(s, n)
    ensures n.Responsible(key) <==> IsSuccessor(s, key, n.hash)
  {
  }

  /** Responsibility partitions the ring: each key has one answering member, its
      successor. */
  lemma ResponsibilityPartitions(ring: Ring, key: Point)
    requires Partitioned(ring)
    ensures Successor(ring.Keys, key) in ring
    ensures forall n {:trigger ring[n].Responsible(key)} :: n in ring ==>
      (ring[n].Responsible(key) <==> n == Successor(ring.Keys, key))
  {
    forall n | n in ring
      ensures ring[n].Responsible(key) <==> n == Successor(ring.Keys, key)
    {
      assert IntervalRightAt(ring, n);
      ResponsibleIffSuccessor(ring.Keys, ring[n], key);
      if ring[n].Responsible(key) {
        SuccessorUnique(ring.Keys, key, n);
      }
    }
  }

  /** The interval test agrees with the successor test on every key. */
  ghost predicate AnswersRight(s: set<Point>, n: Node) {
    forall key :: n.Responsible(key) <==> IsSuccessor(s, key, n.hash)
  }

  /** A wrong interval misanswers. */
  lemma RightAnswersMeanRightInterval(s: set<Point>, n: Node)
    requires n.hash in s && AnswersRight(s, n)
    ensures IntervalRight(s, n)
  {
    var p := Predecessor(s, n.hash);
    assert n.Responsible(HashAdd(p, 1)) <==> IsSuccessor(s, HashAdd(p, 1), n.hash);
    assert n.Responsible(p) <==> IsSuccessor(s, p, n.hash);
    assert n.Responsible(n.start) <==> IsSuccessor(s, n.start, n.hash);
  }

  lemma IntervalRightIff(s: set<Point>, n: Node)
    requires n.hash in s
    ensures IntervalRight(s, n) <==> AnswersRight(s, n)
  {
    if IntervalRight(s, n) {
      forall key
        ensures n.Responsible(key) <==> IsSuccessor(s, key, n.hash)
      {
        ResponsibleIffSuccessor(s, n, key);
      }
    } else if AnswersRight(s, n) {
      RightAnswersMeanRightInterval(s, n);
    }
  }

  /** Right intervals are exactly what right answers take. */
  lemma PartitionedIff(ring: Ring)
    requires Named(ring)
    ensures Partitioned(ring) <==>
            forall n {:trigger AnswersRight(ring.Keys, ring[n])} :: n in ring ==> AnswersRight(ring.Keys, ring[n])
  {
    forall n {:trigger IntervalRightAt(ring, n)} {:trigger AnswersRight(ring.Keys, ring[n])} | n in ring
      ensures IntervalRightAt(ring, n) <==> AnswersRight(ring.Keys, ring[n])
    {
      IntervalRightIff(ring.Keys, ring[n]);
    }
  }
}
