/** The files' directory: its operations on the ring, and the one global map they
    implement (src/node.cpp, src/join.cpp). */
module GlobalDirectory {
  import opened Options
  import opened RingArithmetic
  import opened Membership
  import opened NodeState
  import opened Routing
  import opened Joining

  // ---------- the operations at the node that answers ----------

  /** The entry is written at node n unless the key is taken there. */
  function AddedAt(ring: Ring, n: Point, key: Point, owner: Contact): (after: Ring)
    requires n in ring
    ensures after.Keys == ring.Keys
  {
    if key in ring[n].dht then ring else ring[n := ring[n].(dht := ring[n].dht[key := owner])]
  }

  /** The entry is erased at node n if the requester owns it. */
  function DeletedAt(ring: Ring, n: Point, at: Point, key: Point): (after: Ring)
    requires n in ring
    ensures after.Keys == ring.Keys
  {
    if key in ring[n].dht && ring[n].dht[key].host == at
    then ring[n := ring[n].(dht := ring[n].dht - {key})]
    else ring
  }

  // ---------- the global map ----------

  datatype Op =
    | Join(entry: Point, joiner: Point)
    | Add(at: Point, key: Point, port: string)
    | Delete(at: Point, key: Point)
    | Lookup(at: Point, key: Point)

  function GlobalStep(g: Directory, op: Op): Directory {
    match op
    case Join(_, _) => g
    case Add(at, key, port) => if key in g then g else g[key := Contact(at, port)]
    case Delete(at, key) => if key in g && g[key].host == at then g - {key} else g
    case Lookup(_, _) => g
  }

  function GlobalMap(ops: seq<Op>): Directory {
    if ops == [] then map[] else GlobalStep(GlobalMap(ops[..|ops| - 1]), ops[|ops| - 1])
  }

  /** The i-th operation adds the key for its owner when the key is free, and the owner
      does not delete it later. */
  predicate AddsForGood(ops: seq<Op>, i: nat, key: Point, owner: Contact)
    requires i < |ops|
  {
    && ops[i] == Add(owner.host, key, owner.port)
    && key !in GlobalMap(ops[..i])
    && forall j :: i < j < |ops| ==> ops[j] != Delete(owner.host, key)
  }

  lemma AddsForGoodPrefix(ops: seq<Op>, i: nat, key: Point, owner: Contact)
    requires i < |ops| - 1
    ensures AddsForGood(ops, i, key, owner) <==>
            AddsForGood(ops[..|ops| - 1], i, key, owner) && ops[|ops| - 1] != Delete(owner.host, key)
  {
    assert ops[..|ops| - 1][..i] == ops[..i];
  }

  /** What the global map holds, in terms of the operations: an entry is there exactly
      if its owner added it, on its own port, when the key was free, and has not
      deleted it since. */
  lemma {:induction false} GlobalMapHolds(ops: seq<Op>, key: Point, owner: Contact)
    ensures key in GlobalMap(ops) && GlobalMap(ops)[key] == owner
            <==> exists i: nat :: i < |ops| && AddsForGood(ops, i, key, owner)
  {
    if ops != [] {
      var last := |ops| - 1;
      GlobalMapHolds(ops[..last], key, owner);
      forall i: nat | i < last
        ensures AddsForGood(ops, i, key, owner) <==>
                AddsForGood(ops[..last], i, key, owner) && ops[last] != Delete(owner.host, key)
      {
        AddsForGoodPrefix(ops, i, key, owner);
      }
      if key in GlobalMap(ops) && GlobalMap(ops)[key] == owner {
        if i: nat :| i < last && AddsForGood(ops[..last], i, key, owner) {
          assert AddsForGood(ops, i, key, owner);
        } else {
          assert AddsForGood(ops, last, key, owner);
        }
      }
    }
  }

  /** What a lookup of the key reports, wherever it is answered. */
  ghost function Stored(ring: Ring, key: Point): Option<Contact>
    requires ring.Keys != {}
  {
    Find(ring[Successor(ring.Keys, key)].dht, key)
  }

  /** Keys that are not members' hashes are stored as the global map says... */
  ghost predicate Refines(ring: Ring, g: Directory)
    requires ring.Keys != {}
  {
    forall key {:trigger Stored(ring, key)} :: key !in ring ==> Stored(ring, key) == Find(g, key)
  }

  /** ...and nowhere but at their successors. */
  ghost predicate NoStrays(ring: Ring) {
    forall n, key :: n in ring && key in ring[n].dht && key !in ring ==> n == Successor(ring.Keys, key)
  }

  /** All keys, members' hashes included, are stored as the map says. */
  ghost predicate StoresAll(ring: Ring, g: Directory)
    requires ring.Keys != {}
  {
    forall key {:trigger Stored(ring, key)} :: Stored(ring, key) == Find(g, key)
  }

  // ---------- writing disturbs no link ----------

  predicate SameLinks(n: Node, after: Node) {
    after.hash == n.hash && after.start == n.start && after.fingers == n.fingers
  }

  /** The rings differ in nothing but what their nodes store. */
  ghost predicate SameRouting(ring: Ring, after: Ring) {
    after.Keys == ring.Keys && forall n {:trigger after[n]} :: n in ring ==> SameLinks(ring[n], after[n])
  }

  lemma SameRoutingKeeps(ring: Ring, after: Ring)
    requires Named(ring) && SameRouting(ring, after)
    ensures Named(after)
    ensures Partitioned(ring) ==> Partitioned(after)
    ensures AllSpread(ring) ==> AllSpread(after)
  {
    if Partitioned(ring) {
      forall k {:trigger IntervalRightAt(after, k)} | k in after
        ensures IntervalRightAt(after, k)
      {
        assert IntervalRightAt(ring, k) && SameLinks(ring[k], after[k]);
      }
    }
    if AllSpread(ring) {
      forall k {:trigger SpreadAt(after, k)} | k in after
        ensures SpreadAt(after, k)
      {
        assert SpreadAt(ring, k) && SameLinks(ring[k], after[k]);
      }
    }
  }

  lemma SameRoutingKeepsSafe(ring: Ring, after: Ring)
    requires Safe(ring) && SameRouting(ring, after)
    ensures Safe(after)
    ensures Exact(ring) ==> Exact(after)
  {
    SameRoutingKeeps(ring, after);
    forall k {:trigger LinkedAt(after, k)} | k in after
      ensures LinkedAt(after, k)
    {
      assert LinkedAt(ring, k) && SameLinks(ring[k], after[k]);
    }
    if Exact(ring) {
      forall k {:trigger ExactAt(after, k)} | k in after
        ensures ExactAt(after, k)
      {
        assert ExactAt(ring, k) && SameLinks(ring[k], after[k]);
      }
    }
  }

  // ---------- adds and deletes ----------

  lemma AddRefines(ring: Ring, g: Directory, key: Point, owner: Contact)
    requires ring.Keys != {} && Refines(ring, g) && NoStrays(ring)
    ensures var after := AddedAt(ring, Successor(ring.Keys, key), key, owner);
            Refines(after, if key in g then g else g[key := owner]) && NoStrays(after)
  {
    var after := AddedAt(ring, Successor(ring.Keys, key), key, owner);
    forall k | k !in after
      ensures Stored(after, k) == Find(if key in g then g else g[key := owner], k)
    {
      assert Stored(ring, k) == Find(g, k);
    }
  }

  lemma DeleteRefines(ring: Ring, g: Directory, at: Point, key: Point)
    requires ring.Keys != {} && Refines(ring, g) && NoStrays(ring)
    ensures var after := DeletedAt(ring, Successor(ring.Keys, key), at, key);
            Refines(after, if key in g && g[key].host == at then g - {key} else g) && NoStrays(after)
  {
    var after := DeletedAt(ring, Successor(ring.Keys, key), at, key);
    forall k | k !in after
      ensures Stored(after, k) == Find(if key in g && g[key].host == at then g - {key} else g, k)
    {
      assert Stored(ring, k) == Find(g, k);
    }
  }

  lemma AddStoresAll(ring: Ring, g: Directory, key: Point, owner: Contact)
    requires ring.Keys != {} && StoresAll(ring, g)
    ensures StoresAll(AddedAt(ring, Successor(ring.Keys, key), key, owner), if key in g then g else g[key := owner])
  {
    var after := AddedAt(ring, Successor(ring.Keys, key), key, owner);
    assert Stored(ring, key) == Find(g, key);
    forall k {:trigger Stored(after, k)}
      ensures Stored(after, k) == Find(if key in g then g else g[key := owner], k)
    {
      assert Stored(ring, k) == Find(g, k);
    }
  }

  lemma DeleteStoresAll(ring: Ring, g: Directory, at: Point, key: Point)
    requires ring.Keys != {} && StoresAll(ring, g)
    ensures StoresAll(DeletedAt(ring, Successor(ring.Keys, key), at, key),
                      if key in g && g[key].host == at then g - {key} else g)
  {
    var after := DeletedAt(ring, Successor(ring.Keys, key), at, key);
    assert Stored(ring, key) == Find(g, key);
    forall k {:trigger Stored(after, k)}
      ensures Stored(after, k) == Find(if key in g && g[key].host == at then g - {key} else g, k)
    {
      assert Stored(ring, k) == Find(g, k);
    }
  }

  // ---------- joins ----------

  /** A join served by the joiner's successor moves entries and changes no answer,
      except that it loses exactly those filed under two hashes: the joiner's and
      its successor's. */
  lemma JoinStored(ring: Ring, joiner: Point, told: set<Point>, last: Point, table: FingerTable, key: Point)
    requires Named(ring) && joiner !in ring
    ensures Stored(JoinedWith(ring, joiner, Successor(ring.Keys, joiner), told, last, table), key) ==
            if key == joiner || key == Successor(ring.Keys, joiner) then None else Stored(ring, key)
  {
    var s := ring.Keys;
    var r := Successor(s, joiner);
    if key == joiner {
      assert IsSuccessor(s + {joiner}, key, joiner);
      SuccessorUnique(s + {joiner}, key, joiner);
    } else if Successor(s, key) == r {
      HandoverPlaces(s, joiner, key);
      if key == r {
        assert IsSuccessor(s + {joiner}, key, r);
        SuccessorUnique(s + {joiner}, key, r);
      }
    } else {
      OtherKeysStay(s, joiner, key);
      if key == r {
        assert IsSuccessor(s, key, r);
        SuccessorUnique(s, key, r);
      }
    }
  }

  lemma JoinLeavesNoStrays(ring: Ring, joiner: Point, told: set<Point>, last: Point, table: FingerTable)
    requires Named(ring) && joiner !in ring && NoStrays(ring)
    ensures NoStrays(JoinedWith(ring, joiner, Successor(ring.Keys, joiner), told, last, table))
  {
    var s, r := ring.Keys, Successor(ring.Keys, joiner);
    var after := JoinedWith(ring, joiner, r, told, last, table);
    forall n, key | n in after && key in after[n].dht && key !in after
      ensures n == Successor(after.Keys, key)
    {
      if n == joiner || n == r {
        assert key in ring[r].dht;
        HandoverPlaces(s, joiner, key);
      } else {
        assert key in ring[n].dht;
        OtherKeysStay(s, joiner, key);
      }
    }
  }

  lemma JoinRefines(ring: Ring, g: Directory, joiner: Point, told: set<Point>, last: Point, table: FingerTable)
    requires Named(ring) && joiner !in ring && Refines(ring, g) && NoStrays(ring)
    ensures var after := JoinedWith(ring, joiner, Successor(ring.Keys, joiner), told, last, table);
            Refines(after, g) && NoStrays(after)
  {
    var after := JoinedWith(ring, joiner, Successor(ring.Keys, joiner), told, last, table);
    JoinLeavesNoStrays(ring, joiner, told, last, table);
    forall key {:trigger Stored(after, key)} | key !in after
      ensures Stored(after, key) == Find(g, key)
    {
      JoinStored(ring, joiner, told, last, table, key);
    }
  }

  lemma JoinStoresAll(ring: Ring, g: Directory, joiner: Point, told: set<Point>, last: Point, table: FingerTable)
    requires Named(ring) && joiner !in ring && StoresAll(ring, g)
    ensures StoresAll(JoinedWith(ring, joiner, Successor(ring.Keys, joiner), told, last, table),
                      g - {joiner, Successor(ring.Keys, joiner)})
  {
    var r := Successor(ring.Keys, joiner);
    var after := JoinedWith(ring, joiner, r, told, last, table);
    forall key {:trigger Stored(after, key)}
      ensures Stored(after, key) == Find(g - {joiner, r}, key)
    {
      JoinStored(ring, joiner, told, last, table, key);
    }
  }
}
