/** Serialised runs of joins, adds, owner deletes and lookups, each carried out as
    the program does on whatever ring the earlier ones left (src/node.cpp,
    src/lookup.cpp, src/join.cpp). */
module Runs {
  import opened Options
  import opened RingArithmetic
  import opened Membership
  import opened NodeState
  import opened Routing
  import opened Joining
  import opened CompletedJoins
  import opened SoundJoins
  import opened Liveness
  import opened CompactRings
  import opened GlobalDirectory

  /** The operation finishes: otherwise a request circulates for ever, or a delete
      ends the program because the file is unknown. */
  ghost predicate Finishes(ring: Ring, op: Op)
    requires Named(ring)
  {
    match op
    case Join(entry, joiner) => Completes(ring, entry, joiner)
    case Add(at, key, _) => at in ring && Answered(ring, at, key)
    case Delete(at, key) => at in ring && Answered(ring, at, key) && key in ring[Answerer(ring, at, key)].dht
    case Lookup(at, key) => at in ring && Answered(ring, at, key)
  }

  /** The ring an operation that finishes leaves; the runs below have no other. */
  ghost function Apply(ring: Ring, op: Op): (after: Ring)
    requires Named(ring)
    ensures Named(after)
  {
    if !Finishes(ring, op) then ring
    else
      match op
      case Join(entry, joiner) => Outcome(ring, entry, joiner)
      case Add(at, key, port) => AddedAt(ring, Answerer(ring, at, key), key, Contact(at, port))
      case Delete(at, key) => DeletedAt(ring, Answerer(ring, at, key), at, key)
      case Lookup(_, _) => ring
  }

  ghost function RingAfter(first: Point, ops: seq<Op>): (ring: Ring)
    ensures Named(ring)
  {
    if ops == [] then var alone := map[first := InitialNode(first)]; assert first in alone; alone
    else Apply(RingAfter(first, ops[..|ops| - 1]), ops[|ops| - 1])
  }

  ghost predicate FinishedRun(first: Point, ops: seq<Op>) {
    ops == [] ||
    (FinishedRun(first, ops[..|ops| - 1]) && Finishes(RingAfter(first, ops[..|ops| - 1]), ops[|ops| - 1]))
  }

  /** The lookups the operation makes are answered, and it asks for nothing
      impossible; of a join it is not asked that its walk end. */
  ghost predicate Replied(ring: Ring, op: Op)
    requires Named(ring)
  {
    if op.Join? then Served(ring, op.entry, op.joiner) else Finishes(ring, op)
  }

  ghost predicate RepliedRun(first: Point, ops: seq<Op>) {
    ops == [] ||
    (RepliedRun(first, ops[..|ops| - 1]) && Replied(RingAfter(first, ops[..|ops| - 1]), ops[|ops| - 1]))
  }

  lemma {:induction false} FinishedIsReplied(first: Point, ops: seq<Op>)
    requires FinishedRun(first, ops)
    ensures RepliedRun(first, ops)
  {
    if ops != [] {
      FinishedIsReplied(first, ops[..|ops| - 1]);
    }
  }

  lemma OnlyStoringChanges(ring: Ring, op: Op)
    requires Named(ring) && !op.Join?
    ensures SameRouting(ring, Apply(ring, op))
  {
  }

  lemma OneMore(first: Point, ops: seq<Op>, op: Op)
    ensures (ops + [op])[..|ops + [op]| - 1] == ops && (ops + [op])[|ops + [op]| - 1] == op
  {
  }

  // ---------- the order of joins ----------

  function MembersStep(members: set<Point>, op: Op): set<Point> {
    if op.Join? then members + {op.joiner} else members
  }

  function Members(first: Point, ops: seq<Op>): (s: set<Point>)
    ensures first in s
  {
    if ops == [] then {first} else MembersStep(Members(first, ops[..|ops| - 1]), ops[|ops| - 1])
  }

  function BlindStep(members: set<Point>, blind: set<Point>, op: Op): set<Point> {
    if op.Join? && HashAdd(op.joiner, 1) in members then blind + {op.joiner} else blind
  }

  /** The joiners that landed immediately before a member. */
  function Blind(first: Point, ops: seq<Op>): set<Point> {
    if ops == [] then {}
    else
      var before := ops[..|ops| - 1];
      BlindStep(Members(first, before), Blind(first, before), ops[|ops| - 1])
  }

  /** No blind member lies on the arc from half a circle back to the joiner. */
  ghost predicate ClearStep(members: set<Point>, blind: set<Point>, op: Op)
    requires members != {}
  {
    op.Join? ==> forall b :: b in blind ==> !Visited(members, op.joiner, b)
  }

  /** Each join found its arc clear: a condition on who joined, where and in what
      order, and on nothing else. */
  ghost predicate ClearRun(first: Point, ops: seq<Op>) {
    ops == [] ||
    var before := ops[..|ops| - 1];
    ClearRun(first, before) && ClearStep(Members(first, before), Blind(first, before), ops[|ops| - 1])
  }

  // ---------- which runs keep every interval right ----------

  /** The ring has the members of the run, and the blind ones are the self-pointed. */
  ghost predicate Tracks(ring: Ring, members: set<Point>, blind: set<Point>) {
    && ring.Keys == members && blind <= members
    && forall n {:trigger SelfPointed(ring, n)} :: n in ring ==> (SelfPointed(ring, n) <==> n in blind)
  }

  lemma SameRoutingKeepsSound(ring: Ring, after: Ring)
    requires Sound(ring) && SameRouting(ring, after)
    ensures Sound(after)
    ensures forall n :: n in ring ==> (SelfPointed(after, n) <==> SelfPointed(ring, n))
  {
    SameRoutingKeeps(ring, after);
    forall n {:trigger Oriented(after, n)} {:trigger SelfPointed(after, n)} | n in ring
      ensures Oriented(after, n) && (SelfPointed(after, n) <==> SelfPointed(ring, n))
    {
      assert Oriented(ring, n) && SameLinks(ring[n], after[n]);
    }
  }

  lemma ClearIff(ring: Ring, members: set<Point>, blind: set<Point>, op: Op)
    requires ring.Keys != {} && Tracks(ring, members, blind) && op.Join?
    ensures Clear(ring, op.joiner) <==> ClearStep(members, blind, op)
  {
    forall b {:trigger SelfPointed(ring, b)} {:trigger b in blind} | b in ring
      ensures SelfPointed(ring, b) <==> b in blind
    {
    }
  }

  lemma TracksAfterJoin(ring: Ring, members: set<Point>, blind: set<Point>, op: Op)
    requires Sound(ring) && Tracks(ring, members, blind) && op.Join? && op.joiner !in ring && Clear(ring, op.joiner)
    ensures var after := Joined(ring, op.joiner);
      Sound(after) && Tracks(after, MembersStep(members, op), BlindStep(members, blind, op))
  {
    ClearJoinKeepsSound(ring, op.joiner);
  }

  lemma SoundJoinStep(ring: Ring, members: set<Point>, blind: set<Point>, op: Op)
    requires Sound(ring) && Tracks(ring, members, blind) && op.Join? && Replied(ring, op)
    ensures Finishes(ring, op)
    ensures Partitioned(Apply(ring, op)) <==> ClearStep(members, blind, op)
    ensures ClearStep(members, blind, op) ==>
            Sound(Apply(ring, op)) && Tracks(Apply(ring, op), MembersStep(members, op), BlindStep(members, blind, op))
  {
    ClearIff(ring, members, blind, op);
    SoundJoinIff(ring, op.entry, op.joiner);
    if Clear(ring, op.joiner) {
      ClearJoin(ring, op.entry, op.joiner);
      TracksAfterJoin(ring, members, blind, op);
    }
  }

  /** It finishes; the intervals stay right exactly if it is clear, and then the ring
      stays sound and its self-pointed members known. */
  lemma SoundStep(ring: Ring, members: set<Point>, blind: set<Point>, op: Op)
    requires Sound(ring) && Tracks(ring, members, blind) && Replied(ring, op)
    ensures Finishes(ring, op)
    ensures Partitioned(Apply(ring, op)) <==> ClearStep(members, blind, op)
    ensures ClearStep(members, blind, op) ==>
            Sound(Apply(ring, op)) && Tracks(Apply(ring, op), MembersStep(members, op), BlindStep(members, blind, op))
  {
    if op.Join? {
      SoundJoinStep(ring, members, blind, op);
    } else {
      OnlyStoringChanges(ring, op);
      SameRoutingKeepsSound(ring, Apply(ring, op));
    }
  }

  lemma InitialSound(first: Point)
    ensures Sound(RingAfter(first, [])) && Tracks(RingAfter(first, []), {first}, {})
  {
    InitialExact(first);
    SafeIsSound(RingAfter(first, []));
  }

  /** Every clear run finishes and keeps the ring sound; its self-pointed members are
      those that landed immediately before a member. */
  lemma {:induction false} ClearRunIsSound(first: Point, ops: seq<Op>)
    requires RepliedRun(first, ops) && ClearRun(first, ops)
    ensures FinishedRun(first, ops) && Sound(RingAfter(first, ops))
    ensures Tracks(RingAfter(first, ops), Members(first, ops), Blind(first, ops))
  {
    if ops == [] {
      InitialSound(first);
    } else {
      var before := ops[..|ops| - 1];
      ClearRunIsSound(first, before);
      SoundStep(RingAfter(first, before), Members(first, before), Blind(first, before), ops[|ops| - 1]);
    }
  }

  ghost predicate AlwaysPartitioned(first: Point, ops: seq<Op>) {
    Partitioned(RingAfter(first, ops)) && (ops == [] || AlwaysPartitioned(first, ops[..|ops| - 1]))
  }

  /** Exactly which runs keep every interval, and with it every answer, right
      throughout: the clear ones. */
  lemma {:induction false} RunPartitionedIff(first: Point, ops: seq<Op>)
    requires RepliedRun(first, ops)
    ensures AlwaysPartitioned(first, ops) <==> ClearRun(first, ops)
  {
    if ops == [] {
      InitialExact(first);
    } else {
      var before := ops[..|ops| - 1];
      RunPartitionedIff(first, before);
      if ClearRun(first, before) {
        ClearRunIsSound(first, before);
        SoundStep(RingAfter(first, before), Members(first, before), Blind(first, before), ops[|ops| - 1]);
      }
    }
  }

  lemma BlockedStep(ring: Ring, members: set<Point>, blind: set<Point>, op: Op)
    requires Sound(ring) && Tracks(ring, members, blind) && op.Join? && Replied(ring, op)
    requires members != {} && !ClearStep(members, blind, op)
    ensures Finishes(ring, op)
    ensures var after, p := Apply(ring, op), Predecessor(members, op.joiner);
      IsRoute(after, [op.joiner], p) && Successor(after.Keys, p) == p != op.joiner
  {
    ClearIff(ring, members, blind, op);
    BlockedJoin(ring, op.entry, op.joiner);
    AnswersItself(Apply(ring, op), op.joiner, Predecessor(members, op.joiner));
  }

  /** A blind member on the arc of the next join: the join completes all the same, and
      the joiner then answers lookups that are another member's. */
  lemma BlockedJoinMisanswers(first: Point, ops: seq<Op>, entry: Point, joiner: Point)
    requires RepliedRun(first, ops) && ClearRun(first, ops) && Served(RingAfter(first, ops), entry, joiner)
    requires !ClearRun(first, ops + [Join(entry, joiner)])
    ensures FinishedRun(first, ops + [Join(entry, joiner)])
    ensures var after, p := RingAfter(first, ops + [Join(entry, joiner)]), Predecessor(Members(first, ops), joiner);
      IsRoute(after, [joiner], p) && Successor(after.Keys, p) == p != joiner
  {
    OneMore(first, ops, Join(entry, joiner));
    ClearRunIsSound(first, ops);
    BlockedStep(RingAfter(first, ops), Members(first, ops), Blind(first, ops), Join(entry, joiner));
  }

  // ---------- what they refine ----------

  /** In a ring whose intervals are right every operation takes place at the true
      successor. */
  lemma StepRefines(ring: Ring, g: Directory, op: Op)
    requires Partitioned(ring) && Refines(ring, g) && NoStrays(ring) && Finishes(ring, op)
    ensures Refines(Apply(ring, op), GlobalStep(g, op)) && NoStrays(Apply(ring, op))
  {
    match op
    case Join(entry, joiner) =>
      var path := Stops(ring, entry, joiner);
      OutcomeOfPartitioned(ring, entry, joiner);
      JoinRefines(ring, g, joiner, Elements(path), Last(path), NewTable(ring.Keys, joiner));
    case Add(at, key, port) =>
      AnswererIsSuccessor(ring, at, key);
      AddRefines(ring, g, key, Contact(at, port));
    case Delete(at, key) =>
      AnswererIsSuccessor(ring, at, key);
      DeleteRefines(ring, g, at, key);
    case Lookup(_, _) =>
  }

  lemma StepSpread(ring: Ring, op: Op)
    requires Named(ring) && AllSpread(ring) && Finishes(ring, op)
    ensures AllSpread(Apply(ring, op))
  {
    if op.Join? {
      OutcomeSpread(ring, op.entry, op.joiner);
    } else {
      OnlyStoringChanges(ring, op);
      SameRoutingKeeps(ring, Apply(ring, op));
    }
  }

  /** Every run from initial_chord keeps the fingers members at their distances,
      clear or not. */
  lemma {:induction false} RunSpread(first: Point, ops: seq<Op>)
    requires FinishedRun(first, ops)
    ensures AllSpread(RingAfter(first, ops))
  {
    if ops == [] {
      InitialExact(first);
      forall n {:trigger SpreadAt(RingAfter(first, ops), n)} | n in RingAfter(first, ops)
        ensures SpreadAt(RingAfter(first, ops), n)
      {
        assert LinkedAt(RingAfter(first, ops), n);
      }
    } else {
      var before := ops[..|ops| - 1];
      RunSpread(first, before);
      StepSpread(RingAfter(first, before), ops[|ops| - 1]);
    }
  }

  /** Every clear run keeps the network a refinement of the global map. */
  lemma {:induction false} RunRefines(first: Point, ops: seq<Op>)
    requires RepliedRun(first, ops) && ClearRun(first, ops)
    ensures Refines(RingAfter(first, ops), GlobalMap(ops)) && NoStrays(RingAfter(first, ops))
  {
    if ops != [] {
      var before := ops[..|ops| - 1];
      RunRefines(first, before);
      ClearRunIsSound(first, before);
      ClearRunIsSound(first, ops);
      StepRefines(RingAfter(first, before), GlobalMap(before), ops[|ops| - 1]);
    }
  }

  /** After any clear run, stale fingers or not, a lookup that is answered is
      answered by the true successor and, unless the key is a member's hash,
      reports what the global map holds. */
  lemma AnswersAgreeWithGlobalMap(first: Point, ops: seq<Op>, key: Point)
    requires RepliedRun(first, ops) && ClearRun(first, ops)
    ensures forall path {:trigger IsRoute(RingAfter(first, ops), path, key)} ::
      IsRoute(RingAfter(first, ops), path, key) ==>
        var ring, last := RingAfter(first, ops), path[|path| - 1];
        && last == Successor(ring.Keys, key)
        && (key !in ring ==> Find(ring[last].dht, key) == Find(GlobalMap(ops), key))
  {
    var ring := RingAfter(first, ops);
    RunRefines(first, ops);
    ClearRunIsSound(first, ops);
    assert key !in ring ==> Stored(ring, key) == Find(GlobalMap(ops), key);
    forall path: seq<Point> | IsRoute(ring, path, key)
      ensures path[|path| - 1] == Successor(ring.Keys, key)
    {
      AnswerIsSuccessor(ring, path, key);
    }
  }

  // ---------- all keys, members' hashes included ----------

  /** A global map that forgets, at each join, the two hashes the join loses. */
  ghost function ForgetfulStep(g: Directory, members: set<Point>, op: Op): Directory
    requires members != {}
  {
    if op.Join? then g - {op.joiner, Successor(members, op.joiner)} else GlobalStep(g, op)
  }

  ghost function ForgetfulMap(first: Point, ops: seq<Op>): Directory {
    if ops == [] then map[]
    else
      var before := ops[..|ops| - 1];
      ForgetfulStep(ForgetfulMap(first, before), Members(first, before), ops[|ops| - 1])
  }

  /** The j-th operation is a join that loses the key. */
  ghost predicate Loses(first: Point, ops: seq<Op>, j: nat, key: Point)
    requires j < |ops|
  {
    ops[j].Join? && (key == ops[j].joiner || key == Successor(Members(first, ops[..j]), ops[j].joiner))
  }

  /** The i-th operation adds the key for its owner when the key is free, and neither
      does the owner delete it later nor a join lose it. */
  ghost predicate AddsToStay(first: Point, ops: seq<Op>, i: nat, key: Point, owner: Contact)
    requires i < |ops|
  {
    && ops[i] == Add(owner.host, key, owner.port)
    && key !in ForgetfulMap(first, ops[..i])
    && forall j :: i < j < |ops| ==> ops[j] != Delete(owner.host, key) && !Loses(first, ops, j, key)
  }

  lemma AddsToStayPrefix(first: Point, ops: seq<Op>, i: nat, key: Point, owner: Contact)
    requires i < |ops| - 1
    ensures AddsToStay(first, ops, i, key, owner) <==>
            && AddsToStay(first, ops[..|ops| - 1], i, key, owner)
            && ops[|ops| - 1] != Delete(owner.host, key) && !Loses(first, ops, |ops| - 1, key)
  {
    assert ops[..|ops| - 1][..i] == ops[..i];
    forall j | i < j < |ops| - 1
      ensures Loses(first, ops, j, key) <==> Loses(first, ops[..|ops| - 1], j, key)
    {
      assert ops[..|ops| - 1][..j] == ops[..j];
    }
  }

  /** What the forgetful map holds, in terms of the operations: an entry is there
      exactly if its owner added it, on its own port, when the key was free, and since
      then has not deleted it and no join has lost it. */
  lemma {:induction false} ForgetfulMapHolds(first: Point, ops: seq<Op>, key: Point, owner: Contact)
    ensures key in ForgetfulMap(first, ops) && ForgetfulMap(first, ops)[key] == owner
            <==> exists i: nat :: i < |ops| && AddsToStay(first, ops, i, key, owner)
  {
    if ops != [] {
      var last := |ops| - 1;
      ForgetfulMapHolds(first, ops[..last], key, owner);
      forall i: nat | i < last
        ensures AddsToStay(first, ops, i, key, owner) <==>
                && AddsToStay(first, ops[..last], i, key, owner)
                && ops[last] != Delete(owner.host, key) && !Loses(first, ops, last, key)
      {
        AddsToStayPrefix(first, ops, i, key, owner);
      }
      if key in ForgetfulMap(first, ops) && ForgetfulMap(first, ops)[key] == owner {
        if i: nat :| i < last && AddsToStay(first, ops[..last], i, key, owner) {
          assert AddsToStay(first, ops, i, key, owner);
        } else {
          assert AddsToStay(first, ops, last, key, owner);
        }
      }
    }
  }

  lemma StepStoresAll(ring: Ring, g: Directory, op: Op)
    requires Partitioned(ring) && Finishes(ring, op) && StoresAll(ring, g)
    ensures StoresAll(Apply(ring, op), ForgetfulStep(g, ring.Keys, op))
  {
    match op
    case Join(entry, joiner) =>
      var path := Stops(ring, entry, joiner);
      OutcomeOfPartitioned(ring, entry, joiner);
      JoinStoresAll(ring, g, joiner, Elements(path), Last(path), NewTable(ring.Keys, joiner));
    case Add(at, key, port) =>
      AnswererIsSuccessor(ring, at, key);
      AddStoresAll(ring, g, key, Contact(at, port));
    case Delete(at, key) =>
      AnswererIsSuccessor(ring, at, key);
      DeleteStoresAll(ring, g, at, key);
    case Lookup(_, _) =>
  }

  /** For every key whatever, a clear run's lookups report the forgetful map. */
  lemma {:induction false} RunStoresForgetfulMap(first: Point, ops: seq<Op>)
    requires RepliedRun(first, ops) && ClearRun(first, ops)
    ensures StoresAll(RingAfter(first, ops), ForgetfulMap(first, ops))
  {
    if ops != [] {
      var before := ops[..|ops| - 1];
      RunStoresForgetfulMap(first, before);
      ClearRunIsSound(first, before);
      ClearRunIsSound(first, ops);
      StepStoresAll(RingAfter(first, before), ForgetfulMap(first, before), ops[|ops| - 1]);
    }
  }

  // ---------- runs with true successors ----------

  lemma {:induction false} NobodyBlindIsClear(first: Point, ops: seq<Op>)
    requires Blind(first, ops) == {}
    ensures ClearRun(first, ops)
  {
    if ops != [] {
      NobodyBlindIsClear(first, ops[..|ops| - 1]);
    }
  }

  lemma NobodyBlindIff(ring: Ring, members: set<Point>, blind: set<Point>)
    requires Tracks(ring, members, blind)
    ensures blind == {} <==> forall n :: n in ring ==> !SelfPointed(ring, n)
  {
    if blind != {} {
      var b :| b in blind;
      assert SelfPointed(ring, b);
    }
  }

  /** A clear run leaves every first finger the true successor exactly if no joiner
      landed immediately before a member. */
  lemma RunSafeIff(first: Point, ops: seq<Op>)
    requires RepliedRun(first, ops) && ClearRun(first, ops)
    ensures Safe(RingAfter(first, ops)) <==> Blind(first, ops) == {}
  {
    var ring := RingAfter(first, ops);
    ClearRunIsSound(first, ops);
    RunSpread(first, ops);
    NobodyBlindIff(ring, Members(first, ops), Blind(first, ops));
    if Safe(ring) {
      SafeIsSound(ring);
    } else if Blind(first, ops) == {} {
      SoundIsSafe(ring);
    }
  }

  /** While none has, the next join may land anywhere, immediately before a member
      too: every answer stays right. */
  lemma NextJoinIsClear(first: Point, ops: seq<Op>, entry: Point, joiner: Point)
    requires RepliedRun(first, ops) && Blind(first, ops) == {} && Served(RingAfter(first, ops), entry, joiner)
    ensures RepliedRun(first, ops + [Join(entry, joiner)]) && ClearRun(first, ops + [Join(entry, joiner)])
    ensures RingAfter(first, ops + [Join(entry, joiner)]) == Joined(RingAfter(first, ops), joiner)
  {
    NobodyBlindIsClear(first, ops);
    RunSafeIff(first, ops);
    SafeJoinCompletes(RingAfter(first, ops), entry, joiner);
    OneMore(first, ops, Join(entry, joiner));
  }

  // ---------- runs with every lookup answered ----------

  /** The operation asks for nothing impossible: members act, the joiner is new, and
      a delete finds its key. */
  ghost predicate Sensible(ring: Ring, op: Op)
    requires Named(ring)
  {
    match op
    case Join(entry, joiner) => entry in ring && joiner !in ring
    case Add(at, _, _) => at in ring
    case Delete(at, key) => at in ring && key in ring[Successor(ring.Keys, key)].dht
    case Lookup(at, _) => at in ring
  }

  ghost predicate SensibleRun(first: Point, ops: seq<Op>) {
    ops == [] ||
    (SensibleRun(first, ops[..|ops| - 1]) && Sensible(RingAfter(first, ops[..|ops| - 1]), ops[|ops| - 1]))
  }

  ghost predicate AlwaysAnswered(first: Point, ops: seq<Op>) {
    AllAnswered(RingAfter(first, ops)) && (ops == [] || AlwaysAnswered(first, ops[..|ops| - 1]))
  }

  /** In a ring that answers every lookup every join is served. */
  lemma AnsweringRingServes(ring: Ring, entry: Point, joiner: Point)
    requires Named(ring) && AllAnswered(ring) && entry in ring && joiner !in ring
    ensures Served(ring, entry, joiner)
  {
  }

  /** In a safe ring that answers every lookup the operations that finish are those
      that ask for nothing impossible, and a join is as the theorems of Joining say. */
  lemma SensibleFinishes(ring: Ring, op: Op)
    requires Safe(ring) && AllAnswered(ring)
    ensures Finishes(ring, op) <==> Sensible(ring, op)
    ensures Finishes(ring, op) && op.Join? ==> Apply(ring, op) == Joined(ring, op.joiner)
  {
    match op
    case Join(entry, joiner) =>
      if Sensible(ring, op) {
        AnsweringRingServes(ring, entry, joiner);
        SafeJoinCompletes(ring, entry, joiner);
      }
    case Delete(at, key) =>
      if at in ring {
        AnswererIsSuccessor(ring, at, key);
      }
    case _ =>
  }

  lemma InitialAnswers(first: Point)
    ensures Safe(RingAfter(first, [])) && AllAnswered(RingAfter(first, []))
  {
    InitialExact(first);
    ExactAnswersAll(RingAfter(first, []));
  }

  /** No joiner had a member a power of two past it. */
  ghost predicate FreeRun(first: Point, ops: seq<Op>) {
    ops == [] ||
    var before, op := ops[..|ops| - 1], ops[|ops| - 1];
    FreeRun(first, before) && (op.Join? ==> TargetsFree(Members(first, before), op.joiner))
  }

  /** And all who ever joined fit in less than half the circle: again a condition on
      who joined, where and in what order, and on nothing else. */
  ghost predicate CompactRun(first: Point, ops: seq<Op>) {
    FreeRun(first, ops) && Compact(Members(first, ops))
  }

  ghost predicate AlwaysExact(first: Point, ops: seq<Op>) {
    Exact(RingAfter(first, ops)) && (ops == [] || AlwaysExact(first, ops[..|ops| - 1]))
  }

  ghost predicate CompactStep(s: set<Point>, op: Op) {
    op.Join? ==> TargetsFree(s, op.joiner) && Compact(s + {op.joiner})
  }

  lemma StoringKeepsExact(ring: Ring, op: Op)
    requires Exact(ring) && !op.Join?
    ensures Exact(Apply(ring, op)) && AllAnswered(Apply(ring, op)) && Apply(ring, op).Keys == ring.Keys
  {
    OnlyStoringChanges(ring, op);
    SameRoutingKeepsSafe(ring, Apply(ring, op));
    ExactAnswersAll(Apply(ring, op));
  }

  lemma NextPointFree(s: set<Point>, joiner: Point)
    requires TargetsFree(s, joiner)
    ensures HashAdd(joiner, 1) !in s
  {
    assert Target(joiner, 0) == HashAdd(joiner, 1);
  }

  lemma SensibleKeys(ring: Ring, op: Op)
    requires Safe(ring) && AllAnswered(ring) && Sensible(ring, op)
    ensures Apply(ring, op).Keys == MembersStep(ring.Keys, op)
  {
    SensibleFinishes(ring, op);
  }

  /** From an exact ring with compact members, the same steps leave every lookup
      answered and leave the ring exact. */
  lemma CompactStepIff(ring: Ring, op: Op)
    requires Exact(ring) && Compact(ring.Keys) && Sensible(ring, op)
    ensures AllAnswered(Apply(ring, op)) <==> CompactStep(ring.Keys, op)
    ensures Exact(Apply(ring, op)) <==> CompactStep(ring.Keys, op)
  {
    if op.Join? {
      ExactAnswersAll(ring);
      SensibleFinishes(ring, op);
      CompactRingJoinIff(ring, op.joiner);
    } else {
      StoringKeepsExact(ring, op);
    }
  }

  lemma CompactBefore(first: Point, ops: seq<Op>)
    requires ops != [] && CompactRun(first, ops)
    ensures CompactRun(first, ops[..|ops| - 1]) && CompactStep(Members(first, ops[..|ops| - 1]), ops[|ops| - 1])
  {
    FewerIsCompact(Members(first, ops), Members(first, ops[..|ops| - 1]));
  }

  /** A compact run carries out every operation asked for, nobody lands immediately
      before a member, and every finger of every node is right. */
  lemma {:induction false} CompactRunIsExact(first: Point, ops: seq<Op>)
    requires SensibleRun(first, ops) && CompactRun(first, ops)
    ensures RepliedRun(first, ops) && Blind(first, ops) == {} && RingAfter(first, ops).Keys == Members(first, ops)
    ensures Exact(RingAfter(first, ops))
  {
    if ops == [] {
      InitialExact(first);
      InitialSound(first);
    } else {
      var before := ops[..|ops| - 1];
      CompactBefore(first, ops);
      CompactRunIsExact(first, before);
      ExactAnswersAll(RingAfter(first, before));
      SensibleFinishes(RingAfter(first, before), ops[|ops| - 1]);
      SensibleKeys(RingAfter(first, before), ops[|ops| - 1]);
      CompactStepIff(RingAfter(first, before), ops[|ops| - 1]);
      if ops[|ops| - 1].Join? {
        NextPointFree(Members(first, before), ops[|ops| - 1].joiner);
      }
    }
  }

  lemma InitialCompact(first: Point)
    ensures CompactRun(first, []) && AlwaysAnswered(first, []) && AlwaysExact(first, [])
  {
    SoleIsCompact(first);
    InitialExact(first);
    InitialAnswers(first);
  }

  /** Exactly which runs have every lookup answered, from every node and for every
      key, throughout, and exactly which keep every finger right throughout: the
      same ones, the compact ones. */
  lemma {:induction false} RunAnswersIff(first: Point, ops: seq<Op>)
    requires SensibleRun(first, ops)
    ensures AlwaysAnswered(first, ops) <==> CompactRun(first, ops)
    ensures AlwaysExact(first, ops) <==> CompactRun(first, ops)
  {
    if ops == [] {
      InitialCompact(first);
    } else {
      var before, op := ops[..|ops| - 1], ops[|ops| - 1];
      RunAnswersIff(first, before);
      if CompactRun(first, before) {
        CompactRunIsExact(first, before);
        CompactStepIff(RingAfter(first, before), op);
      } else if CompactRun(first, ops) {
        CompactBefore(first, ops);
      }
    }
  }

  /** After a compact run every node's lookup is answered within m hops, and all
      nodes report the one global map. */
  lemma EveryNodeReportsGlobalMap(first: Point, ops: seq<Op>, n: Point, key: Point) returns (path: seq<Point>)
    requires SensibleRun(first, ops) && CompactRun(first, ops)
    requires n in RingAfter(first, ops) && key !in RingAfter(first, ops)
    ensures IsRoute(RingAfter(first, ops), path, key) && path[0] == n && |path| - 1 <= FINGER_TABLE_LENGTH
    ensures Find(RingAfter(first, ops)[path[|path| - 1]].dht, key) == Find(GlobalMap(ops), key)
  {
    CompactRunIsExact(first, ops);
    NobodyBlindIsClear(first, ops);
    path := LookupTotal(RingAfter(first, ops), n, key);
    AnswersAgreeWithGlobalMap(first, ops, key);
  }
}
