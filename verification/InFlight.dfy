/** Lookups and adds in flight together, over fixed members whose intervals are
    right, whatever their fingers: any interleaving of message deliveries
    (src/lookup.cpp, src/node.cpp). */
module InFlight {
  import opened Options
  import opened RingArithmetic
  import opened Membership
  import opened NodeState
  import opened Routing
  import opened GlobalDirectory
  import opened Runs

  /** A lookup on its way: it arrives next at the node at.  An add begins with a
      lookup; port is then the port of the file's owner. */
  datatype Request = Request(key: Point, source: Point, port: Option<string>, at: Point, hops: nat)

  datatype Reply = Reply(id: nat, to: Point, key: Point, successor: Point, owner: Option<Contact>, step: int)

  /** An AddFileRequest on its way to the node the lookup named. */
  datatype Insert = Insert(to: Point, key: Point, owner: Contact)

  datatype Step =
    | Issue(source: Point, key: Point, port: Option<string>)
    | Deliver(id: nat)
    | DeliverInsert(id: nat)

  /** history holds the global map before each step so far and, last, now. */
  datatype System = System(
    ring: Ring,
    issued: seq<Request>,
    flight: map<nat, Request>,
    inserts: map<nat, Insert>,
    replies: seq<Reply>,
    history: seq<Directory>)

  ghost predicate Enabled(sys: System, step: Step) {
    match step
    case Issue(source, _, _) => source in sys.ring
    case Deliver(id) => id in sys.flight && sys.flight[id].at in sys.ring
    case DeliverInsert(id) => id in sys.inserts && sys.inserts[id].to in sys.ring
  }

  function Now(sys: System): Directory {
    if sys.history == [] then map[] else sys.history[|sys.history| - 1]
  }

  /** The node a request arrives at answers its source or forwards it; when the
      answer reaches an adder, its insert is on its way. */
  function Delivered(sys: System, id: nat): System
    requires id in sys.flight && sys.flight[id].at in sys.ring
  {
    var req := sys.flight[id];
    var n := sys.ring[req.at];
    if n.Responsible(req.key) then
      sys.(flight := sys.flight - {id},
           inserts := if req.port.None? then sys.inserts
                      else sys.inserts[id := Insert(req.at, req.key, Contact(req.source, req.port.value))],
           replies := sys.replies + [Reply(id, req.source, req.key, req.at, Find(n.dht, req.key), |sys.history| - 1)],
           history := sys.history + [Now(sys)])
    else
      assert req.key != n.hash;
      sys.(flight := sys.flight[id := req.(at := n.NextHop(req.key), hops := req.hops + 1)],
           history := sys.history + [Now(sys)])
  }

  /** The first insert of a key wins, at the node and in the global map. */
  function Inserted(sys: System, id: nat): System
    requires id in sys.inserts && sys.inserts[id].to in sys.ring
  {
    var ins := sys.inserts[id];
    sys.(ring := AddedAt(sys.ring, ins.to, ins.key, ins.owner),
         inserts := sys.inserts - {id},
         history := sys.history + [if ins.key in Now(sys) then Now(sys) else Now(sys)[ins.key := ins.owner]])
  }

  function Next(sys: System, step: Step): System
    requires Enabled(sys, step)
  {
    match step
    case Issue(source, key, port) =>
      var req := Request(key, source, port, source, 0);
      sys.(flight := sys.flight[|sys.issued| := req],
           issued := sys.issued + [req],
           history := sys.history + [Now(sys)])
    case Deliver(id) => Delivered(sys, id)
    case DeliverInsert(id) => Inserted(sys, id)
  }

  // ---------- the invariant ----------

  // The ring's routing never changes: base is the ring the run began with.

  /** A request in flight is the one issued and is at a member; where it is, it is
      answered if it was to be answered at its source, and it has that much less of
      its route left as it has been forwarded. */
  ghost predicate OnItsWay(base: Ring, sys: System, id: nat)
    requires Named(base) && id in sys.flight
  {
    var req := sys.flight[id];
    && id < |sys.issued|
    && req.key == sys.issued[id].key && req.source == sys.issued[id].source && req.port == sys.issued[id].port
    && req.at in base
    && (Answered(base, req.at, req.key) <==> Answered(base, req.source, req.key))
    && (Answered(base, req.at, req.key) ==>
          req.hops + |Route(base, req.at, req.key)| == |Route(base, req.source, req.key)|)
  }

  /** A reply goes to the issuer of a lookup that is to be answered, names the true
      successor and tells what the global map held at its step. */
  ghost predicate Truthful(base: Ring, sys: System, r: Reply)
    requires Named(base)
  {
    && r.id < |sys.issued|
    && r.to == sys.issued[r.id].source && r.key == sys.issued[r.id].key
    && Answered(base, r.to, r.key)
    && r.successor == Successor(base.Keys, r.key)
    && 0 <= r.step < |sys.history|
    && r.owner == Find(sys.history[r.step], r.key)
  }

  /** An insert is on its way for an answered request that came with a port: to the
      key's successor, in the name of the host that asked, on the port it gave. */
  ghost predicate RightInsert(base: Ring, sys: System, id: nat)
    requires Named(base) && id in sys.inserts
  {
    && id < |sys.issued| && id !in sys.flight && sys.issued[id].port.Some?
    && sys.inserts[id].to == Successor(base.Keys, sys.issued[id].key)
    && sys.inserts[id].key == sys.issued[id].key
    && sys.inserts[id].owner == Contact(sys.issued[id].source, sys.issued[id].port.value)
  }

  ghost predicate Grows(history: seq<Directory>) {
    forall i, j, key :: 0 <= i <= j < |history| && key in history[i] ==>
      key in history[j] && history[j][key] == history[i][key]
  }

  ghost predicate AnsweredBy(sys: System, id: nat, k: int) {
    && 0 <= k < |sys.replies| && sys.replies[k].id == id
    && forall l :: 0 <= l < |sys.replies| && sys.replies[l].id == id ==> l == k
  }

  /** A lookup is in flight or has its one reply, and not both. */
  ghost predicate Accounted(sys: System, id: nat) {
    if id in sys.flight then forall k :: 0 <= k < |sys.replies| ==> sys.replies[k].id != id
    else exists k :: AnsweredBy(sys, id, k)
  }

  /** Every interval is right, and every finger a member at its distance. */
  ghost predicate Base(base: Ring) {
    Partitioned(base) && AllSpread(base)
  }

  ghost predicate Inv(base: Ring, sys: System)
    requires Base(base)
  {
    && SameRouting(base, sys.ring)
    && sys.history != []
    && StoresAll(sys.ring, Now(sys))
    && (forall id :: 0 <= id < |sys.issued| ==> sys.issued[id].source in base)
    && Grows(sys.history)
    && (forall id {:trigger OnItsWay(base, sys, id)} :: id in sys.flight ==> OnItsWay(base, sys, id))
    && (forall id {:trigger Accounted(sys, id)} :: 0 <= id < |sys.issued| ==> Accounted(sys, id))
    && (forall k :: 0 <= k < |sys.replies| ==> Truthful(base, sys, sys.replies[k]))
    && (forall id {:trigger RightInsert(base, sys, id)} :: id in sys.inserts ==> RightInsert(base, sys, id))
  }

  /** Where every run begins: nothing in flight, the tables as the map says. */
  function Start(ring: Ring, g: Directory): System {
    System(ring, [], map[], map[], [], [g])
  }

  lemma StartInv(base: Ring, g: Directory)
    requires Base(base) && StoresAll(base, g)
    ensures Inv(base, Start(base, g))
  {
  }

  lemma GrowsByOne(history: seq<Directory>, g: Directory)
    requires Grows(history) && history != []
    requires forall key :: key in history[|history| - 1] ==> key in g && g[key] == history[|history| - 1][key]
    ensures Grows(history + [g])
  {
  }

  lemma AccountedSame(sys: System, after: System, id: nat)
    requires Accounted(sys, id) && after.replies == sys.replies
    requires id in after.flight <==> id in sys.flight
    ensures Accounted(after, id)
  {
    if id !in sys.flight {
      var k :| AnsweredBy(sys, id, k);
      assert AnsweredBy(after, id, k);
    }
  }

  lemma TruthfulSame(base: Ring, sys: System, after: System)
    requires Named(base)
    requires sys.issued <= after.issued && sys.history <= after.history
    requires forall k :: 0 <= k < |sys.replies| ==> Truthful(base, sys, sys.replies[k])
    ensures forall k :: 0 <= k < |sys.replies| ==> Truthful(base, after, sys.replies[k])
  {
  }

  lemma OnItsWaySame(base: Ring, sys: System, after: System, id: nat)
    requires Named(base) && id in sys.flight && OnItsWay(base, sys, id) && sys.issued <= after.issued
    requires id in after.flight && after.flight[id] == sys.flight[id]
    ensures OnItsWay(base, after, id)
  {
  }

  lemma InsertsSame(base: Ring, sys: System, after: System)
    requires Base(base) && Inv(base, sys) && sys.issued <= after.issued
    requires forall id :: id in after.inserts ==> id in sys.inserts && after.inserts[id] == sys.inserts[id]
    requires forall id :: id in after.flight ==> id in sys.flight || |sys.issued| <= id
    ensures forall id {:trigger RightInsert(base, after, id)} :: id in after.inserts ==> RightInsert(base, after, id)
  {
    forall id {:trigger RightInsert(base, after, id)} | id in after.inserts
      ensures RightInsert(base, after, id)
    {
      assert RightInsert(base, sys, id);
    }
  }

  lemma IssueInv(base: Ring, sys: System, source: Point, key: Point, port: Option<string>)
    requires Base(base) && Inv(base, sys) && source in sys.ring
    ensures Inv(base, Next(sys, Issue(source, key, port)))
  {
    var after := Next(sys, Issue(source, key, port));
    GrowsByOne(sys.history, Now(sys));
    forall id {:trigger OnItsWay(base, after, id)} | id in after.flight
      ensures OnItsWay(base, after, id)
    {
      if id != |sys.issued| {
        assert OnItsWay(base, sys, id);
      }
    }
    forall id {:trigger Accounted(after, id)} | 0 <= id < |after.issued|
      ensures Accounted(after, id)
    {
      if id == |sys.issued| {
        forall k | 0 <= k < |after.replies|
          ensures after.replies[k].id != id
        {
          assert Truthful(base, sys, sys.replies[k]);
        }
      } else {
        assert Accounted(sys, id);
        AccountedSame(sys, after, id);
      }
    }
    TruthfulSame(base, sys, after);
    InsertsSame(base, sys, after);
  }

  /** One forwarding, at the level of the ring. */
  lemma ForwardOnItsWay(base: Ring, sys: System, id: nat)
    requires Base(base) && Inv(base, sys) && id in sys.flight && sys.flight[id].at in sys.ring
    requires !sys.ring[sys.flight[id].at].Responsible(sys.flight[id].key)
    ensures id in Delivered(sys, id).flight && OnItsWay(base, Delivered(sys, id), id)
    ensures Delivered(sys, id).flight[id].hops == sys.flight[id].hops + 1
  {
    var req := sys.flight[id];
    var n := base[req.at];
    assert OnItsWay(base, sys, id) && SameLinks(n, sys.ring[req.at]) && SpreadAt(base, req.at);
    assert Gap(req.at, req.at) == 0;
    HopIsMember(base, req.at, req.key);
    RouteAfterHop(base, req.at, n.NextHop(req.key), req.key);
  }

  lemma ForwardInv(base: Ring, sys: System, id: nat)
    requires Base(base) && Inv(base, sys) && id in sys.flight && sys.flight[id].at in sys.ring
    requires !sys.ring[sys.flight[id].at].Responsible(sys.flight[id].key)
    ensures Inv(base, Delivered(sys, id))
    ensures id in Delivered(sys, id).flight && Delivered(sys, id).flight[id].hops == sys.flight[id].hops + 1
  {
    var after := Delivered(sys, id);
    GrowsByOne(sys.history, Now(sys));
    ForwardOnItsWay(base, sys, id);
    forall k {:trigger OnItsWay(base, after, k)} | k in after.flight
      ensures OnItsWay(base, after, k)
    {
      assert OnItsWay(base, sys, k);
    }
    forall k {:trigger Accounted(after, k)} | 0 <= k < |after.issued|
      ensures Accounted(after, k)
    {
      assert Accounted(sys, k);
      AccountedSame(sys, after, k);
    }
    TruthfulSame(base, sys, after);
    InsertsSame(base, sys, after);
  }

  lemma AnswerAccounted(base: Ring, sys: System, after: System, id: nat, r: Reply)
    requires Base(base) && Inv(base, sys) && id in sys.flight && r.id == id && after.issued == sys.issued
    requires after.flight == sys.flight - {id} && after.replies == sys.replies + [r]
    ensures forall k {:trigger Accounted(after, k)} :: 0 <= k < |after.issued| ==> Accounted(after, k)
  {
    assert OnItsWay(base, sys, id);
    forall k {:trigger Accounted(after, k)} | 0 <= k < |after.issued|
      ensures Accounted(after, k)
    {
      assert Accounted(sys, k) && Accounted(sys, id);
      if k == id {
        assert AnsweredBy(after, id, |sys.replies|);
      } else if k !in sys.flight {
        var l :| AnsweredBy(sys, k, l);
        assert AnsweredBy(after, k, l);
      }
    }
  }

  lemma AnswerTruthful(base: Ring, sys: System, id: nat)
    requires Base(base) && Inv(base, sys) && id in sys.flight && sys.flight[id].at in sys.ring
    requires sys.ring[sys.flight[id].at].Responsible(sys.flight[id].key)
    ensures sys.flight[id].at == Successor(base.Keys, sys.flight[id].key)
    ensures Answered(base, sys.flight[id].source, sys.flight[id].key)
    ensures |Route(base, sys.flight[id].source, sys.flight[id].key)| == sys.flight[id].hops + 1
    ensures Find(sys.ring[sys.flight[id].at].dht, sys.flight[id].key) == Find(Now(sys), sys.flight[id].key)
    ensures Truthful(base, Delivered(sys, id), Delivered(sys, id).replies[|sys.replies|])
  {
    var req := sys.flight[id];
    assert OnItsWay(base, sys, id) && SameLinks(base[req.at], sys.ring[req.at]);
    ResponsibilityPartitions(base, req.key);
    RouteOfAnswerer(base, req.at, req.key);
    assert Stored(sys.ring, req.key) == Find(Now(sys), req.key);
  }

  lemma AnswerKeepsRequests(base: Ring, sys: System, id: nat)
    requires Base(base) && Inv(base, sys) && id in sys.flight && sys.flight[id].at in sys.ring
    requires sys.ring[sys.flight[id].at].Responsible(sys.flight[id].key)
    ensures var after := Delivered(sys, id);
      && (forall k {:trigger OnItsWay(base, after, k)} :: k in after.flight ==> OnItsWay(base, after, k))
      && (forall k :: 0 <= k < |after.replies| ==> Truthful(base, after, after.replies[k]))
  {
    var after := Delivered(sys, id);
    forall k {:trigger OnItsWay(base, after, k)} | k in after.flight
      ensures OnItsWay(base, after, k)
    {
      assert OnItsWay(base, sys, k);
      OnItsWaySame(base, sys, after, k);
    }
    TruthfulSame(base, sys, after);
    AnswerTruthful(base, sys, id);
  }

  lemma InsertsNotInFlight(base: Ring, sys: System)
    requires Base(base) && Inv(base, sys)
    ensures forall id :: id in sys.inserts ==> id !in sys.flight
  {
    forall id | id in sys.inserts
      ensures id !in sys.flight
    {
      assert RightInsert(base, sys, id);
    }
  }

  lemma AnswerInserts(base: Ring, sys: System, id: nat)
    requires Base(base) && Inv(base, sys) && id in sys.flight && sys.flight[id].at in sys.ring
    requires sys.ring[sys.flight[id].at].Responsible(sys.flight[id].key)
    ensures var after := Delivered(sys, id);
      forall k {:trigger RightInsert(base, after, k)} :: k in after.inserts ==> RightInsert(base, after, k)
  {
    var after := Delivered(sys, id);
    assert OnItsWay(base, sys, id);
    AnswerTruthful(base, sys, id);
    InsertsNotInFlight(base, sys);
    forall k {:trigger RightInsert(base, after, k)} | k in after.inserts
      ensures RightInsert(base, after, k)
    {
      if k != id {
        assert RightInsert(base, sys, k);
      }
    }
  }

  lemma AnswerKeepsInv(base: Ring, sys: System, id: nat)
    requires Base(base) && Inv(base, sys) && id in sys.flight && sys.flight[id].at in sys.ring
    requires sys.ring[sys.flight[id].at].Responsible(sys.flight[id].key)
    ensures Inv(base, Delivered(sys, id))
  {
    var after := Delivered(sys, id);
    GrowsByOne(sys.history, Now(sys));
    AnswerTruthful(base, sys, id);
    AnswerKeepsRequests(base, sys, id);
    AnswerAccounted(base, sys, after, id, after.replies[|sys.replies|]);
    AnswerInserts(base, sys, id);
    assert after.ring == sys.ring && Now(after) == Now(sys);
  }

  /** The answering step: the one reply, to the source, with the map's answer. */
  lemma AnswerInv(base: Ring, sys: System, id: nat)
    requires Base(base) && Inv(base, sys) && id in sys.flight && sys.flight[id].at in sys.ring
    requires sys.ring[sys.flight[id].at].Responsible(sys.flight[id].key)
    ensures Inv(base, Delivered(sys, id))
    ensures id !in Delivered(sys, id).flight
    ensures var req := sys.flight[id];
            Delivered(sys, id).replies == sys.replies
              + [Reply(id, req.source, req.key, Successor(base.Keys, req.key), Find(Now(sys), req.key),
                       |sys.history| - 1)]
  {
    AnswerTruthful(base, sys, id);
    AnswerKeepsInv(base, sys, id);
  }

  lemma InsertKeepsRouting(base: Ring, sys: System, id: nat)
    requires Base(base) && Inv(base, sys) && id in sys.inserts && sys.inserts[id].to in sys.ring
    ensures var after := Inserted(sys, id);
      && SameRouting(base, after.ring) && Grows(after.history) && StoresAll(after.ring, Now(after))
  {
    var ins, after := sys.inserts[id], Inserted(sys, id);
    assert RightInsert(base, sys, id);
    assert Stored(sys.ring, ins.key) == Find(Now(sys), ins.key);
    GrowsByOne(sys.history, Now(after));
    AddStoresAll(sys.ring, Now(sys), ins.key, ins.owner);
    forall n {:trigger after.ring[n]} | n in base
      ensures SameLinks(base[n], after.ring[n])
    {
      assert SameLinks(base[n], sys.ring[n]);
    }
  }

  /** The arrival of an insert: the map, and the ring with it, gets the entry the
      adder asked for, if the key was free, and nothing else changes. */
  lemma InsertInv(base: Ring, sys: System, id: nat)
    requires Base(base) && Inv(base, sys) && id in sys.inserts && sys.inserts[id].to in sys.ring
    ensures Inv(base, Inserted(sys, id)) && id !in Inserted(sys, id).inserts
    ensures id < |sys.issued| && sys.issued[id].port.Some?
    ensures var req := sys.issued[id];
            Now(Inserted(sys, id)) == if req.key in Now(sys) then Now(sys)
                                      else Now(sys)[req.key := Contact(req.source, req.port.value)]
  {
    var after := Inserted(sys, id);
    assert RightInsert(base, sys, id);
    InsertKeepsRouting(base, sys, id);
    forall k {:trigger OnItsWay(base, after, k)} | k in after.flight
      ensures OnItsWay(base, after, k)
    {
      assert OnItsWay(base, sys, k);
    }
    forall k {:trigger Accounted(after, k)} | 0 <= k < |after.issued|
      ensures Accounted(after, k)
    {
      assert Accounted(sys, k);
      AccountedSame(sys, after, k);
    }
    TruthfulSame(base, sys, after);
    InsertsSame(base, sys, after);
  }

  lemma StepInv(base: Ring, sys: System, step: Step)
    requires Base(base) && Inv(base, sys) && Enabled(sys, step)
    ensures Inv(base, Next(sys, step))
  {
    match step
    case Issue(source, key, port) => IssueInv(base, sys, source, key, port);
    case Deliver(id) =>
      if sys.ring[sys.flight[id].at].Responsible(sys.flight[id].key) {
        AnswerInv(base, sys, id);
      } else {
        ForwardInv(base, sys, id);
      }
    case DeliverInsert(id) => InsertInv(base, sys, id);
  }

  // ---------- whole runs ----------

  ghost predicate Follows(sys: System, step: Step, after: System) {
    Enabled(sys, step) && after == Next(sys, step)
  }

  /** The states of a run: each follows from the one before by an enabled step. */
  ghost predicate IsRun(states: seq<System>, steps: seq<Step>) {
    && |states| == |steps| + 1
    && forall i :: 0 <= i < |steps| ==> Follows(states[i], steps[i], states[i + 1])
  }

  function Deliveries(steps: seq<Step>, id: nat): nat {
    if steps == [] then 0
    else Deliveries(steps[..|steps| - 1], id) + if steps[|steps| - 1] == Deliver(id) then 1 else 0
  }

  /** A request in flight has been delivered as often as it was forwarded; one that
      has been answered, once for each node of its route. */
  ghost function DeliveryCount(base: Ring, sys: System, id: nat): nat
    requires Named(base)
  {
    if id in sys.flight then sys.flight[id].hops
    else if id < |sys.issued| && Answered(base, sys.issued[id].source, sys.issued[id].key)
    then |Route(base, sys.issued[id].source, sys.issued[id].key)|
    else 0
  }

  /** The lookups a run issues, in order. */
  function IssuedBy(steps: seq<Step>): seq<Request> {
    if steps == [] then []
    else
      var before := IssuedBy(steps[..|steps| - 1]);
      match steps[|steps| - 1]
      case Issue(source, key, port) => before + [Request(key, source, port, source, 0)]
      case _ => before
  }

  /** Each Issue step makes the request with the next number, as it was asked. */
  lemma {:induction false} IssuedByOrder(steps: seq<Step>, i: nat)
    requires i < |steps| && steps[i].Issue?
    ensures var id := |IssuedBy(steps[..i])|;
      && id < |IssuedBy(steps)|
      && var req := IssuedBy(steps)[id];
         req.source == steps[i].source && req.key == steps[i].key && req.port == steps[i].port
    decreases |steps|
  {
    var last := |steps| - 1;
    if i < last {
      IssuedByOrder(steps[..last], i);
      assert steps[..last][..i] == steps[..i];
    }
  }

  /** The i-th step changes the global map only if it brings an insert whose key is
      free, and then by the entry that the insert's adder asked for. */
  ghost predicate MapTold(sys: System, steps: seq<Step>, i: int)
    requires 0 <= i < |steps| && |sys.history| == |steps| + 1
  {
    match steps[i]
    case DeliverInsert(id) =>
      && id < |sys.issued| && sys.issued[id].port.Some?
      && var req := sys.issued[id];
         sys.history[i + 1] == if req.key in sys.history[i] then sys.history[i]
                               else sys.history[i][req.key := Contact(req.source, req.port.value)]
    case _ => sys.history[i + 1] == sys.history[i]
  }

  /** The reply was made by the step it records: a delivery of its lookup, issued
      before. */
  ghost predicate MadeBy(steps: seq<Step>, r: Reply) {
    && 0 <= r.step < |steps| && steps[r.step] == Deliver(r.id)
    && r.id < |IssuedBy(steps[..r.step])|
  }

  /** What a run's record of itself says. */
  ghost predicate Recorded(sys: System, steps: seq<Step>) {
    && |sys.history| == |steps| + 1
    && sys.issued == IssuedBy(steps)
    && (forall i :: 0 <= i < |steps| ==> MapTold(sys, steps, i))
    && forall k :: 0 <= k < |sys.replies| ==> MadeBy(steps, sys.replies[k])
  }

  lemma MadeByLonger(steps: seq<Step>, step: Step, r: Reply)
    requires MadeBy(steps, r)
    ensures MadeBy(steps + [step], r)
  {
    assert (steps + [step])[..r.step] == steps[..r.step];
  }

  lemma StepToldMap(base: Ring, sys: System, steps: seq<Step>, step: Step, i: nat)
    requires Base(base) && Inv(base, sys) && Enabled(sys, step) && Recorded(sys, steps) && i <= |steps|
    ensures |Next(sys, step).history| == |steps| + 2 && MapTold(Next(sys, step), steps + [step], i)
  {
    if i < |steps| {
      assert MapTold(sys, steps, i);
    } else if step.DeliverInsert? {
      InsertInv(base, sys, step.id);
    }
  }

  lemma StepRecorded(base: Ring, sys: System, steps: seq<Step>, step: Step)
    requires Base(base) && Inv(base, sys) && Enabled(sys, step) && Recorded(sys, steps)
    ensures Recorded(Next(sys, step), steps + [step])
  {
    var after, longer := Next(sys, step), steps + [step];
    assert longer[..|steps|] == steps;
    StepToldMap(base, sys, steps, step, 0);
    forall i | 0 <= i < |longer|
      ensures MapTold(after, longer, i)
    {
      StepToldMap(base, sys, steps, step, i);
    }
    forall k | 0 <= k < |after.replies|
      ensures MadeBy(longer, after.replies[k])
    {
      if k < |sys.replies| {
        MadeByLonger(steps, step, sys.replies[k]);
      } else {
        assert OnItsWay(base, sys, step.id);
      }
    }
  }

  ghost predicate ChronicledAt(states: seq<System>, i: int)
    requires 0 <= i < |states|
  {
    && i < |states[|states| - 1].history| && states[|states| - 1].history[i] == Now(states[i])
    && states[i].ring.Keys != {} && StoresAll(states[i].ring, Now(states[i]))
  }

  /** The record holds the map of each state the run went through, and that state's
      directory is as the map says. */
  ghost predicate Chronicled(states: seq<System>) {
    states != [] && forall i :: 0 <= i < |states| ==> ChronicledAt(states, i)
  }

  lemma StepChronicled(base: Ring, states: seq<System>, step: Step)
    requires |states| > 1 && Chronicled(states[..|states| - 1])
    requires Follows(states[|states| - 2], step, states[|states| - 1])
    requires Base(base) && Inv(base, states[|states| - 1]) && |states[|states| - 1].history| == |states|
    ensures Chronicled(states)
  {
    var last := |states| - 1;
    forall i | 0 <= i < |states|
      ensures ChronicledAt(states, i)
    {
      if i < last {
        assert ChronicledAt(states[..last], i);
      }
    }
  }

  lemma AllDeliverable(base: Ring, sys: System)
    requires Base(base) && Inv(base, sys)
    ensures forall source, key, port {:trigger Issue(source, key, port)} ::
      source in base ==> Enabled(sys, Issue(source, key, port))
    ensures forall id :: id in sys.flight ==> Enabled(sys, Deliver(id))
    ensures forall id :: id in sys.inserts ==> Enabled(sys, DeliverInsert(id))
  {
    forall id | id in sys.flight
      ensures Enabled(sys, Deliver(id))
    {
      assert OnItsWay(base, sys, id);
    }
    forall id | id in sys.inserts
      ensures Enabled(sys, DeliverInsert(id))
    {
      assert RightInsert(base, sys, id);
    }
  }

  function InsertDeliveries(steps: seq<Step>, id: nat): nat {
    if steps == [] then 0
    else InsertDeliveries(steps[..|steps| - 1], id) + if steps[|steps| - 1] == DeliverInsert(id) then 1 else 0
  }

  /** The inserts a request has given rise to: one, if it came with a port, when it is
      answered. */
  function InsertsDue(sys: System, id: nat): nat {
    if id < |sys.issued| && id !in sys.flight && sys.issued[id].port.Some? then 1 else 0
  }

  function InsertsUnderWay(sys: System, id: nat): nat {
    if id in sys.inserts then 1 else 0
  }

  lemma InsertCounted(base: Ring, sys: System, step: Step, id: nat)
    requires Base(base) && Inv(base, sys) && Enabled(sys, step)
    ensures var after := Next(sys, step);
            InsertsDue(after, id) - InsertsUnderWay(after, id)
            == InsertsDue(sys, id) - InsertsUnderWay(sys, id) + if step == DeliverInsert(id) then 1 else 0
  {
    if id in sys.flight {
      assert OnItsWay(base, sys, id);
    }
    if id in sys.inserts {
      assert RightInsert(base, sys, id);
    }
  }

  lemma DeliveryCounted(base: Ring, sys: System, step: Step, id: nat)
    requires Base(base) && Inv(base, sys) && Enabled(sys, step)
    ensures DeliveryCount(base, Next(sys, step), id)
            == DeliveryCount(base, sys, id) + if step == Deliver(id) then 1 else 0
  {
    if id in sys.flight {
      assert OnItsWay(base, sys, id);
      if step == Deliver(id) && sys.ring[sys.flight[id].at].Responsible(sys.flight[id].key) {
        AnswerTruthful(base, sys, id);
      }
    }
  }

  ghost predicate Counted(base: Ring, sys: System, steps: seq<Step>)
    requires Base(base)
  {
    && (forall id: nat {:trigger Deliveries(steps, id)} :: Deliveries(steps, id) == DeliveryCount(base, sys, id))
    && (forall id: nat {:trigger InsertDeliveries(steps, id)} ::
          InsertDeliveries(steps, id) + InsertsUnderWay(sys, id) == InsertsDue(sys, id))
  }

  lemma StepCounted(base: Ring, sys: System, steps: seq<Step>, step: Step)
    requires Base(base) && Inv(base, sys) && Enabled(sys, step) && Counted(base, sys, steps)
    ensures Counted(base, Next(sys, step), steps + [step])
  {
    forall id: nat
      ensures Deliveries(steps + [step], id) == DeliveryCount(base, Next(sys, step), id)
    {
      DeliveryCounted(base, sys, step, id);
    }
    forall id: nat
      ensures InsertDeliveries(steps + [step], id) + InsertsUnderWay(Next(sys, step), id)
              == InsertsDue(Next(sys, step), id)
    {
      InsertCounted(base, sys, step, id);
    }
  }

  lemma RunPrefix(states: seq<System>, steps: seq<Step>)
    requires IsRun(states, steps) && steps != []
    ensures IsRun(states[..|steps|], steps[..|steps| - 1])
    ensures Follows(states[|steps| - 1], steps[|steps| - 1], states[|steps|])
  {
  }

  lemma {:induction false} RunInv(base: Ring, g: Directory, states: seq<System>, steps: seq<Step>)
    requires Base(base) && StoresAll(base, g)
    requires IsRun(states, steps) && states[0] == Start(base, g)
    ensures Inv(base, states[|steps|]) && Recorded(states[|steps|], steps) && Chronicled(states)
    decreases |steps|
  {
    if steps == [] {
      StartInv(base, g);
      assert ChronicledAt(states, 0);
    } else {
      var before, step := states[|steps| - 1], steps[|steps| - 1];
      RunPrefix(states, steps);
      RunInv(base, g, states[..|steps|], steps[..|steps| - 1]);
      StepInv(base, before, step);
      StepRecorded(base, before, steps[..|steps| - 1], step);
      assert steps[..|steps| - 1] + [step] == steps;
      StepChronicled(base, states, step);
    }
  }

  lemma {:induction false} RunCounted(base: Ring, g: Directory, states: seq<System>, steps: seq<Step>)
    requires Base(base) && StoresAll(base, g)
    requires IsRun(states, steps) && states[0] == Start(base, g)
    ensures Counted(base, states[|steps|], steps)
    decreases |steps|
  {
    if steps != [] {
      var before, step := states[|steps| - 1], steps[|steps| - 1];
      RunPrefix(states, steps);
      RunInv(base, g, states[..|steps|], steps[..|steps| - 1]);
      RunCounted(base, g, states[..|steps|], steps[..|steps| - 1]);
      StepCounted(base, before, steps[..|steps| - 1], step);
      assert steps[..|steps| - 1] + [step] == steps;
    }
  }

  /** Every run, whatever the interleaving: all messages can always be delivered,
      every issued lookup is still on its way or has exactly one reply, the reply
      was made by a delivery of that lookup, went to its issuer and told the global
      map's entry at that very step, an entry once added is never changed, a lookup
      has been delivered as often as it has been forwarded or, once answered, as its
      route has nodes, and an answered add has one insert, on its way or delivered. */
  lemma EveryRun(base: Ring, g: Directory, states: seq<System>, steps: seq<Step>)
    requires Base(base) && StoresAll(base, g)
    requires IsRun(states, steps) && states[0] == Start(base, g)
    ensures Inv(base, states[|steps|])
    ensures forall source, key, port {:trigger Issue(source, key, port)} ::
      source in base ==> Enabled(states[|steps|], Issue(source, key, port))
    ensures forall id :: id in states[|steps|].flight ==> Enabled(states[|steps|], Deliver(id))
    ensures forall id :: id in states[|steps|].inserts ==> Enabled(states[|steps|], DeliverInsert(id))
    ensures forall id: nat {:trigger InsertDeliveries(steps, id)} ::
      InsertDeliveries(steps, id) + InsertsUnderWay(states[|steps|], id) == InsertsDue(states[|steps|], id)
    ensures forall id: nat {:trigger Deliveries(steps, id)} ::
      Deliveries(steps, id) == DeliveryCount(base, states[|steps|], id)
    ensures forall id: nat {:trigger Accounted(states[|steps|], id)} ::
      id < |states[|steps|].issued| ==> Accounted(states[|steps|], id)
    ensures forall k :: 0 <= k < |states[|steps|].replies| ==>
      Truthful(base, states[|steps|], states[|steps|].replies[k])
    ensures Recorded(states[|steps|], steps) && Chronicled(states)
    ensures Grows(states[|steps|].history)
  {
    RunInv(base, g, states, steps);
    RunCounted(base, g, states, steps);
    AllDeliverable(base, states[|steps|]);
  }

  /** A lookup that is to be answered, then, has its reply once it has been delivered
      as often as its route has nodes, and is on its way before. */
  lemma RepliedIff(base: Ring, g: Directory, states: seq<System>, steps: seq<Step>, id: nat)
    requires Base(base) && StoresAll(base, g)
    requires IsRun(states, steps) && states[0] == Start(base, g)
    requires id < |states[|steps|].issued|
    ensures var req := states[|steps|].issued[id];
      if Answered(base, req.source, req.key)
      then && Deliveries(steps, id) <= |Route(base, req.source, req.key)|
           && (id !in states[|steps|].flight <==> Deliveries(steps, id) == |Route(base, req.source, req.key)|)
      else id in states[|steps|].flight
  {
    var sys := states[|steps|];
    EveryRun(base, g, states, steps);
    assert Deliveries(steps, id) == DeliveryCount(base, sys, id) && Accounted(sys, id);
    if id in sys.flight {
      assert OnItsWay(base, sys, id);
    } else {
      var k :| AnsweredBy(sys, id, k);
      assert Truthful(base, sys, sys.replies[k]);
    }
  }

  lemma {:induction false} DeliveredInsert(steps: seq<Step>, id: nat) returns (i: nat)
    requires InsertDeliveries(steps, id) > 0
    ensures i < |steps| && steps[i] == DeliverInsert(id)
  {
    var last := |steps| - 1;
    if steps[last] == DeliverInsert(id) {
      i := last;
    } else {
      i := DeliveredInsert(steps[..last], id);
    }
  }

  /** An add that is neither on its way as a lookup nor as an insert is stored: its key
      is taken, by it or by an earlier one. */
  lemma SettledAddIsStored(base: Ring, g: Directory, states: seq<System>, steps: seq<Step>, id: nat)
    requires Base(base) && StoresAll(base, g)
    requires IsRun(states, steps) && states[0] == Start(base, g)
    requires id < |states[|steps|].issued| && states[|steps|].issued[id].port.Some?
    requires id !in states[|steps|].flight && id !in states[|steps|].inserts
    ensures states[|steps|].issued[id].key in Now(states[|steps|])
  {
    var sys := states[|steps|];
    EveryRun(base, g, states, steps);
    assert InsertDeliveries(steps, id) == 1;
    var i := DeliveredInsert(steps, id);
    assert MapTold(sys, steps, i);
    assert sys.issued[id].key in sys.history[i + 1];
  }

  lemma OneMoreStep(states: seq<System>, steps: seq<Step>, step: Step)
    requires IsRun(states, steps) && Enabled(states[|steps|], step)
    ensures IsRun(states + [Next(states[|steps|], step)], steps + [step])
  {
    var longer := states + [Next(states[|steps|], step)];
    forall i | 0 <= i < |steps + [step]|
      ensures Follows(longer[i], (steps + [step])[i], longer[i + 1])
    {
      if i < |steps| {
        assert Follows(states[i], steps[i], states[i + 1]);
      }
    }
  }

  /** What a request has still to go through: the rest of its route, and its insert. */
  ghost function StillToDo(base: Ring, sys: System, id: nat): nat
    requires Named(base)
  {
    (if id in sys.flight && Answered(base, sys.flight[id].at, sys.flight[id].key)
     then |Route(base, sys.flight[id].at, sys.flight[id].key)| + 1 else 0) + InsertsUnderWay(sys, id)
  }

  lemma DeliverGetsOn(base: Ring, sys: System, id: nat)
    requires Base(base) && Inv(base, sys) && id in sys.flight
    requires Answered(base, sys.flight[id].source, sys.flight[id].key)
    ensures Enabled(sys, Deliver(id))
    ensures StillToDo(base, Next(sys, Deliver(id)), id) < StillToDo(base, sys, id)
  {
    assert OnItsWay(base, sys, id);
    var n := sys.ring[sys.flight[id].at];
    InsertsNotInFlight(base, sys);
    if n.Responsible(sys.flight[id].key) {
      AnswerTruthful(base, sys, id);
    } else {
      ForwardOnItsWay(base, sys, id);
      assert OnItsWay(base, Delivered(sys, id), id);
    }
  }

  lemma InsertGetsOn(base: Ring, sys: System, id: nat)
    requires Base(base) && Inv(base, sys) && id in sys.inserts
    ensures Enabled(sys, DeliverInsert(id))
    ensures StillToDo(base, Next(sys, DeliverInsert(id)), id) < StillToDo(base, sys, id)
  {
    assert RightInsert(base, sys, id);
  }

  /** The request's own next message gets it on. */
  lemma NextOfRequest(base: Ring, sys: System, id: nat) returns (step: Step)
    requires Base(base) && Inv(base, sys) && (id in sys.flight || id in sys.inserts) && id < |sys.issued|
    requires Answered(base, sys.issued[id].source, sys.issued[id].key)
    ensures Enabled(sys, step) && (step == Deliver(id) || step == DeliverInsert(id))
    ensures Next(sys, step).issued == sys.issued
    ensures StillToDo(base, Next(sys, step), id) < StillToDo(base, sys, id)
  {
    if id in sys.flight {
      assert OnItsWay(base, sys, id);
      step := Deliver(id);
      DeliverGetsOn(base, sys, id);
    } else {
      step := DeliverInsert(id);
      InsertGetsOn(base, sys, id);
    }
  }

  /** Every request that is to be answered can be brought to its end, whatever else is
      on its way, by delivering nothing but its own messages: it then has its reply
      and, if it is an add, its key is stored. */
  lemma {:induction false} CanBeSettled(base: Ring, g: Directory, states: seq<System>, steps: seq<Step>, id: nat)
    returns (laterStates: seq<System>, laterSteps: seq<Step>)
    requires Base(base) && StoresAll(base, g)
    requires IsRun(states, steps) && states[0] == Start(base, g) && id < |states[|steps|].issued|
    requires Answered(base, states[|steps|].issued[id].source, states[|steps|].issued[id].key)
    ensures IsRun(laterStates, laterSteps) && states <= laterStates && steps <= laterSteps
    ensures forall i :: |steps| <= i < |laterSteps| ==>
      laterSteps[i] == Deliver(id) || laterSteps[i] == DeliverInsert(id)
    ensures var sys := laterStates[|laterSteps|];
      && sys.issued == states[|steps|].issued && Accounted(sys, id) && id !in sys.flight
      && (sys.issued[id].port.Some? ==> sys.issued[id].key in Now(sys))
    decreases StillToDo(base, states[|steps|], id)
  {
    var sys := states[|steps|];
    RunInv(base, g, states, steps);
    assert Accounted(sys, id);
    if id !in sys.flight && id !in sys.inserts {
      if sys.issued[id].port.Some? {
        SettledAddIsStored(base, g, states, steps, id);
      }
      laterStates, laterSteps := states, steps;
    } else {
      var step := NextOfRequest(base, sys, id);
      OneMoreStep(states, steps, step);
      laterStates, laterSteps := CanBeSettled(base, g, states + [Next(sys, step)], steps + [step], id);
    }
  }

  lemma ExactIsBase(ring: Ring)
    requires Exact(ring)
    ensures Base(ring)
  {
    forall n {:trigger SpreadAt(ring, n)} | n in ring
      ensures SpreadAt(ring, n)
    {
      assert LinkedAt(ring, n);
    }
  }

  /** With exact tables no lookup is delivered more than m + 1 times. */
  lemma ExactDeliveries(base: Ring, g: Directory, states: seq<System>, steps: seq<Step>, id: nat)
    requires Exact(base) && StoresAll(base, g)
    requires IsRun(states, steps) && states[0] == Start(base, g)
    requires id < |states[|steps|].issued|
    ensures Deliveries(steps, id) <= FINGER_TABLE_LENGTH + 1
  {
    var req := states[|steps|].issued[id];
    ExactIsBase(base);
    EveryRun(base, g, states, steps);
    RepliedIff(base, g, states, steps, id);
    var route := LookupTotal(base, req.source, req.key);
    assert route == Route(base, req.source, req.key);
  }

  /** The ring that any clear run leaves is one to begin with, and its map the one
      that forgets two hashes at each join. */
  lemma ClearRunIsBase(first: Point, ops: seq<Op>)
    requires RepliedRun(first, ops) && ClearRun(first, ops)
    ensures Base(RingAfter(first, ops)) && StoresAll(RingAfter(first, ops), ForgetfulMap(first, ops))
  {
    ClearRunIsSound(first, ops);
    RunSpread(first, ops);
    RunStoresForgetfulMap(first, ops);
  }
}
