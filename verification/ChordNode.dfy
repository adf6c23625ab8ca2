/** The program's node object: the handlers of src/join.cpp, src/lookup.cpp and
    src/node.cpp, updating their node in place, each proved to do to the ring what
    the value-level definitions say, whatever ring it is. */
module ChordNode {
  import opened Options
  import opened RingArithmetic
  import opened Membership
  import N = NodeState
  import opened Routing
  import opened Joining
  import opened CompletedJoins
  import opened GlobalDirectory
  import opened FileTable
  import R = Runs

  /** local_start may sit one circle below its point of the circle. */
  type LocalStart = x: int | -TOTAL_HASH_POINTS < x < TOTAL_HASH_POINTS

  /** The names of the files a node has added, by hash. */
  type FileNames = map<Point, string>

  /** What a node does with one lookup request. */
  datatype Handled = Reply(owner: Option<N.Contact>) | Forward(next: Point)

  /** Refused: the node that answers for the file does not find it on its own disk,
      and ends. */
  datatype AddResult = NotShared | Accepted | Refused

  datatype DeleteResult = Requested | NotOwner | NoSuchFile

  function HandledBy(n: N.Node, key: Point): Handled {
    if n.Responsible(key) then Reply(Find(n.dht, key))
    else assert key != n.hash; Forward(n.NextHop(key))
  }

  lemma HopAlong(ring: N.Ring, path: seq<Point>, j: nat, key: Point)
    requires N.Named(ring) && IsRoute(ring, path, key) && j < |path|
    ensures HandledBy(ring[path[j]], key) ==
            if j < |path| - 1 then Forward(path[j + 1]) else Reply(Find(ring[path[j]].dht, key))
  {
  }

  // ---------- the net ----------

  /** The nodes that are up, by hash. */
  type Net = map<Point, ChordNode>

  ghost predicate ValidNet(net: Net)
    reads net.Values
  {
    net.Keys != {} && forall h {:trigger net[h]} :: h in net ==> net[h].myHash == h && net[h].Valid()
  }

  ghost function View(net: Net): (ring: N.Ring)
    requires ValidNet(net)
    reads net.Values
    ensures ring.Keys == net.Keys && N.Named(ring)
  {
    map h | h in net :: net[h].State()
  }

  /** A change to one node of the net is a change to one entry of its view. */
  lemma ViewWithOneChange(net: Net, before: N.Ring, h: Point)
    requires ValidNet(net) && net.Keys == before.Keys && h in net
    requires forall k :: k in net && k != h ==> net[k].State() == before[k]
    ensures View(net) == before[h := net[h].State()]
  {
  }

  lemma NotAMember(net: Net, n: ChordNode)
    requires ValidNet(net) && n.myHash !in net
    ensures n !in net.Values
  {
  }

  /** What the responsible node sends a joiner. */
  ghost predicate WhatIsSent(ring: N.Ring, entry: Point, joiner: Point,
                             table: N.FingerTable, furthest: Point, files: seq<FileTableEntry>)
    requires Served(ring, entry, joiner)
  {
    var r := Answerer(ring, entry, joiner);
    && table == SentTable(ring, r, joiner)
    && furthest == FirstStop(ring, entry, joiner)
    && AsDirectory(files) == Sent(ring[r].dht, r, joiner) && DistinctFiles(files)
  }

  /** The ring once it has been sent. */
  ghost function AfterHelp(ring: N.Ring, entry: Point, joiner: Point): (after: N.Ring)
    requires Served(ring, entry, joiner)
    ensures after.Keys == ring.Keys
  {
    var r := Answerer(ring, entry, joiner);
    ring[r := Shrunk(ring[r], joiner)]
  }

  /** What the joiner is sent leads it along the join's walk, to its outcome. */
  lemma OutcomeAssembled(ring: N.Ring, entry: Point, joiner: Point, table: N.FingerTable, furthest: Point,
                         files: seq<FileTableEntry>)
    requires Completes(ring, entry, joiner) && WhatIsSent(ring, entry, joiner, table, furthest, files)
    ensures var path := Stops(ring, entry, joiner);
      && IsWalk(AfterHelp(ring, entry, joiner), joiner, path) && furthest == path[0]
      && AllTold(AfterHelp(ring, entry, joiner), joiner, Elements(path))
           [joiner := N.Node(joiner, HashAdd(Last(path), 1), table, AsDirectory(files))]
         == Outcome(ring, entry, joiner)
  {
    var path := Stops(ring, entry, joiner);
    var r := Answerer(ring, entry, joiner);
    WalkAfterShrinking(ring, joiner, r, path);
    JoinAssembled(ring, joiner, r, Elements(path), Last(path), table);
  }

  lemma ViewUnchanged(net: Net, before: N.Ring)
    requires net.Keys == before.Keys && ValidNet(net)
    requires forall k :: k in net ==> net[k].State() == before[k]
    ensures View(net) == before
  {
  }

  class ChordNode {
    const myHash: Point
    var localStart: LocalStart
    var fingerTable: N.FingerTable
    var dht: N.Directory
    var localFiles: FileNames

    /** local_start is never a full circle behind the node. */
    ghost predicate Valid()
      reads this
    {
      myHash - TOTAL_HASH_POINTS < localStart
    }

    /** The node as a value: local_start stands for its point of the circle. */
    ghost function State(): N.Node
      reads this
    {
      N.Node(myHash, if localStart < 0 then localStart + TOTAL_HASH_POINTS else localStart, fingerTable, dht)
    }

    constructor (hash: Point)
      ensures Valid() && myHash == hash && dht == map[] && localFiles == map[]
    {
      myHash := hash;
      localStart := 0;
      fingerTable := seq(FINGER_TABLE_LENGTH, _ => 0);
      dht, localFiles := map[], map[];
    }

    method InitialChord()
      requires dht == map[]
      modifies this`fingerTable, this`localStart
      ensures Valid() && State() == N.InitialNode(myHash)
    {
      var t: seq<Point> := fingerTable;
      for i := 0 to FINGER_TABLE_LENGTH
        invariant |t| == FINGER_TABLE_LENGTH
        invariant forall j :: 0 <= j < i ==> t[j] == myHash
      {
        t := t[i := myHash];
      }
      fingerTable := t;
      localStart := HashAdd(myHash, 1);
    }

    // ---------- lookups ----------

    /** Moves local_start below my_hash if need be; the point it stands for, and
        so every later answer, stays. */
    method IsResponsibleTo(fileHash: Point) returns (mine: bool)
      requires Valid()
      modifies this`localStart
      ensures Valid() && State() == old(State())
      ensures mine == State().Responsible(fileHash)
      ensures localStart <= myHash
    {
      var file: int := fileHash;
      if file > myHash {
        file := file - TOTAL_HASH_POINTS;
      }
      if localStart > myHash {
        localStart := localStart - TOTAL_HASH_POINTS;
      }
      mine := localStart <= file <= myHash;
    }

    method GetNextHopInfo(fileHash: Point) returns (next: Point)
      ensures fileHash == myHash ==> next == myHash
      ensures fileHash != myHash ==> next == State().NextHop(fileHash)
    {
      if fileHash == myHash {
        return myHash;
      }
      var hash: int := if fileHash < myHash then fileHash + TOTAL_HASH_POINTS else fileHash;
      assert hash - myHash == Distance(myHash, fileHash);
      Log2Below(hash - myHash, FINGER_TABLE_LENGTH);
      next := fingerTable[Log2(hash - myHash)];
    }

    /** One delivery of a lookup request. */
    method LookupReqHandle(fileHash: Point) returns (handled: Handled)
      requires Valid()
      modifies this`localStart
      ensures Valid() && State() == old(State())
      ensures handled == HandledBy(State(), fileHash)
    {
      var mine := IsResponsibleTo(fileHash);
      if mine {
        handled := Reply(if fileHash in dht then Some(dht[fileHash]) else None);
      } else {
        var next := GetNextHopInfo(fileHash);
        handled := Forward(next);
      }
    }

    /** A lookup request reaches a node of the net. */
    static method Deliver(net: Net, at: Point, hash: Point) returns (handled: Handled)
      requires ValidNet(net) && at in net
      modifies net.Values`localStart
      ensures ValidNet(net) && View(net) == old(View(net))
      ensures handled == HandledBy(View(net)[at], hash)
    {
      handled := net[at].LookupReqHandle(hash);
    }

    /** A lookup and the deliveries it causes, up to the reply.  It assumes that
        the lookup is answered: otherwise the call does not return. */
    method Lookup(net: Net, hash: Point) returns (owner: Option<N.Contact>, successor: Point)
      requires ValidNet(net) && myHash in net && net[myHash] == this
      requires Answered(View(net), myHash, hash)
      modifies net.Values`localStart
      ensures ValidNet(net) && View(net) == old(View(net))
      ensures successor == Answerer(View(net), myHash, hash)
      ensures owner == Find(View(net)[successor].dht, hash)
    {
      ghost var ring := View(net);
      ghost var path :| IsRoute(ring, path, hash) && path[0] == myHash;
      ghost var j := 0;
      var cur := myHash;
      var handled := Deliver(net, cur, hash);
      HopAlong(ring, path, j, hash);
      while handled.Forward?
        invariant ValidNet(net) && View(net) == ring
        invariant 0 <= j < |path| && cur == path[j] && cur in ring
        invariant handled == if j < |path| - 1 then Forward(path[j + 1]) else Reply(Find(ring[cur].dht, hash))
        decreases |path| - j
      {
        cur := handled.next;
        j := j + 1;
        handled := Deliver(net, cur, hash);
        HopAlong(ring, path, j, hash);
      }
      owner, successor := handled.owner, cur;
    }

    /** Whether the key is stored, and the node that answers for it: with the
        intervals right, its true successor. */
    method LookupSuccessor(net: Net, hash: Point) returns (exist: bool, successor: Point)
      requires ValidNet(net) && myHash in net && net[myHash] == this
      requires Answered(View(net), myHash, hash)
      modifies net.Values`localStart
      ensures ValidNet(net) && View(net) == old(View(net))
      ensures successor == Answerer(View(net), myHash, hash) && (exist <==> hash in View(net)[successor].dht)
      ensures N.Partitioned(View(net)) ==> successor == Successor(net.Keys, hash)
    {
      var owner;
      owner, successor := Lookup(net, hash);
      exist := owner.Some?;
      if N.Partitioned(View(net)) {
        AnswererIsSuccessor(View(net), myHash, hash);
      }
    }

    // ---------- serving a joiner ----------

    /** Patches the table in place and names the next node to be updated. */
    method HandleUpdateRouteReq(joiner: Point) returns (cur: Point, next: Point)
      modifies this`fingerTable
      ensures State() == Told(old(State()), joiner)
      ensures cur == myHash && next == NextStop(old(State()), joiner)
    {
      var curToNew := Distance(myHash, joiner);
      var t: seq<Point> := fingerTable;
      for i := 0 to FINGER_TABLE_LENGTH
        invariant |t| == FINGER_TABLE_LENGTH
        invariant forall j :: 0 <= j < i ==> t[j] == PatchedEntry(myHash, fingerTable[j], j, joiner)
        invariant forall j :: i <= j < FINGER_TABLE_LENGTH ==> t[j] == fingerTable[j]
      {
        var curToEntry := Distance(myHash, t[i]);
        if curToNew >= Pow2(i) && curToNew < curToEntry {
          t := t[i := joiner];
        }
      }
      fingerTable := t;
      cur, next := myHash, fingerTable[0];
    }

    /** Takes the joiner's files out of the table, in whatever order it is walked;
        what is kept and what is sent are the old table, split in two. */
    method HandOverFiles(joiner: Point) returns (files: seq<FileTableEntry>)
      modifies this`dht
      ensures dht == Kept(old(dht), myHash, joiner)
      ensures AsDirectory(files) == Sent(old(dht), myHash, joiner) && DistinctFiles(files)
      ensures AsDirectory(files).Keys !! dht.Keys && AsDirectory(files) + dht == old(dht)
    {
      files := [];
      ghost var all := dht;
      var newToCur := Distance(joiner, myHash);
      var todo := dht.Keys;
      while todo != {}
        invariant todo <= all.Keys
        invariant dht == KeptSoFar(all, todo, myHash, joiner)
        invariant AsDirectory(files) == SentSoFar(all, todo, myHash, joiner)
        invariant DistinctFiles(files)
      {
        var file :| file in todo;
        var fileToCur := Distance(file, myHash);
        HandOverStep(all, todo, file, myHash, joiner);
        if fileToCur > newToCur {
          AppendFile(files, FileTableEntry(file, dht[file]));
          files := files + [FileTableEntry(file, dht[file])];
          dht := dht - {file};
        }
        todo := todo - {file};
      }
      HandoverConserves(all, myHash, joiner);
    }

    /** The entry node finds the node responsible for the joiner. */
    method JoinReqHandle(net: Net, joiner: Point) returns (responsible: Point)
      requires ValidNet(net) && myHash in net && net[myHash] == this
      requires Answered(View(net), myHash, joiner)
      modifies net.Values`localStart
      ensures ValidNet(net) && View(net) == old(View(net))
      ensures responsible == Answerer(View(net), myHash, joiner)
    {
      var _, res := LookupSuccessor(net, joiner);
      responsible := res;
    }

    /** One entry of the joiner's table. */
    method RouteEntry(net: Net, joiner: Point, i: nat) returns (host: Point)
      requires ValidNet(net) && myHash in net && net[myHash] == this && i < FINGER_TABLE_LENGTH
      requires HelpAnswered(View(net), myHash, joiner)
      modifies net.Values`localStart
      ensures ValidNet(net) && View(net) == old(View(net))
      ensures host == SentFinger(View(net), myHash, joiner, i)
    {
      Pow2BelowCircle(i);
      var entryHash := HashAdd(joiner, Pow2(i));
      assert Answered(View(net), myHash, Target(joiner, i));
      var _, res := LookupSuccessor(net, entryHash);
      var hashToRes := Distance(entryHash, res);
      var hashToNew := Distance(entryHash, joiner);
      host := if hashToRes > hashToNew then joiner else res;
    }

    /** The table for the joiner. */
    method BuildRouteTable(net: Net, joiner: Point) returns (table: N.FingerTable)
      requires ValidNet(net) && myHash in net && net[myHash] == this
      requires HelpAnswered(View(net), myHash, joiner)
      modifies net.Values`localStart
      ensures ValidNet(net) && View(net) == old(View(net))
      ensures table == SentTable(View(net), myHash, joiner)
    {
      ghost var ring := View(net);
      ghost var sent := SentTable(ring, myHash, joiner);
      var t: seq<Point> := [];
      for i := 0 to FINGER_TABLE_LENGTH
        invariant ValidNet(net) && View(net) == ring
        invariant t == sent[..i]
      {
        var host := RouteEntry(net, joiner, i);
        assert host == sent[i];
        t := t + [host];
      }
      table := t;
    }

    /** Where the joiner's walk is to begin: half a circle back. */
    method FurthestPrev(net: Net, joiner: Point) returns (furthest: Point)
      requires ValidNet(net) && myHash in net && net[myHash] == this
      requires Answered(View(net), myHash, HalfBack(joiner))
      modifies net.Values`localStart
      ensures ValidNet(net) && View(net) == old(View(net))
      ensures furthest == Answerer(View(net), myHash, HalfBack(joiner))
    {
      Pow2BelowCircle(FINGER_TABLE_LENGTH - 1);
      var targetHash := HashAdd(joiner, -1 * Pow2(FINGER_TABLE_LENGTH - 1));
      assert targetHash == HalfBack(joiner);
      var _, res := LookupSuccessor(net, targetHash);
      furthest := res;
    }

    /** Gives up the files and the keys up to the joiner, its new predecessor. */
    method ShrinkInterval(joiner: Point) returns (files: seq<FileTableEntry>)
      modifies this`dht, this`localStart
      ensures Valid()
      ensures State() == Shrunk(old(State()), joiner)
      ensures AsDirectory(files) == Sent(old(dht), myHash, joiner) && DistinctFiles(files)
    {
      files := HandOverFiles(joiner);
      localStart := HashAdd(joiner, 1);
    }

    /** The responsible node serves the joiner: a table, the start of the walk and
        its files; then it gives up the joiner's part of its interval. */
    method HelpJoinReqHandle(net: Net, joiner: Point)
      returns (table: N.FingerTable, furthest: Point, files: seq<FileTableEntry>)
      requires ValidNet(net) && myHash in net && net[myHash] == this
      requires HelpAnswered(View(net), myHash, joiner)
      modifies net.Values`localStart, this`dht
      ensures ValidNet(net)
      ensures View(net) == old(View(net))[myHash := Shrunk(old(State()), joiner)]
      ensures table == SentTable(old(View(net)), myHash, joiner)
      ensures furthest == Answerer(old(View(net)), myHash, HalfBack(joiner))
      ensures AsDirectory(files) == Sent(old(dht), myHash, joiner) && DistinctFiles(files)
    {
      table := BuildRouteTable(net, joiner);
      furthest := FurthestPrev(net, joiner);
      ghost var ring := View(net);
      files := ShrinkInterval(joiner);
      ViewWithOneChange(net, ring, myHash);
    }

    // ---------- joining ----------

    /** One RouteUpdateRequest and its response. */
    static method UpdateOne(net: Net, update: Point, joiner: Point) returns (cur: Point, next: Point)
      requires ValidNet(net) && update in net
      modifies net.Values`fingerTable
      ensures ValidNet(net)
      ensures View(net) == old(View(net))[update := Told(old(View(net))[update], joiner)]
      ensures cur == update && next == NextStop(old(View(net))[update], joiner)
    {
      ghost var ring := View(net);
      cur, next := net[update].HandleUpdateRouteReq(joiner);
      ViewWithOneChange(net, ring, update);
    }

    /** The walk over the predecessors, from the furthest on: whatever walk there is
        in the ring, the loop takes it.  Without one the call does not return. */
    method UpdatePredecessors(net: Net, furthest: Point, ghost path: seq<Point>) returns (last: Point)
      requires ValidNet(net) && IsWalk(View(net), myHash, path) && furthest == path[0]
      modifies net.Values`fingerTable
      ensures ValidNet(net) && View(net) == AllTold(old(View(net)), myHash, Elements(path))
      ensures last == Last(path)
    {
      ghost var ring := View(net);
      ghost var k := 0;
      var update := furthest;
      assert AllTold(ring, myHash, Elements(path[..0])) == ring;
      while true
        invariant 0 <= k < |path| && update == path[k] && update in ring
        invariant ValidNet(net) && View(net) == AllTold(ring, myHash, Elements(path[..k]))
        decreases |path| - k
      {
        WalkStep(ring, myHash, path, k);
        var cur, next := UpdateOne(net, update, myHash);
        k := k + 1;
        if next == myHash {
          last := cur;
          return;
        }
        update := next;
      }
    }

    /** What the joiner is sent, by way of the entry node. */
    method AskToJoin(net: Net, entry: Point)
      returns (table: N.FingerTable, furthest: Point, files: seq<FileTableEntry>)
      requires ValidNet(net) && Served(View(net), entry, myHash)
      modifies net.Values`localStart, net.Values`dht
      ensures ValidNet(net) && View(net) == AfterHelp(old(View(net)), entry, myHash)
      ensures WhatIsSent(old(View(net)), entry, myHash, table, furthest, files)
    {
      var r := net[entry].JoinReqHandle(net, myHash);
      assert View(net)[r] == net[r].State();
      table, furthest, files := net[r].HelpJoinReqHandle(net, myHash);
    }

    /** Inserts the received files; an entry already there is not overwritten. */
    method ReceiveFiles(files: seq<FileTableEntry>)
      requires DistinctFiles(files)
      modifies this`dht
      ensures dht == AsDirectory(files) + old(dht)
    {
      for i := 0 to |files|
        invariant dht == AsDirectory(files[..i]) + old(dht)
      {
        ghost var file := files[i];
        assert files[..i + 1] == files[..i] + [file];
        DistinctPrefix(files, i + 1);
        AppendFile(files[..i], file);
        InsertFile(AsDirectory(files[..i]), old(dht), file);
        if files[i].filenameHash !in dht {
          dht := dht[files[i].filenameHash := files[i].owner];
        }
      }
      assert files[..|files|] == files;
    }

    /** The joiner's interval and files. */
    method Settle(last: Point, files: seq<FileTableEntry>)
      requires dht == map[] && DistinctFiles(files)
      modifies this`localStart, this`dht
      ensures Valid()
      ensures State() == N.Node(myHash, HashAdd(last, 1), old(fingerTable), AsDirectory(files))
    {
      localStart := HashAdd(last, 1);
      ReceiveFiles(files);
      assert AsDirectory(files) + map[] == AsDirectory(files);
    }

    /** Sets up the fingers; the joiner is not in the net yet. */
    method TakeTable(net: Net, table: N.FingerTable)
      requires ValidNet(net) && this !in net.Values
      modifies this`fingerTable
      ensures fingerTable == table
      ensures ValidNet(net) && View(net) == old(View(net))
    {
      ghost var ring := View(net);
      var t: seq<Point> := fingerTable;
      for i := 0 to |table|
        invariant |t| == |table|
        invariant forall j :: 0 <= j < i ==> t[j] == table[j]
      {
        t := t[i := table[i]];
      }
      fingerTable := t;
      ViewUnchanged(net, ring);
    }

    /** The interval and the files, when the net is left as it is. */
    method SettleIn(net: Net, last: Point, files: seq<FileTableEntry>)
      requires ValidNet(net) && this !in net.Values && dht == map[] && DistinctFiles(files)
      modifies this`localStart, this`dht
      ensures Valid() && ValidNet(net) && View(net) == old(View(net))
      ensures State() == N.Node(myHash, HashAdd(last, 1), old(fingerTable), AsDirectory(files))
    {
      ghost var ring := View(net);
      Settle(last, files);
      ViewUnchanged(net, ring);
    }

    /** The joiner's part: the walk, its interval and its files. */
    method TakePlace(net: Net, furthest: Point, files: seq<FileTableEntry>, ghost path: seq<Point>)
      requires ValidNet(net) && this !in net.Values && dht == map[] && DistinctFiles(files)
      requires IsWalk(View(net), myHash, path) && furthest == path[0]
      modifies this`localStart, this`dht, net.Values`fingerTable
      ensures Valid() && ValidNet(net) && View(net) == AllTold(old(View(net)), myHash, Elements(path))
      ensures State() == N.Node(myHash, HashAdd(Last(path), 1), old(fingerTable), AsDirectory(files))
    {
      var last := UpdatePredecessors(net, furthest, path);
      SettleIn(net, last, files);
    }

    /** What the joiner does with what it is sent. */
    method EnterRing(net: Net, table: N.FingerTable, furthest: Point, files: seq<FileTableEntry>,
                     ghost path: seq<Point>)
      requires ValidNet(net) && this !in net.Values && dht == map[] && DistinctFiles(files)
      requires IsWalk(View(net), myHash, path) && furthest == path[0]
      modifies this`localStart, this`dht, this`fingerTable, net.Values`fingerTable
      ensures Valid() && ValidNet(net) && View(net) == AllTold(old(View(net)), myHash, Elements(path))
      ensures State() == N.Node(myHash, HashAdd(Last(path), 1), table, AsDirectory(files))
    {
      TakeTable(net, table);
      TakePlace(net, furthest, files, path);
    }

    /** Joins the ring through the entry node, if the join completes: afterwards the
        net, with this node in it, is the ring such a join is defined to leave. */
    method JoinChord(net: Net, entry: Point)
      requires ValidNet(net) && dht == map[]
      requires Completes(View(net), entry, myHash)
      modifies this`localStart, this`dht, this`fingerTable
      modifies net.Values`localStart, net.Values`dht, net.Values`fingerTable
      ensures Valid() && ValidNet(net)
      ensures View(net)[myHash := State()] == Outcome(old(View(net)), entry, myHash)
              == R.Apply(old(View(net)), Join(entry, myHash))
    {
      ghost var ring := View(net);
      NotAMember(net, this);
      var table, furthest, files := AskToJoin(net, entry);
      OutcomeAssembled(ring, entry, myHash, table, furthest, files);
      EnterRing(net, table, furthest, files, Stops(ring, entry, myHash));
    }

    // ---------- files ----------

    /** The names of this node's files have no part in the ring. */
    method SetNames(net: Net, names: FileNames)
      requires ValidNet(net)
      modifies this`localFiles
      ensures localFiles == names && ValidNet(net) && View(net) == old(View(net))
    {
      ghost var ring := View(net);
      localFiles := names;
      ViewUnchanged(net, ring);
    }

    /** The first add of a key wins.  False where the program ends because the file
        its own table names is not in its own shared folder; the name of a file it
        has not added is the empty one, entered by the test. */
    method AddFileReqHandle(onDisk: (Point, string) -> bool, fileHash: Point, source: N.Contact)
      returns (accepted: bool)
      modifies this`dht, this`localFiles
      ensures localFiles == if fileHash in old(localFiles) then old(localFiles) else old(localFiles)[fileHash := ""]
      ensures accepted <==> onDisk(myHash, if fileHash in old(localFiles) then old(localFiles)[fileHash] else "")
      ensures dht == if accepted && fileHash !in old(dht) then old(dht)[fileHash := source] else old(dht)
    {
      if fileHash !in localFiles {
        localFiles := localFiles[fileHash := ""];
      }
      if !onDisk(myHash, localFiles[fileHash]) {
        return false;
      }
      accepted := true;
      if fileHash in dht {
        return;
      }
      dht := dht[fileHash := source];
    }

    static method SendAddFile(net: Net, onDisk: (Point, string) -> bool, successor: Point, fileHash: Point,
                              source: N.Contact)
      returns (accepted: bool)
      requires ValidNet(net) && successor in net
      modifies {net[successor]}`dht, {net[successor]}`localFiles
      ensures ValidNet(net)
      ensures net[successor].localFiles ==
              if fileHash in old(net[successor].localFiles) then old(net[successor].localFiles)
              else old(net[successor].localFiles)[fileHash := ""]
      ensures accepted <==> onDisk(successor, net[successor].localFiles[fileHash])
      ensures View(net) == if accepted then AddedAt(old(View(net)), successor, fileHash, source) else old(View(net))
    {
      ghost var ring := View(net);
      accepted := net[successor].AddFileReqHandle(onDisk, fileHash, source);
      ViewWithOneChange(net, ring, successor);
    }

    /** The node found enters the file; this node has noted its name. */
    method AddShared(net: Net, onDisk: (Point, string) -> bool, successor: Point, filename: string, fileHash: Point,
                     port: string)
      returns (result: AddResult)
      requires ValidNet(net) && myHash in net && net[myHash] == this && successor in net
      modifies this`localFiles, {net[successor]}`dht, {net[successor]}`localFiles
      ensures ValidNet(net)
      ensures localFiles == old(localFiles)[fileHash := filename]
      ensures successor != myHash ==>
        net[successor].localFiles == if fileHash in old(net[successor].localFiles) then old(net[successor].localFiles)
                                     else old(net[successor].localFiles)[fileHash := ""]
      ensures forall h {:trigger net[h]} :: h in net && h != myHash && h != successor ==>
        net[h].localFiles == old(net[h].localFiles)
      ensures fileHash in net[successor].localFiles
      ensures result == if onDisk(successor, net[successor].localFiles[fileHash]) then Accepted else Refused
      ensures View(net) == if result != Accepted then old(View(net)) else
        AddedAt(old(View(net)), successor, fileHash, N.Contact(myHash, port))
    {
      SetNames(net, localFiles[fileHash := filename]);
      var accepted := SendAddFile(net, onDisk, successor, fileHash, N.Contact(myHash, port));
      result := if accepted then Accepted else Refused;
    }

    /** Finds the node that answers for the file, and adds it there. */
    method ShareFile(net: Net, onDisk: (Point, string) -> bool, filename: string, fileHash: Point, port: string)
      returns (result: AddResult, ghost at: Point)
      requires ValidNet(net) && myHash in net && net[myHash] == this
      requires Answered(View(net), myHash, fileHash)
      modifies net.Values`localStart, net.Values`dht, net.Values`localFiles
      ensures ValidNet(net) && result != NotShared
      ensures at == Answerer(old(View(net)), myHash, fileHash)
      ensures localFiles == old(localFiles)[fileHash := filename]
      ensures at != myHash ==>
        net[at].localFiles == if fileHash in old(net[at].localFiles) then old(net[at].localFiles)
                              else old(net[at].localFiles)[fileHash := ""]
      ensures forall h {:trigger net[h]} :: h in net && h != myHash && h != at ==>
        net[h].localFiles == old(net[h].localFiles)
      ensures fileHash in net[at].localFiles
      ensures result == Accepted <==> onDisk(at, net[at].localFiles[fileHash])
      ensures View(net) == if result != Accepted then old(View(net)) else
        AddedAt(old(View(net)), at, fileHash, N.Contact(myHash, port))
    {
      var _, successor := LookupSuccessor(net, fileHash);
      at := successor;
      result := AddShared(net, onDisk, successor, filename, fileHash, port);
    }

    /** Adds a file of this node, if it is in the shared folder, at the node that
        answers for it.  onDisk says which files are in each node's shared folder.
        The adder notes the file's name; so an add that it answers itself is never
        refused.  Another node that answers it enters an empty name if it has none,
        and no one else's names change.  If it is accepted, the net becomes what a run
        makes of an add. */
    method AddFile(net: Net, onDisk: (Point, string) -> bool, filename: string, fileHash: Point, port: string)
      returns (result: AddResult, ghost at: Point)
      requires ValidNet(net) && myHash in net && net[myHash] == this
      requires onDisk(myHash, filename) ==> Answered(View(net), myHash, fileHash)
      modifies net.Values`localStart, net.Values`dht, net.Values`localFiles
      ensures ValidNet(net)
      ensures result == NotShared <==> !onDisk(myHash, filename)
      ensures result != NotShared ==> at == Answerer(old(View(net)), myHash, fileHash)
      ensures localFiles == if result == NotShared then old(localFiles) else old(localFiles)[fileHash := filename]
      ensures result != NotShared && at != myHash ==>
        net[at].localFiles == if fileHash in old(net[at].localFiles) then old(net[at].localFiles)
                              else old(net[at].localFiles)[fileHash := ""]
      ensures forall h {:trigger net[h]} :: h in net && h != myHash && (result == NotShared || h != at) ==>
        net[h].localFiles == old(net[h].localFiles)
      ensures result != NotShared && at == myHash ==> result == Accepted
      ensures result != NotShared ==> fileHash in net[at].localFiles
      ensures result == Accepted ==> onDisk(at, net[at].localFiles[fileHash])
      ensures result == Refused ==> !onDisk(at, net[at].localFiles[fileHash])
      ensures View(net) == if result != Accepted then old(View(net)) else
        AddedAt(old(View(net)), at, fileHash, N.Contact(myHash, port))
      ensures result == Accepted ==> View(net) == R.Apply(old(View(net)), Add(myHash, fileHash, port))
    {
      if !onDisk(myHash, filename) {
        return NotShared, myHash;
      }
      result, at := ShareFile(net, onDisk, filename, fileHash, port);
    }

    /** False where the program gives up because the key is not there. */
    method DelFileReqHandle(fileHash: Point) returns (found: bool)
      modifies this`dht
      ensures found <==> fileHash in old(dht)
      ensures dht == old(dht) - {fileHash}
    {
      found := fileHash in dht;
      if found {
        dht := dht - {fileHash};
      }
    }

    static method SendDeleteFile(net: Net, successor: Point, fileHash: Point)
      requires ValidNet(net) && successor in net && fileHash in net[successor].dht
      modifies {net[successor]}`dht
      ensures ValidNet(net)
      ensures var ring := old(View(net));
        View(net) == ring[successor := ring[successor].(dht := ring[successor].dht - {fileHash})]
    {
      ghost var ring := View(net);
      var found := net[successor].DelFileReqHandle(fileHash);
      ViewWithOneChange(net, ring, successor);
    }

    /** Deletes a key this node owns; reports why nothing is sent otherwise. */
    method DeleteFile(net: Net, fileHash: Point) returns (result: DeleteResult)
      requires ValidNet(net) && myHash in net && net[myHash] == this
      requires Answered(View(net), myHash, fileHash)
      modifies net.Values`localStart, net.Values`dht, this`localFiles
      ensures ValidNet(net)
      ensures var ring, a := old(View(net)), Answerer(old(View(net)), myHash, fileHash);
        && View(net) == DeletedAt(ring, a, myHash, fileHash)
        && (result == NoSuchFile <==> fileHash !in ring[a].dht)
        && (result == Requested <==> fileHash in ring[a].dht && ring[a].dht[fileHash].host == myHash)
      ensures localFiles == if result == Requested then old(localFiles) - {fileHash} else old(localFiles)
      ensures result != NoSuchFile ==> View(net) == R.Apply(old(View(net)), Delete(myHash, fileHash))
    {
      var owner, successor := Lookup(net, fileHash);
      if owner.None? {
        return NoSuchFile;
      }
      if owner.value.host != myHash {
        return NotOwner;
      }
      SetNames(net, localFiles - {fileHash});
      SendDeleteFile(net, successor, fileHash);
      result := Requested;
    }
  }
}
