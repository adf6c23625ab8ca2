/** Lookups (src/lookup.cpp): the hops a request takes and where it is answered. */
module Routing {
  import opened RingArithmetic
  import opened Membership
  import opened NodeState

  ghost predicate Forwards(n: Node, key: Point, next: Point) {
    !n.Responsible(key) && next == n.NextHop(key)
  }

  /** The hops of one answered lookup: every node but the last forwards the
      request, the last one answers it. */
  ghost predicate IsRoute(ring: Ring, path: seq<Point>, key: Point)
    requires Named(ring)
  {
    && path != []
    && (forall j :: 0 <= j < |path| ==> path[j] in ring)
    && (forall j :: 0 <= j < |path| - 1 ==>
          Forwards(ring[path[j]], key, path[j + 1]))
    && ring[path[|path| - 1]].Responsible(key)
  }

  /** A lookup for the key that begins at n is answered at all. */
  ghost predicate Answered(ring: Ring, n: Point, key: Point)
    requires Named(ring)
  {
    exists path :: IsRoute(ring, path, key) && path[0] == n
  }

  lemma AnswersItself(ring: Ring, n: Point, key: Point)
    requires Named(ring) && n in ring && ring[n].Responsible(key)
    ensures IsRoute(ring, [n], key)
  {
  }

  /** Steps a request may still be forwarded: zero at the answering node, and
      otherwise bounded by the bits of the remaining distance. */
  function HopsLeft(n: Node, key: Point): (h: nat)
    ensures h <= FINGER_TABLE_LENGTH
    ensures h == 0 <==> n.Responsible(key)
  {
    if n.Responsible(key) then 0
    else
      Log2Below(Distance(n.hash, key), FINGER_TABLE_LENGTH);
      1 + Log2(Distance(n.hash, key))
  }

  /** The geometry of one hop, on the set of members alone. */
  lemma FingerTowardsKey(s: set<Point>, n: Point, key: Point, h: Point)
    requires n in s && n != Successor(s, key)
    requires IsFinger(s, n, Pow2(Log2(Distance(n, key))), h)
    ensures h != n
    ensures h == Successor(s, key)
            || (&& Distance(n, h) < Distance(n, key)
                && 2 * Distance(h, key) < Distance(n, key)
                && Log2(Distance(h, key)) < Log2(Distance(n, key)))
  {
    var d, r := Distance(n, key), Successor(s, key);
    var i := Log2(d);
    assert Gap(key, r) <= Gap(key, n);
    if Distance(n, h) < d {
      assert Distance(h, key) == d - Distance(n, h);
      Log2Below(Distance(h, key), i);
    } else {
      assert Gap(key, h) == Distance(n, h) - d;
      assert d <= Distance(n, r);
    }
  }

  /** Routing never overshoots: a node with an exact table forwards to the
      answering node, or to a node strictly between here and the key with less
      than half the distance and a smaller finger index to go; never to itself. */
  lemma HopProgress(ring: Ring, n: Point, key: Point)
    requires Safe(ring) && n in ring && ExactAt(ring, n) && !ring[n].Responsible(key)
    ensures key != n
    ensures var h := ring[n].NextHop(key);
            && h in ring
            && h != n
            && HopsLeft(ring[h], key) < HopsLeft(ring[n], key)
            && (h == Successor(ring.Keys, key)
                || (&& Distance(n, h) < Distance(n, key)
                    && 2 * Distance(h, key) < Distance(n, key)
                    && Log2(Distance(h, key)) < Log2(Distance(n, key))))
  {
    var s := ring.Keys;
    var h, r := ring[n].NextHop(key), Successor(s, key);
    assert Gap(n, n) == 0;
    ResponsibilityPartitions(ring, key);
    assert ring[r].Responsible(key);
    Log2Below(Distance(n, key), FINGER_TABLE_LENGTH);
    FingerTowardsKey(s, n, key, h);
    assert h != r ==> !ring[h].Responsible(key);
  }

  lemma RouteFromNextHop(ring: Ring, n: Point, rest: seq<Point>, key: Point)
    requires Named(ring) && n in ring && IsRoute(ring, rest, key) && Forwards(ring[n], key, rest[0])
    ensures IsRoute(ring, [n] + rest, key)
  {
  }

  /** With exact tables a lookup from any node for any key is answered by the
      key's clockwise successor, after at most HopsLeft, hence at most m, hops. */
  lemma {:induction false} LookupTotal(ring: Ring, n: Point, key: Point) returns (path: seq<Point>)
    requires Exact(ring) && n in ring
    ensures IsRoute(ring, path, key) && path[0] == n
    ensures |path| - 1 <= HopsLeft(ring[n], key) <= FINGER_TABLE_LENGTH
    ensures path[|path| - 1] == Successor(ring.Keys, key)
    decreases HopsLeft(ring[n], key)
  {
    if ring[n].Responsible(key) {
      path := [n];
      ResponsibilityPartitions(ring, key);
    } else {
      assert ExactAt(ring, n);
      HopProgress(ring, n, key);
      var rest := LookupTotal(ring, ring[n].NextHop(key), key);
      RouteFromNextHop(ring, n, rest, key);
      path := [n] + rest;
    }
  }

  /** An answer at the next hop is an answer here. */
  lemma AnsweredByNextHop(ring: Ring, n: Point, next: Point, key: Point)
    requires Named(ring) && n in ring && Forwards(ring[n], key, next) && Answered(ring, next, key)
    ensures Answered(ring, n, key)
  {
    var rest :| IsRoute(ring, rest, key) && rest[0] == next;
    RouteFromNextHop(ring, n, rest, key);
    assert ([n] + rest)[0] == n;
  }

  /** Whatever the tables, whoever answers is the true successor if the intervals
      are right. */
  lemma AnswerIsSuccessor(ring: Ring, path: seq<Point>, key: Point)
    requires Partitioned(ring) && IsRoute(ring, path, key)
    ensures path[|path| - 1] == Successor(ring.Keys, key)
  {
    ResponsibilityPartitions(ring, key);
  }

  lemma FirstHop(ring: Ring, p: seq<Point>, key: Point)
    requires Named(ring) && IsRoute(ring, p, key)
    ensures |p| == 1 <==> ring[p[0]].Responsible(key)
    ensures |p| > 1 ==> Forwards(ring[p[0]], key, p[1])
  {
    if |p| > 1 {
      assert Forwards(ring[p[0]], key, p[0 + 1]);
    }
  }

  lemma RouteTail(ring: Ring, p: seq<Point>, key: Point)
    requires Named(ring) && IsRoute(ring, p, key) && |p| > 1
    ensures IsRoute(ring, p[1..], key)
  {
  }

  /** A lookup has one course: its start and key determine every hop. */
  lemma {:induction false} RouteUnique(ring: Ring, p: seq<Point>, q: seq<Point>, key: Point)
    requires Named(ring) && IsRoute(ring, p, key) && IsRoute(ring, q, key) && p[0] == q[0]
    ensures p == q
  {
    FirstHop(ring, p, key);
    FirstHop(ring, q, key);
    if |p| > 1 {
      RouteTail(ring, p, key);
      RouteTail(ring, q, key);
      RouteUnique(ring, p[1..], q[1..], key);
      assert p == [p[0]] + p[1..] && q == [q[0]] + q[1..];
    }
  }

  /** The course of an answered lookup begun at n. */
  ghost function Route(ring: Ring, n: Point, key: Point): (route: seq<Point>)
    requires Named(ring) && Answered(ring, n, key)
    ensures IsRoute(ring, route, key) && route[0] == n
    ensures forall path {:trigger IsRoute(ring, path, key)} ::
      IsRoute(ring, path, key) && path[0] == n ==> path == route
  {
    var route :| IsRoute(ring, route, key) && route[0] == n;
    forall path {:trigger IsRoute(ring, path, key)} | IsRoute(ring, path, key) && path[0] == n
      ensures path == route
    {
      RouteUnique(ring, path, route, key);
    }
    route
  }

  /** The node that answers it. */
  ghost function Answerer(ring: Ring, n: Point, key: Point): (a: Point)
    requires Named(ring) && Answered(ring, n, key)
    ensures a in ring && ring[a].Responsible(key)
    ensures forall path {:trigger IsRoute(ring, path, key)} ::
      IsRoute(ring, path, key) && path[0] == n ==> path[|path| - 1] == a
  {
    var route := Route(ring, n, key);
    route[|route| - 1]
  }

  lemma RouteOfAnswerer(ring: Ring, n: Point, key: Point)
    requires Named(ring) && n in ring && ring[n].Responsible(key)
    ensures Answered(ring, n, key) && Route(ring, n, key) == [n]
  {
    AnswersItself(ring, n, key);
    assert [n][0] == n;
  }

  /** A forwarding neither saves nor spoils a lookup, and shortens its route by one. */
  lemma RouteAfterHop(ring: Ring, n: Point, next: Point, key: Point)
    requires Named(ring) && n in ring && next in ring && Forwards(ring[n], key, next)
    ensures Answered(ring, n, key) <==> Answered(ring, next, key)
    ensures Answered(ring, n, key) ==> |Route(ring, n, key)| == |Route(ring, next, key)| + 1
  {
    if Answered(ring, n, key) {
      var route := Route(ring, n, key);
      FirstHop(ring, route, key);
      RouteTail(ring, route, key);
      assert route[1..][0] == next;
    } else if Answered(ring, next, key) {
      AnsweredByNextHop(ring, n, next, key);
    }
  }

  lemma HopIsMember(ring: Ring, n: Point, key: Point)
    requires Named(ring) && n in ring && SpreadAt(ring, n) && key != n
    ensures ring[n].hash == n && ring[n].NextHop(key) in ring
  {
    Log2Below(Distance(n, key), FINGER_TABLE_LENGTH);
  }

  lemma AnswererIsSuccessor(ring: Ring, n: Point, key: Point)
    requires Partitioned(ring) && Answered(ring, n, key)
    ensures Answerer(ring, n, key) == Successor(ring.Keys, key)
  {
    ResponsibilityPartitions(ring, key);
  }

  // ---------- lookups that are not answered ----------

  /** The request is forwarded from each node of the path to the next. */
  ghost predicate Leads(ring: Ring, path: seq<Point>, key: Point)
    requires Named(ring)
  {
    && path != []
    && (forall j :: 0 <= j < |path| ==> path[j] in ring)
    && forall j :: 0 <= j < |path| - 1 ==> Forwards(ring[path[j]], key, path[j + 1])
  }

  lemma LeadTail(ring: Ring, lead: seq<Point>, key: Point)
    requires Named(ring) && Leads(ring, lead, key) && |lead| > 1
    ensures Leads(ring, lead[1..], key)
  {
  }

  /** A route goes where the request is led, and is shorter from there on. */
  lemma {:induction false} RouteFollows(ring: Ring, lead: seq<Point>, route: seq<Point>, key: Point)
    returns (rest: seq<Point>)
    requires Named(ring) && Leads(ring, lead, key) && IsRoute(ring, route, key) && route[0] == lead[0]
    ensures IsRoute(ring, rest, key) && rest[0] == lead[|lead| - 1]
    ensures |rest| == |route| - (|lead| - 1)
    decreases |lead|
  {
    if |lead| == 1 {
      rest := route;
    } else {
      assert Forwards(ring[lead[0]], key, lead[0 + 1]);
      FirstHop(ring, route, key);
      RouteTail(ring, route, key);
      LeadTail(ring, lead, key);
      rest := RouteFollows(ring, lead[1..], route[1..], key);
    }
  }

  /** One more hop in front. */
  lemma LeadFrom(ring: Ring, n: Point, lead: seq<Point>, key: Point)
    requires Named(ring) && n in ring && Leads(ring, lead, key) && Forwards(ring[n], key, lead[0])
    ensures Leads(ring, [n] + lead, key)
  {
  }

  /** A request that is led back to where it was never gets an answer. */
  lemma CircleNeverAnswered(ring: Ring, lead: seq<Point>, key: Point)
    requires Named(ring) && Leads(ring, lead, key) && |lead| > 1 && lead[|lead| - 1] == lead[0]
    ensures !Answered(ring, lead[0], key)
  {
    forall route: seq<Point> {:trigger IsRoute(ring, route, key)} | IsRoute(ring, route, key) && route[0] == lead[0]
      ensures false
    {
      var rest := RouteFollows(ring, lead, route, key);
      RouteUnique(ring, rest, route, key);
    }
  }

  /** A node that forwards a key to itself never gets an answer for it. */
  lemma SelfForwardNeverAnswered(ring: Ring, n: Point, key: Point)
    requires Named(ring) && n in ring && Forwards(ring[n], key, n)
    ensures !Answered(ring, n, key)
  {
    CircleNeverAnswered(ring, [n, n], key);
  }
}
