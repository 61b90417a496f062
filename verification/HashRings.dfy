/**
 The consistent-hash ring: points of a 32-bit circle, each held by a node; a key belongs to the node at the
 first point from its own hash on, and past the last point to the first.
 */
module HashRings {
  import opened RingHash

  type Node = Bytes
  type Ring = map<Word, Node>

  const VIRTUAL_NODES: nat := 3
  const COLON: Byte := 58
  const DIGIT_ZERO: Byte := 48

  /** The bytes of "localhost", the owner of every key on the empty ring. */
  const FALLBACK: Node := [108, 111, 99, 97, 108, 104, 111, 115, 116]

  function VirtualName(n: Node, i: nat): Bytes
    requires i < VIRTUAL_NODES
  {
    n + [COLON] + [DIGIT_ZERO + i]
  }

  function Point(signedChar: bool, n: Node, i: nat): Word
    requires i < VIRTUAL_NODES
  {
    Hash(signedChar, VirtualName(n, i))
  }

  function Points(signedChar: bool, n: Node): set<Word> {
    {Point(signedChar, n, 0), Point(signedChar, n, 1), Point(signedChar, n, 2)}
  }

  // ---------- lookup ----------

  lemma {:induction false} LeastExists(s: set<Word>) returns (p: Word)
    requires s != {}
    ensures p in s && forall q :: q in s ==> p <= q
  {
    p :| p in s;
    var rest := s - {p};
    if rest != {} {
      var least := LeastExists(rest);
      assert s == rest + {p};
      p := if p <= least then p else least;
    }
  }

  function Least(s: set<Word>): (p: Word)
    requires s != {}
    ensures p in s && forall q :: q in s ==> p <= q
  {
    assert exists p :: p in s && forall q :: q in s ==> p <= q by {
      var p := LeastExists(s);
    }
    var p: Word :| p in s && forall q :: q in s ==> p <= q;
    p
  }

  function From(points: set<Word>, h: Word): set<Word> {
    set p | p in points && h <= p
  }

  /** The first point from h on, past the last point the first of all. */
  function Successor(points: set<Word>, h: Word): (p: Word)
    requires points != {}
    ensures p in points
  {
    if From(points, h) != {} then Least(From(points, h)) else Least(points)
  }

  function Owner(ring: Ring, h: Word): Node {
    if ring == map[] then FALLBACK else ring[Successor(ring.Keys, h)]
  }

  /** No point of the ring lies from h on before p; or there is none from h on, and p is the first of all. */
  ghost predicate IsNext(ring: Ring, h: Word, p: Word) {
    || (h <= p && forall q :: q in ring && h <= q ==> p <= q)
    || (forall q :: q in ring ==> p <= q && q < h)
  }

  /** The owner holds the first point from h on; if there is none, the first point of the ring. */
  lemma OwnerHoldsNextPoint(ring: Ring, h: Word) returns (p: Word)
    requires ring != map[]
    ensures p in ring && Owner(ring, h) == ring[p]
    ensures forall q :: q in ring && h <= q ==> h <= p <= q
    ensures (forall q :: q in ring ==> q < h) ==> forall q :: q in ring ==> p <= q
    ensures IsNext(ring, h, p)
  {
    assert ring.Keys != {};
    p := Successor(ring.Keys, h);
    assert forall q :: q in ring && h <= q ==> q in From(ring.Keys, h);
  }

  /** A successor among more points is the old one or one of the new points. */
  lemma SuccessorGrows(points: set<Word>, more: set<Word>, h: Word)
    requires points != {}
    ensures Successor(points + more, h) == Successor(points, h) || Successor(points + more, h) in more - points
  {
    var p, all := Successor(points + more, h), points + more;
    assert From(points, h) <= From(all, h);
    if p in points {
      if From(all, h) != {} {
        assert p in From(points, h);
      } else {
        assert From(points, h) == {};
      }
    }
  }

  // ---------- adding and removing a node ----------

  function Added(ring: Ring, points: set<Word>, n: Node): Ring {
    map p | p in ring.Keys + points :: if p in points then n else ring[p]
  }

  function Removed(ring: Ring, n: Node): Ring {
    map p | p in ring && ring[p] != n :: ring[p]
  }

  /** Adding a node moves keys to that node only, colliding points or not. */
  lemma AddMovesOnlyToTheNewNode(ring: Ring, points: set<Word>, n: Node, h: Word)
    requires points != {}
    ensures Owner(Added(ring, points, n), h) == Owner(ring, h) || Owner(Added(ring, points, n), h) == n
  {
    var added := Added(ring, points, n);
    assert added.Keys == ring.Keys + points;
    if ring != map[] {
      assert ring.Keys != {};
      SuccessorGrows(ring.Keys, points, h);
    } else {
      assert ring.Keys == {};
    }
  }

  /** Removing a node moves its own keys only, and as long as a point is left no key stays with it. */
  lemma RemoveMovesOnlyItsKeys(ring: Ring, n: Node, h: Word)
    ensures Owner(ring, h) != n ==> Owner(Removed(ring, n), h) == Owner(ring, h)
    ensures Removed(ring, n) != map[] ==> Owner(Removed(ring, n), h) != n
  {
    var removed := Removed(ring, n);
    if removed != map[] {
      var gone := ring.Keys - removed.Keys;
      assert removed.Keys != {} && ring.Keys == removed.Keys + gone;
      SuccessorGrows(removed.Keys, gone, h);
    } else if ring != map[] {
      assert Successor(ring.Keys, h) !in removed;
    }
  }

  /** Two nodes can be added in either order, with the same ring, exactly when they share no point. */
  lemma AddsCommuteIff(ring: Ring, ps: set<Word>, a: Node, qs: set<Word>, b: Node)
    requires a != b
    ensures Added(Added(ring, ps, a), qs, b) == Added(Added(ring, qs, b), ps, a) <==> ps !! qs
  {
    var ab, ba := Added(Added(ring, ps, a), qs, b), Added(Added(ring, qs, b), ps, a);
    assert ab.Keys == ring.Keys + ps + qs == ba.Keys;
    if p :| p in ps && p in qs {
      assert ab[p] == b && ba[p] == a;
    } else {
      assert ab == ba;
    }
  }

  /** Adding a node and removing it restores the ring exactly when it was absent and its points were free. */
  lemma AddThenRemoveIff(ring: Ring, points: set<Word>, n: Node)
    ensures Removed(Added(ring, points, n), n) == ring <==> n !in ring.Values && points !! ring.Keys
  {
    var back := Removed(Added(ring, points, n), n);
    if p :| p in ring && (p in points || ring[p] == n) {
      assert p !in back;
      assert ring[p] in ring.Values;
    } else {
      assert back == ring;
    }
  }

  // ---------- the ring of a membership ----------

  /** The virtual points of each node, as a function value. */
  function PointsOf(signedChar: bool): Node -> set<Word> {
    (n: Node) => Points(signedChar, n)
  }

  /** Points of different nodes never meet. */
  ghost predicate NoCollisions(points: Node -> set<Word>, nodes: set<Node>) {
    forall a, b :: a in nodes && b in nodes && a != b ==> points(a) !! points(b)
  }

  /** The ring holds exactly the points of the members. */
  ghost predicate IsRingOf(points: Node -> set<Word>, ring: Ring, members: set<Node>) {
    && (forall p :: p in ring ==> ring[p] in members && p in points(ring[p]))
    && (forall n, p :: n in members && p in points(n) ==> p in ring && ring[p] == n)
  }

  lemma RingOfIsUnique(points: Node -> set<Word>, r: Ring, s: Ring, members: set<Node>)
    requires IsRingOf(points, r, members) && IsRingOf(points, s, members)
    ensures r == s
  {
    assert forall p :: p in r ==> p in s && s[p] == r[p];
    assert forall p :: p in s ==> p in r;
  }

  datatype Change = Join(n: Node) | Leave(n: Node)

  function Members(h: seq<Change>): set<Node> {
    if h == [] then {}
    else
      match h[|h|-1]
      case Join(n) => Members(h[..|h|-1]) + {n}
      case Leave(n) => Members(h[..|h|-1]) - {n}
  }

  function Joined(h: seq<Change>): set<Node> {
    set c | c in h && c.Join? :: c.n
  }

  function RingAfter(points: Node -> set<Word>, h: seq<Change>): Ring {
    if h == [] then map[]
    else
      var before := RingAfter(points, h[..|h|-1]);
      match h[|h|-1]
      case Join(n) => Added(before, points(n), n)
      case Leave(n) => Removed(before, n)
  }

  /** After any changes in any order, repeated or not, the ring holds the points of the members and no others. */
  lemma {:induction false} RingIsOfMembers(points: Node -> set<Word>, h: seq<Change>)
    requires NoCollisions(points, Joined(h))
    ensures IsRingOf(points, RingAfter(points, h), Members(h)) && Members(h) <= Joined(h)
  {
    if h != [] {
      var before, c := h[..|h|-1], h[|h|-1];
      assert h == before + [c];
      assert forall x :: x in before ==> x in h;
      assert Joined(before) <= Joined(h);
      RingIsOfMembers(points, before);
      if c.Join? {
        assert c in h && c.n in Joined(h);
        AddedIsRingOf(points, RingAfter(points, before), Members(before), c.n);
      } else {
        RemovedIsRingOf(points, RingAfter(points, before), Members(before), c.n);
      }
    }
  }

  lemma AddedIsRingOf(points: Node -> set<Word>, ring: Ring, members: set<Node>, n: Node)
    requires IsRingOf(points, ring, members) && NoCollisions(points, members + {n})
    ensures IsRingOf(points, Added(ring, points(n), n), members + {n})
  {
    var added := Added(ring, points(n), n);
    forall m, p | m in members + {n} && p in points(m) ensures p in added && added[p] == m {
      if m != n {
        assert points(m) !! points(n);
      }
    }
  }

  lemma RemovedIsRingOf(points: Node -> set<Word>, ring: Ring, members: set<Node>, n: Node)
    requires IsRingOf(points, ring, members)
    ensures IsRingOf(points, Removed(ring, n), members - {n})
  {
  }

  lemma MemberPoints(points: Node -> set<Word>, ring: Ring, members: set<Node>, n: Node)
    requires IsRingOf(points, ring, members) && n in members
    ensures ring.Keys == Removed(ring, n).Keys + points(n) && Removed(ring, n).Keys !! points(n)
  {
  }

  lemma DisjointSizes(ring: Ring, rest: Ring, ps: set<Word>)
    requires ring.Keys == rest.Keys + ps && rest.Keys !! ps
    ensures |ring| == |rest| + |ps|
  {
    assert |ring| == |ring.Keys| && |rest| == |rest.Keys|;
  }

  lemma {:induction false} RingSize(points: Node -> set<Word>, ring: Ring, members: set<Node>)
    requires IsRingOf(points, ring, members)
    requires forall n :: n in members ==> |points(n)| == VIRTUAL_NODES
    ensures |ring| == VIRTUAL_NODES * |members|
  {
    if members == {} {
      assert ring == map[];
    } else {
      var n :| n in members;
      var rest := Removed(ring, n);
      RemovedIsRingOf(points, ring, members, n);
      RingSize(points, rest, members - {n});
      MemberPoints(points, ring, members, n);
      DisjointSizes(ring, rest, points(n));
      assert |members| == |members - {n}| + 1;
    }
  }

  /** The nodes found on the ring are the members. */
  lemma NodesAreMembers(points: Node -> set<Word>, ring: Ring, members: set<Node>)
    requires IsRingOf(points, ring, members) && forall n :: n in members ==> points(n) != {}
    ensures ring.Values == members
  {
    forall n | n in members ensures n in ring.Values {
      var p :| p in points(n);
      assert ring[p] == n;
    }
  }

  /** With more members a key stays where it was or goes to one of the additional members. */
  lemma LargerMembershipMovesOnlyToNewcomers(
    points: Node -> set<Word>, r: Ring, s: Ring, m: set<Node>, m': set<Node>, h: Word)
    requires IsRingOf(points, r, m) && IsRingOf(points, s, m') && m <= m'
    ensures Owner(s, h) == Owner(r, h) || Owner(s, h) in m' - m
  {
    MembersPointsKept(points, r, s, m, m');
    if s == map[] {
      assert r.Keys == {};
    } else {
      assert s.Keys != {};
      var q := Successor(s.Keys, h);
      if q in r {
        SuccessorGrows(r.Keys, s.Keys, h);
      }
    }
  }

  lemma MembersPointsKept(points: Node -> set<Word>, r: Ring, s: Ring, m: set<Node>, m': set<Node>)
    requires IsRingOf(points, r, m) && IsRingOf(points, s, m') && m <= m'
    ensures r.Keys + s.Keys == s.Keys
    ensures forall p :: p in r ==> p in s && s[p] == r[p]
    ensures forall p :: p in s && p !in r ==> s[p] in m' - m
  {
  }

  // ---------- the hash behind the points ----------

  lemma VirtualNamesDiffer(signedChar: bool, n: Node, i: nat, j: nat)
    requires i < VIRTUAL_NODES && j < VIRTUAL_NODES && i != j
    ensures Point(signedChar, n, i) != Point(signedChar, n, j)
  {
    SingleChangeSeparates(signedChar, n + [COLON], DIGIT_ZERO + i, DIGIT_ZERO + j, []);
    assert VirtualName(n, i) + [] == VirtualName(n, i) && VirtualName(n, j) + [] == VirtualName(n, j);
  }

  lemma ThreeElements(a: Word, b: Word, c: Word)
    requires a != b && b != c && a != c
    ensures |{a, b, c}| == 3
  {
    assert {a, b, c} - {a} == {b, c} && {b, c} - {b} == {c};
  }

  /** The virtual points of one node never collide with one another. */
  lemma PointsAreThree(signedChar: bool, n: Node)
    ensures |Points(signedChar, n)| == VIRTUAL_NODES
  {
    VirtualNamesDiffer(signedChar, n, 0, 1);
    VirtualNamesDiffer(signedChar, n, 0, 2);
    VirtualNamesDiffer(signedChar, n, 1, 2);
    ThreeElements(Point(signedChar, n, 0), Point(signedChar, n, 1), Point(signedChar, n, 2));
  }

  lemma ThreePoints(signedChar: bool)
    ensures forall n :: |PointsOf(signedChar)(n)| == VIRTUAL_NODES && PointsOf(signedChar)(n) != {}
  {
    forall n ensures |PointsOf(signedChar)(n)| == VIRTUAL_NODES && PointsOf(signedChar)(n) != {} {
      PointsAreThree(signedChar, n);
    }
  }

  /**
   The ring is a function of the membership. After any changes of nodes whose points never meet: three
   points a member, the members and nobody else on the ring, the same ring for every history of the same
   members, and with more members each key stays or goes to a newcomer.
   */
  lemma RingIsAFunctionOfMembership(signedChar: bool, g: seq<Change>, h: seq<Change>, k: Word)
    requires NoCollisions(PointsOf(signedChar), Joined(g)) && NoCollisions(PointsOf(signedChar), Joined(h))
    requires Members(g) <= Members(h)
    ensures var r, s := RingAfter(PointsOf(signedChar), g), RingAfter(PointsOf(signedChar), h);
      && |s| == VIRTUAL_NODES * |Members(h)| && s.Values == Members(h)
      && (Members(g) == Members(h) ==> r == s)
      && (Owner(s, k) == Owner(r, k) || Owner(s, k) in Members(h) - Members(g))
  {
    var points := PointsOf(signedChar);
    var r, s := RingAfter(points, g), RingAfter(points, h);
    ThreePoints(signedChar);
    RingIsOfMembers(points, g);
    RingIsOfMembers(points, h);
    RingSize(points, s, Members(h));
    NodesAreMembers(points, s, Members(h));
    LargerMembershipMovesOnlyToNewcomers(points, r, s, Members(g), Members(h), k);
    if Members(g) == Members(h) {
      RingOfIsUnique(points, r, s, Members(h));
    }
  }

  /** Nodes that share a point: one history of joins or the other, same members, different rings. */
  lemma OrderMatters(points: Node -> set<Word>, a: Node, b: Node, p: Word)
    requires a != b && p in points(a) && p in points(b)
    ensures var ab, ba := [Join(a), Join(b)], [Join(b), Join(a)];
      Members(ab) == Members(ba) && RingAfter(points, ab) != RingAfter(points, ba)
  {
    AddsCommuteIff(map[], points(a), a, points(b), b);
    TwoJoins(points, a, b);
    TwoJoins(points, b, a);
  }

  lemma TwoJoins(points: Node -> set<Word>, a: Node, b: Node)
    ensures Members([Join(a), Join(b)]) == {a, b}
    ensures RingAfter(points, [Join(a), Join(b)]) == Added(Added(map[], points(a), a), points(b), b)
  {
    var h := [Join(a), Join(b)];
    assert h[..1] == [Join(a)] && h[..1][..0] == [];
    assert Members(h[..1]) == {a} && RingAfter(points, h[..1]) == Added(map[], points(a), a);
  }

  lemma MembersHaveJoined(h: seq<Change>, nodes: set<Node>)
    requires forall i :: 0 <= i < |h| ==> h[i].Join? && h[i].n in nodes
    ensures Joined(h) <= nodes
  {
  }

  lemma CollisionFreeRings(points: Node -> set<Word>, nodes: set<Node>, g: seq<Change>, h: seq<Change>)
    requires NoCollisions(points, nodes) && Joined(g) <= nodes && Joined(h) <= nodes && Members(g) == Members(h)
    ensures RingAfter(points, g) == RingAfter(points, h)
  {
    RingIsOfMembers(points, g);
    RingIsOfMembers(points, h);
    RingOfIsUnique(points, RingAfter(points, g), RingAfter(points, h), Members(g));
  }

  /** Whatever two histories of these nodes leave the same members, they leave the same ring. */
  ghost predicate MembersDetermineRing(points: Node -> set<Word>, nodes: set<Node>) {
    forall g, h :: Joined(g) <= nodes && Joined(h) <= nodes && Members(g) == Members(h) ==>
                     RingAfter(points, g) == RingAfter(points, h)
  }

  /**
   The ring is a function of the membership if and only if the points of different nodes never meet, for any
   set of nodes and any placing of points.
   */
  lemma MembersDetermineRingIff(points: Node -> set<Word>, nodes: set<Node>)
    ensures MembersDetermineRing(points, nodes) <==> NoCollisions(points, nodes)
  {
    if NoCollisions(points, nodes) {
      forall g, h | Joined(g) <= nodes && Joined(h) <= nodes && Members(g) == Members(h)
        ensures RingAfter(points, g) == RingAfter(points, h) {
        CollisionFreeRings(points, nodes, g, h);
      }
    } else {
      var a, b :| a in nodes && b in nodes && a != b && !(points(a) !! points(b));
      var p :| p in points(a) && p in points(b);
      var ab, ba := [Join(a), Join(b)], [Join(b), Join(a)];
      MembersHaveJoined(ab, nodes);
      MembersHaveJoined(ba, nodes);
      OrderMatters(points, a, b, p);
    }
  }

  // ---------- the code ----------

  function FirstPoints(signedChar: bool, n: Node, i: nat): set<Word>
    requires i <= VIRTUAL_NODES
  {
    if i == 0 then {}
    else if i == 1 then {Point(signedChar, n, 0)}
    else if i == 2 then {Point(signedChar, n, 0), Point(signedChar, n, 1)}
    else Points(signedChar, n)
  }

  lemma NextPoint(signedChar: bool, n: Node, i: nat)
    requires i < VIRTUAL_NODES
    ensures FirstPoints(signedChar, n, i) + {Point(signedChar, n, i)} == FirstPoints(signedChar, n, i + 1)
  {
  }

  lemma AddOnePoint(ring: Ring, ps: set<Word>, p: Word, n: Node)
    ensures Added(ring, ps, n)[p := n] == Added(ring, ps + {p}, n)
  {
  }

  /** Walking up the ring, m is met before n. */
  ghost predicate SeenFirst(ring: Ring, m: Node, n: Node) {
    exists p :: p in ring && ring[p] == m && forall q :: q in ring && ring[q] == n ==> p < q
  }

  ghost predicate MetInOrder(ring: Ring, nodes: seq<Node>) {
    forall i, j :: 0 <= i < j < |nodes| ==> nodes[i] != nodes[j] && SeenFirst(ring, nodes[i], nodes[j])
  }

  /** The pending points are the last of the ring. */
  ghost predicate Upper(ring: Ring, pending: set<Word>) {
    pending <= ring.Keys && forall p, q :: p in ring && p !in pending && q in pending ==> p < q
  }

  ghost predicate Holds(ring: Ring, pending: set<Word>, n: Node) {
    exists p :: p in ring && p !in pending && ring[p] == n
  }

  /** The nodes of the points below the pending ones, listed as they were met. */
  ghost predicate Listed(ring: Ring, pending: set<Word>, nodes: seq<Node>) {
    Upper(ring, pending) && MetInOrder(ring, nodes) && forall n :: n in nodes <==> Holds(ring, pending, n)
  }

  lemma UpperNext(ring: Ring, pending: set<Word>, p: Word)
    requires Upper(ring, pending) && p in pending && forall q :: q in pending ==> p <= q
    ensures Upper(ring, pending - {p})
  {
  }

  lemma HoldsNext(ring: Ring, pending: set<Word>, p: Word, n: Node)
    requires p in pending && p in ring
    ensures Holds(ring, pending - {p}, n) <==> Holds(ring, pending, n) || n == ring[p]
  {
  }

  lemma MetLater(ring: Ring, pending: set<Word>, m: Node, n: Node)
    requires Upper(ring, pending) && Holds(ring, pending, m) && !Holds(ring, pending, n)
    ensures SeenFirst(ring, m, n)
  {
    var p :| p in ring && p !in pending && ring[p] == m;
    forall q | q in ring && ring[q] == n ensures p < q {
      assert q in pending;
    }
  }

  lemma MetSnoc(ring: Ring, nodes: seq<Node>, n: Node)
    requires MetInOrder(ring, nodes) && n !in nodes && forall m :: m in nodes ==> SeenFirst(ring, m, n)
    ensures MetInOrder(ring, nodes + [n])
  {
    forall i | 0 <= i < |nodes| ensures nodes[i] != n && SeenFirst(ring, nodes[i], n) {
      assert nodes[i] in nodes;
    }
  }

  lemma ListNext(ring: Ring, pending: set<Word>, nodes: seq<Node>, p: Word)
    requires Listed(ring, pending, nodes) && p in pending && forall q :: q in pending ==> p <= q
    ensures Listed(ring, pending - {p}, if ring[p] in nodes then nodes else nodes + [ring[p]])
  {
    UpperNext(ring, pending, p);
    if ring[p] !in nodes {
      forall m | m in nodes ensures SeenFirst(ring, m, ring[p]) {
        MetLater(ring, pending, m, ring[p]);
      }
      MetSnoc(ring, nodes, ring[p]);
    }
    forall n ensures Holds(ring, pending - {p}, n) <==> n in nodes || n == ring[p] {
      HoldsNext(ring, pending, p, n);
    }
  }

  lemma AllHold(ring: Ring, n: Node)
    ensures Holds(ring, {}, n) <==> n in ring.Values
  {
  }

  class HashRing {
    const signedChar: bool
    var ring: Ring

    constructor (signedChar: bool)
      ensures ring == map[] && this.signedChar == signedChar
    {
      this.signedChar := signedChar;
      ring := map[];
    }

    method AddNode(n: Node)
      modifies this
      ensures ring == Added(old(ring), Points(signedChar, n), n)
    {
      ghost var before := ring;
      for i := 0 to VIRTUAL_NODES
        invariant ring == Added(before, FirstPoints(signedChar, n, i), n)
      {
        var virtualNode := n + [COLON] + [DIGIT_ZERO + i];
        var point := ComputeHash(signedChar, virtualNode);
        NextPoint(signedChar, n, i);
        AddOnePoint(before, FirstPoints(signedChar, n, i), point, n);
        ring := ring[point := n];
      }
    }

    /** One pass over the points in ascending order, erasing on the way. */
    method RemoveNode(n: Node)
      modifies this
      ensures ring == Removed(old(ring), n)
    {
      var pending := ring.Keys;
      while pending != {}
        invariant pending <= ring.Keys <= old(ring.Keys)
        invariant forall p :: p in old(ring) ==> (p in ring <==> p in pending || old(ring)[p] != n)
        invariant forall p :: p in ring ==> ring[p] == old(ring)[p]
        decreases pending
      {
        var p := Least(pending);
        if ring[p] == n {
          ring := ring - {p};
        }
        pending := pending - {p};
      }
      assert ring == Removed(old(ring), n);
    }

    method GetNode(key: Bytes) returns (n: Node)
      ensures n == Owner(ring, Hash(signedChar, key))
      ensures ring == map[] ==> |n| == 9 && forall i :: 0 <= i < 9 ==> n[i] == "localhost"[i] as int
      ensures ring != map[] ==> exists p :: p in ring && ring[p] == n && IsNext(ring, Hash(signedChar, key), p)
    {
      if ring != map[] {
        ghost var p := OwnerHoldsNextPoint(ring, Hash(signedChar, key));
      }
      if ring == map[] {
        return FALLBACK;
      }
      assert ring.Keys != {};
      var keyHash := ComputeHash(signedChar, key);
      var tail := From(ring.Keys, keyHash);
      if tail == {} {
        return ring[Least(ring.Keys)];
      }
      return ring[Least(tail)];
    }

    /** Every node that holds a point, once, in the order of their first points. */
    method GetAllNodes() returns (nodes: seq<Node>)
      ensures forall i, j :: 0 <= i < j < |nodes| ==> nodes[i] != nodes[j]
      ensures forall n :: n in nodes <==> n in ring.Values
      ensures forall i, j :: 0 <= i < j < |nodes| ==> SeenFirst(ring, nodes[i], nodes[j])
    {
      nodes := [];
      var pending := ring.Keys;
      while pending != {}
        invariant Listed(ring, pending, nodes)
        decreases pending
      {
        var p := Least(pending);
        ListNext(ring, pending, nodes, p);
        if ring[p] !in nodes {
          nodes := nodes + [ring[p]];
        }
        pending := pending - {p};
      }
      forall n ensures n in nodes <==> n in ring.Values {
        AllHold(ring, n);
      }
    }
  }
}
