/**
 The intrusive list of `estl.h`: nodes carry their own links, and a list is the ring of nodes through its
 anchor.
 */
module IntrusiveList {

  /** `eListNode`. */
  class Node {
    var next: Node
    var prev: Node

    constructor ()
      ensures Alone(this)
    {
      next := this;
      prev := this;
    }

    /** `init`. */
    method Init()
      modifies this
      ensures Alone(this)
    {
      next := this;
      prev := this;
    }

    /**
     `unchain`: the neighbours that the node names are linked past it, and it is alone.  In a ring, which closes, they
     are its neighbours indeed; a node that is alone stays as it is.
     */
    method Unchain(ghost ring: seq<Node>, ghost k: nat)
      modifies this, next, prev
      ensures Alone(this)
      ensures old(Ring(ring)) && k < |ring| && ring[k] == this && 1 < |ring| ==> Ring(Without(ring, k))
      ensures old(prev) != this ==> old(prev).next == old(next)
      ensures old(next) != this ==> old(next).prev == old(prev)
      ensures old(prev) != this && old(prev) != old(next) ==> old(prev).prev == old(prev.prev)
      ensures old(next) != this && old(next) != old(prev) ==> old(next).next == old(next.next)
    {
      ghost var n := |ring|;
      ghost var inRing := Ring(ring) && k < n && ring[k] == this;
      assert inRing ==> LinkedAt(ring, k);
      prev.next := next;
      next.prev := prev;
      Init();
      if inRing && 1 < n {
        forall i | 0 <= i < n && i != k ensures SkipsAt(ring, k, i) {
          assert old(LinkedAt(ring, i));
        }
        RingWithout(ring, k);
      }
    }

    predicate IsLinked()
      reads this
    {
      prev != this && next != this
    }
  }

  predicate Alone(x: Node)
    reads x
  {
    x.next == x && x.prev == x
  }

  // ----- rings

  function Succ(i: nat, n: nat): nat {
    if i + 1 == n then 0 else i + 1
  }

  function Pred(i: nat, n: nat): nat
    requires 0 < n
  {
    if i == 0 then n - 1 else i - 1
  }

  predicate Distinct(c: seq<Node>) {
    forall i, j :: 0 <= i < j < |c| ==> c[i] != c[j]
  }

  /** Node `i` leads to its neighbours. */
  predicate LinkedAt(c: seq<Node>, i: nat)
    requires i < |c|
    reads c
  {
    c[i].next == c[Succ(i, |c|)] && c[i].prev == c[Pred(i, |c|)]
  }

  /** The nodes of `c`, in order, are one cycle of `next` and, backwards, of `prev`. */
  predicate Ring(c: seq<Node>)
    reads c
  {
    c != [] && Distinct(c) && forall i :: 0 <= i < |c| ==> LinkedAt(c, i)
  }

  /** A node that is alone is a ring by itself, so that it may be taken out again, to no effect. */
  lemma AloneIsRing(x: Node)
    ensures Alone(x) <==> Ring([x])
  {
    if Ring([x]) {
      assert LinkedAt([x], 0);
    }
  }

  lemma AnchorAloneIff(c: seq<Node>)
    requires c != [] && Alone(c[0])
    ensures Ring(c) <==> |c| == 1
  {
    if Ring(c) {
      assert LinkedAt(c, 0);
    }
  }

  lemma StaysInside(c: seq<Node>)
    requires c != []
    ensures Ring(c) ==> c[0].next in c && c[0].prev in c
  {
    if Ring(c) {
      assert LinkedAt(c, 0);
    }
  }

  function Without(c: seq<Node>, k: nat): seq<Node>
    requires k < |c|
  {
    c[..k] + c[k + 1..]
  }

  function With(c: seq<Node>, k: nat, x: Node): seq<Node>
    requires k <= |c|
  {
    c[..k] + [x] + c[k..]
  }

  lemma WithAfterFirst(a: Node, s: seq<Node>, k: nat, x: Node)
    requires 1 <= k <= |s| + 1
    ensures With([a] + s, k, x) == [a] + (s[..k - 1] + [x] + s[k - 1..])
  {
  }

  /** Node `i` leads to its neighbours, but past node `k`. */
  predicate SkipsAt(c: seq<Node>, k: nat, i: nat)
    requires k < |c| && i < |c|
    reads c
  {
    && c[i].next == c[if i == Pred(k, |c|) then Succ(k, |c|) else Succ(i, |c|)]
    && c[i].prev == c[if i == Succ(k, |c|) then Pred(k, |c|) else Pred(i, |c|)]
  }

  lemma RingWithout(c: seq<Node>, k: nat)
    requires 1 < |c| && k < |c| && Distinct(c)
    requires forall i :: 0 <= i < |c| && i != k ==> SkipsAt(c, k, i)
    ensures Ring(Without(c, k))
  {
    var d, n := Without(c, k), |c| - 1;
    forall i | 0 <= i < n
      ensures LinkedAt(d, i)
    {
      var j := if i < k then i else i + 1;
      assert SkipsAt(c, k, j);
      assert d[i] == c[j];
    }
  }

  /** The nodes of `c`, in order, are linked, but its first node need not know of the others. */
  predicate Orphans(c: seq<Node>)
    reads c
  {
    c != [] && Distinct(c) && forall i :: 1 <= i < |c| ==> LinkedAt(c, i)
  }

  lemma OrphansAreLinked(c: seq<Node>)
    requires Orphans(c)
    ensures forall x :: x in c[1..] ==> x.IsLinked()
  {
    forall i | 1 <= i < |c|
      ensures c[i].IsLinked()
    {
      assert LinkedAt(c, i);
    }
  }

  lemma OrphansWithout(c: seq<Node>, k: nat)
    requires 1 <= k < |c| && Distinct(c)
    requires forall i :: 1 <= i < |c| && i != k ==> SkipsAt(c, k, i)
    ensures Orphans(Without(c, k))
  {
    var d := Without(c, k);
    forall i | 1 <= i < |d|
      ensures LinkedAt(d, i)
    {
      var j := if i < k then i else i + 1;
      assert SkipsAt(c, k, j);
      assert d[i] == c[j] && d[0] == c[0];
    }
  }

  /** Node `i` leads to its neighbours, but through `x` instead of from node `k - 1` to the next. */
  predicate ThroughAt(c: seq<Node>, k: nat, x: Node, i: nat)
    requires 0 < k <= |c| && i < |c|
    reads c
  {
    && c[i].next == (if i == k - 1 then x else c[Succ(i, |c|)])
    && c[i].prev == (if Succ(k - 1, |c|) == i then x else c[Pred(i, |c|)])
  }

  lemma RingWith(c: seq<Node>, k: nat, x: Node)
    requires 0 < k <= |c| && Distinct(c) && x !in c
    requires x.prev == c[k - 1] && x.next == c[Succ(k - 1, |c|)]
    requires forall i :: 0 <= i < |c| ==> ThroughAt(c, k, x, i)
    ensures Ring(With(c, k, x))
  {
    var d, n := With(c, k, x), |c| + 1;
    forall i | 0 <= i < n
      ensures LinkedAt(d, i)
    {
      if i != k {
        var j := if i < k then i else i - 1;
        assert ThroughAt(c, k, x, j);
        assert d[i] == c[j];
      }
    }
  }

  /** Some node of `c` is not the predecessor of its successor. */
  ghost predicate Broken(c: seq<Node>)
    reads c, set x | x in c :: x.next
  {
    exists x :: x in c && x.next.prev != x
  }

  lemma RingIsNotBroken(c: seq<Node>)
    requires Ring(c)
    ensures !Broken(c)
  {
    forall x | x in c
      ensures x.next.prev == x
    {
      var i: nat :| i < |c| && c[i] == x;
      assert LinkedAt(c, i) && LinkedAt(c, Succ(i, |c|));
    }
  }

  /**
   `insert_front` of an iterator at `pos`: `x` enters the ring as node `k`, before `pos`.  A ring that `x` is in
   already, be it this one or another, is broken, unless `x` is alone there.
   */
  method InsertBefore(pos: Node, x: Node, ghost c: seq<Node>, ghost k: nat)
    requires Ring(c) && 0 < k <= |c| && pos == c[Succ(k - 1, |c|)]
    modifies x, pos, pos.prev
    ensures x !in c ==> Ring(With(c, k, x))
    ensures forall r: seq<Node> :: old(allocated(r)) && old(Ring(r)) && x in r && 1 < |r| ==> Broken(r)
  {
    assert LinkedAt(c, Succ(k - 1, |c|)) && LinkedAt(c, k - 1);
    x.prev := pos.prev;
    x.next := pos;
    x.prev.next := x;
    pos.prev := x;
    forall r: seq<Node> | old(allocated(r)) && old(Ring(r)) && x in r && 1 < |r|
      ensures Broken(r)
    {
      var m: nat :| m < |r| && r[m] == x;
      var a := r[Pred(m, |r|)];
      assert old(LinkedAt(r, m)) && old(LinkedAt(r, Pred(m, |r|)));
      assert a in r && a.next == x && x.prev != a;
    }
    if x !in c {
      forall i | 0 <= i < |c| ensures ThroughAt(c, k, x, i) {
        assert old(LinkedAt(c, i));
      }
      RingWith(c, k, x);
    }
  }

  // ----- lists

  /** `next` taken `n` times goes through the nodes in order, and after one round is back at the start. */
  function Follow(c: seq<Node>, n: nat): (x: Node)
    requires Ring(c) && n <= |c|
    reads c
    ensures x == c[if n == |c| then 0 else n]
  {
    if n == 0 then c[0]
    else
      assert LinkedAt(c, n - 1);
      Follow(c, n - 1).next
  }

  /** `eList`. */
  class EList {
    const listAnchor: Node
    ghost var nodes: seq<Node>

    constructor ()
      ensures Valid() && nodes == [] && fresh(listAnchor)
    {
      listAnchor := new Node();
      nodes := [];
    }

    ghost function Cycle(): seq<Node>
      reads this
    {
      [listAnchor] + nodes
    }

    ghost predicate Valid()
      reads this, Cycle()
    {
      Ring(Cycle())
    }

    /** `begin`. */
    function Begin(): Node
      reads listAnchor
    {
      listAnchor.next
    }

    /** `end`. */
    function End(): Node {
      listAnchor
    }

    /**
     `insert_front`: before node `k` of the cycle, or at the end if `k` is the number of its nodes.  An element
     that is in the list already must not be inserted: the links are broken then.
     */
    method InsertFront(pos: Node, x: Node, ghost k: nat)
      requires Valid() && 1 <= k <= |nodes| + 1 && pos == Cycle()[Succ(k - 1, |nodes| + 1)] && x != listAnchor
      modifies this, x, pos, pos.prev
      ensures x !in old(nodes) ==> Valid() && nodes == old(nodes)[..k - 1] + [x] + old(nodes)[k - 1..]
      ensures x in old(nodes) ==> Broken(old(Cycle()))
      ensures forall r: seq<Node> :: old(allocated(r)) && old(Ring(r)) && x in r && 1 < |r| ==> Broken(r)
    {
      hide Broken, Ring;
      ghost var c := Cycle();
      assert x in c <==> x in nodes;
      InsertBefore(pos, x, c, k);
      if x !in c {
        WithAfterFirst(listAnchor, nodes, k, x);
        nodes := nodes[..k - 1] + [x] + nodes[k - 1..];
      }
    }

    method PushFront(x: Node)
      requires Valid() && x != listAnchor
      modifies this, x, listAnchor, Begin()
      ensures x !in old(nodes) ==> Valid() && nodes == [x] + old(nodes)
      ensures x in old(nodes) ==> Broken(old(Cycle()))
      ensures forall r: seq<Node> :: old(allocated(r)) && old(Ring(r)) && x in r && 1 < |r| ==> Broken(r)
    {
      assert LinkedAt(Cycle(), 0) && LinkedAt(Cycle(), Succ(0, |Cycle()|));
      InsertFront(Begin(), x, 1);
    }

    method PushBack(x: Node)
      requires Valid() && x != listAnchor
      modifies this, x, listAnchor, listAnchor.prev
      ensures x !in old(nodes) ==> Valid() && nodes == old(nodes) + [x]
      ensures x in old(nodes) ==> Broken(old(Cycle()))
      ensures forall r: seq<Node> :: old(allocated(r)) && old(Ring(r)) && x in r && 1 < |r| ==> Broken(r)
    {
      InsertFront(End(), x, |nodes| + 1);
    }

    /** An element taken out by itself, as its destructor does it. */
    method Unchain(x: Node, ghost k: nat)
      requires Valid() && 1 <= k <= |nodes| && x == nodes[k - 1]
      modifies this, x, x.next, x.prev
      ensures Valid() && Alone(x) && nodes == old(nodes)[..k - 1] + old(nodes)[k..]
    {
      ghost var c := Cycle();
      x.Unchain(c, k);
      nodes := nodes[..k - 1] + nodes[k..];
      assert Cycle() == Without(c, k);
    }

    /**
     `erase`: the node at `pos` leaves the list.  Erasing the end empties the list, and its elements stay behind
     as a ring of their own.
     */
    method Erase(pos: Node, ghost k: nat) returns (following: Node)
      requires Valid() && k <= |nodes| && pos == Cycle()[k]
      modifies this, pos, pos.next, pos.prev
      ensures Valid() && Alone(pos) && following == old(pos.next)
      ensures nodes == if k == 0 then [] else old(nodes)[..k - 1] + old(nodes)[k..]
      ensures k == 0 && old(nodes) != [] ==> Ring(old(nodes))
    {
      ghost var c := Cycle();
      following := pos.next;
      pos.Unchain(c, k);
      if k > 0 {
        nodes := nodes[..k - 1] + nodes[k..];
        assert Cycle() == Without(c, k);
      } else {
        assert Without(c, 0) == nodes;
        nodes := [];
        AloneIsRing(listAnchor);
        assert Cycle() == [listAnchor];
      }
    }

    /** `pop_front`; on an empty list nothing happens. */
    method PopFront()
      requires Valid()
      modifies this, listAnchor, Begin(), Begin().next
      ensures Valid() && nodes == if old(nodes) == [] then [] else old(nodes)[1..]
      ensures old(nodes) != [] ==> Alone(old(nodes)[0])
    {
      assert LinkedAt(Cycle(), 0) && LinkedAt(Cycle(), Succ(0, |Cycle()|));
      var _ := Erase(Begin(), if nodes == [] then 0 else 1);
    }

    /** `pop_back`; on an empty list nothing happens. */
    method PopBack()
      requires Valid()
      modifies this, listAnchor, listAnchor.prev, listAnchor.prev.prev
      ensures Valid() && nodes == if old(nodes) == [] then [] else old(nodes)[..|old(nodes)| - 1]
      ensures old(nodes) != [] ==> Alone(old(nodes)[|old(nodes)| - 1])
    {
      assert LinkedAt(Cycle(), 0) && LinkedAt(Cycle(), |nodes|);
      var _ := Erase(End().prev, |nodes|);
    }

    /** `empty`. */
    predicate Empty()
      requires Valid()
      reads this, Cycle()
      ensures Empty() <==> nodes == []
    {
      assert Cycle()[0] == listAnchor && LinkedAt(Cycle(), 0);
      Begin() == End()
    }

    /** `size`: the walk from `begin` to `end` meets every node once. */
    method Size() returns (n: nat)
      requires Valid()
      ensures n == |nodes|
    {
      n := 0;
      var it := Begin();
      assert LinkedAt(Cycle(), 0);
      while it != End()
        invariant n <= |nodes| && it == Cycle()[Succ(n, |nodes| + 1)]
        decreases |nodes| - n
      {
        n := n + 1;
        assert LinkedAt(Cycle(), n);
        it := it.next;
      }
    }

    /** The destructor: it ends, and leaves every node alone. */
    method Destroy()
      requires Valid()
      modifies this, Cycle()
      ensures Valid() && nodes == []
      ensures forall x :: x in old(Cycle()) ==> Alone(x)
    {
      hide Ring, Distinct, LinkedAt;
      ghost var all, cycle := nodes, Cycle();
      while !Empty()
        invariant Valid() && (forall x :: x in Cycle() ==> x in cycle)
        invariant forall x :: x in cycle ==> x in Cycle() || Alone(x)
        decreases |nodes|
      {
        FrontNode();
        PopFront();
        assert forall x :: x in Cycle() ==> x in cycle;
      }
      AnchorAlone();
    }

    /** The first node, the one after it, and the rest of the cycle. */
    lemma FrontNode()
      requires Valid() && nodes != []
      ensures Begin() == nodes[0] && listAnchor in Cycle() && Begin() in Cycle() && Begin().next in Cycle()
      ensures forall x :: x in Cycle() && x != nodes[0] ==> x in [listAnchor] + nodes[1..]
    {
      assert LinkedAt(Cycle(), 0) && LinkedAt(Cycle(), 1) && Cycle()[0] == listAnchor && Cycle()[1] == nodes[0];
    }

    lemma AnchorAlone()
      requires Valid() && nodes == []
      ensures Alone(listAnchor)
    {
      assert LinkedAt(Cycle(), 0);
    }

    /** `clear`: the anchor forgets its nodes, but the nodes keep their links, to the anchor as well. */
    method Clear()
      requires Valid()
      modifies this, listAnchor
      ensures Valid() && nodes == []
      ensures Orphans(old(Cycle())) && forall x :: x in old(nodes) ==> x.IsLinked()
    {
      ghost var c := Cycle();
      assert c[0] == listAnchor;
      listAnchor.Init();
      nodes := [];
      forall i | 1 <= i < |c| ensures LinkedAt(c, i) {
        assert old(LinkedAt(c, i)) && c[i] != c[0];
      }
      AloneIsRing(listAnchor);
      OrphansAreLinked(c);
    }

    /**
     A former element takes itself out, as its destructor does, while the list holds other elements or none.  The list
     survives that exactly if the element was neither the first nor the last, or the only one and the list is empty.
     */
    method UnchainFormer(x: Node, ghost former: seq<Node>, ghost i: nat)
      requires Valid() && Orphans([listAnchor] + former) && i < |former| && x == former[i]
      requires forall y :: y in former ==> y !in nodes
      modifies x, x.next, x.prev
      ensures Alone(x) && Orphans([listAnchor] + former[..i] + former[i + 1..])
      ensures Valid() <==> 0 < i < |former| - 1 || (|former| == 1 && nodes == [])
    {
      ghost var c, f := Cycle(), [listAnchor] + former;
      ghost var k := i + 1;
      assert f[0] == listAnchor && f[k] == x && LinkedAt(f, k) && LinkedAt(c, 0);
      assert x.prev == f[i] && x.next == f[Succ(k, |f|)];
      x.Unchain([], 0);
      forall j | 1 <= j < |f| && j != k ensures SkipsAt(f, k, j) {
        assert old(LinkedAt(f, j));
      }
      OrphansWithout(f, k);
      if 0 < i < |former| - 1 {
        assert f[i] !in c && f[k] !in c && f[k + 1] !in c;
        assert Ring(c);
      } else if |former| == 1 {
        AnchorAloneIff(c);
      } else if i == 0 {
        assert listAnchor.next == f[2] && f[2] !in c;
        StaysInside(c);
      } else {
        assert listAnchor.prev == f[i] && f[i] !in c;
        StaysInside(c);
      }
      assert Without(f, i + 1) == [listAnchor] + former[..i] + former[i + 1..];
    }
  }

  /** Two elements, a `clear`, and the destructor of the first: the list ends up neither empty nor in order. */
  method DestroyedAfterClear() returns (l: EList)
    ensures fresh(l) && l.nodes == [] && !l.Valid()
  {
    hide Distinct, Broken;
    l := new EList();
    var x := new Node();
    var y := new Node();
    assert LinkedAt(l.Cycle(), 0);
    l.PushBack(x);
    assert LinkedAt(l.Cycle(), 0) && l.Cycle()[1] == x;
    l.PushBack(y);
    ghost var former := [x, y];
    assert l.Cycle() == [l.listAnchor] + former;
    l.Clear();
    assert LinkedAt([l.listAnchor] + former, 1);
    l.UnchainFormer(x, former, 0);
  }
}
