/** The ring queue of `estl.h`: `m` elements in a vector of `m + 1`, so that full and empty differ. */
module RingQueue {

  /** `i` brought back below `length`, as `next` does. */
  function Wrap(i: nat, length: nat): nat
    requires i < 2 * length
  {
    if i < length then i else i - length
  }

  /** The first elements of `s`, up to `m`. */
  function Capped<T>(s: seq<T>, m: nat): seq<T> {
    if |s| <= m then s else s[..m]
  }

  lemma CappedSteps<T>(s: seq<T>, x: seq<T>, m: nat)
    requires |s| <= m
    ensures |Capped(s, m)| <= m && Capped(s + [], m) == s
    ensures x != [] ==>
              var before := Capped(s + x[..|x| - 1], m);
              Capped(s + x, m) == if |before| < m then before + [x[|x| - 1]] else before
  {
    assert s + [] == s;
    if x != [] {
      assert s + x == (s + x[..|x| - 1]) + [x[|x| - 1]];
    }
  }

  /** A queue copied onto itself keeps its contents exactly if it was empty or full. */
  lemma SelfCopied<T>(s: seq<T>, c: seq<T>, m: nat)
    requires |s| <= m && c == Capped(s + c, m) && (s == [] ==> c == [])
    ensures c == s <==> s == [] || |s| == m
  {
    if |s| == m {
      assert Capped(s + c, m) == s;
    }
  }

  /** `eQueue<T, m>`; iterators are indices. */
  class Queue<T(0)> {
    const m: nat
    const vector: array<T>
    var itStart: nat
    var itFinish: nat
    var n: int

    constructor (m: nat)
      ensures Valid() && this.m == m && Contents() == [] && fresh(vector)
    {
      this.m := m;
      vector := new T[m + 1];
      itStart, itFinish, n := 0, 0, 0;
    }

    predicate Valid()
      reads this
    {
      && vector.Length == m + 1 && 0 <= n <= m && itStart <= m
      && itFinish == Wrap(itStart + n, m + 1)
    }

    function Contents(): (s: seq<T>)
      requires Valid()
      reads this, vector
      ensures |s| == n
    {
      if itStart + n <= m + 1 then vector[itStart..itStart + n]
      else vector[itStart..] + vector[..itStart + n - (m + 1)]
    }

    method Clear()
      requires Valid()
      modifies this
      ensures Valid() && Contents() == []
    {
      itStart, itFinish, n := 0, 0, 0;
    }

    function Next(x: nat): nat
      requires x <= m
    {
      if x + 1 >= m + 1 then 0 else x + 1
    }

    /** `push_back`: false, and no change, exactly when the queue is full. */
    method PushBack(x: T) returns (ok: bool)
      requires Valid()
      modifies this, vector
      ensures Valid() && ok == (|old(Contents())| < m) && itStart == old(itStart)
      ensures Contents() == if ok then old(Contents()) + [x] else old(Contents())
    {
      hide Contents;
      ghost var before, was := Contents(), vector[..];
      forall k: nat | k < n ensures before[k] == was[Wrap(itStart + k, m + 1)] {
        ElementAt(k);
      }
      ok := n < m;
      if ok {
        vector[itFinish] := x;
        itFinish := Next(itFinish);
        n := n + 1;
        forall k: nat | k < n ensures Contents()[k] == (before + [x])[k] {
          ElementAt(k);
        }
      } else {
        assert vector[..] == was;
      }
    }

    /** `pop_front`: an empty queue is not noticed, and ends with a count of -1. */
    method PopFront() returns (x: T)
      requires Valid()
      modifies this
      ensures old(n) > 0 ==> Valid() && [x] + Contents() == old(Contents())
      ensures old(n) == 0 ==> !Valid() && n == -1
    {
      x := vector[itStart];
      itStart := Next(itStart);
      n := n - 1;
    }

    function Front(): T
      requires Valid() && 0 < n
      reads this, vector
      ensures Front() == Contents()[0]
    {
      vector[itStart]
    }

    predicate Empty()
      requires Valid()
      reads this, vector
      ensures Empty() <==> Contents() == []
    {
      n <= 0
    }

    predicate Full()
      requires Valid()
      reads this, vector
      ensures Full() <==> |Contents()| == m
    {
      n >= m
    }

    /**
     `copy`: the walk over `x` visits its elements once each, in order, wrapped or not.  A queue may be copied
     onto itself; the elements it gains are then visited as well.
     */
    method Copy(x: Queue<T>) returns (ghost visited: seq<T>)
      requires Valid() && x.Valid() && (x == this || x.vector != vector) && x.m == m
      modifies this, vector
      ensures Valid() && x.Valid() && (x != this ==> x.Contents() == old(x.Contents()))
      ensures visited == x.Contents() && (x == this && old(n) == 0 ==> n == 0)
      ensures Contents() == Capped(old(Contents()) + x.Contents(), m)
    {
      hide Capped, Contents;
      visited := [];
      ghost var before, all := Contents(), x.Contents();
      assert all[..0] == [];
      CappedSteps(before, [], m);
      var i := x.itStart;
      while i != x.itFinish
        invariant Valid() && x.Valid() && (x != this ==> x.Contents() == all)
        invariant |visited| <= x.n && i == Wrap(x.itStart + |visited|, m + 1)
        invariant visited == x.Contents()[..|visited|] && (x == this && before == [] ==> n == 0)
        invariant Contents() == Capped(before + visited, m)
        decreases m - n, x.n - |visited|
      {
        ghost var e;
        i, e := CopyOne(x, i, |visited|);
        visited := visited + [e];
        CappedSteps(before, visited, m);
      }
      assert visited == x.Contents()[..x.n] == x.Contents();
    }

    /** One turn of the loop of `copy`, at element `k` of `x`. */
    method CopyOne(x: Queue<T>, i: nat, ghost k: nat) returns (next: nat, ghost e: T)
      requires Valid() && x.Valid() && (x == this || x.vector != vector) && x.m == m
      requires k < x.n && i == Wrap(x.itStart + k, m + 1)
      modifies this, vector
      ensures Valid() && x.Valid() && (x != this ==> x.Contents() == old(x.Contents()))
      ensures x.itStart == old(x.itStart) && next == Wrap(x.itStart + k + 1, m + 1)
      ensures k < |x.Contents()| && e == x.Contents()[k] && x.Contents()[..k] == old(x.Contents())[..k]
      ensures Contents() == if |old(Contents())| < m then old(Contents()) + [e] else old(Contents())
    {
      hide Contents;
      x.ElementAt(k);
      e := x.vector[i];
      ghost var seen := x.Contents();
      var _ := PushBack(x.vector[i]);
      assert seen <= x.Contents();
      next := x.Next(i);
    }

    /** Where element `k` is. */
    lemma ElementAt(k: nat)
      requires Valid() && k < n
      ensures Contents()[k] == vector[Wrap(itStart + k, m + 1)]
    {
    }

    /** `operator=` is `copy` without `clear`: the old contents stay, and stay first. */
    method Assign(x: Queue<T>)
      requires Valid() && x.Valid() && (x == this || x.vector != vector) && x.m == m
      modifies this, vector
      ensures Valid() && x.Valid() && (x != this ==> x.Contents() == old(x.Contents()))
      ensures Contents() == Capped(old(Contents()) + x.Contents(), m)
      ensures x == this ==> (Contents() == old(Contents()) <==> old(n) == 0 || old(n) == m)
    {
      ghost var before := Contents();
      var _ := Copy(x);
      if x == this {
        SelfCopied(before, Contents(), m);
      }
    }

    /** The copy constructor clears first. */
    constructor CopyOf(x: Queue<T>)
      requires x.Valid()
      ensures Valid() && fresh(vector) && m == x.m && Contents() == x.Contents()
    {
      m := x.m;
      vector := new T[x.m + 1];
      itStart, itFinish, n := 0, 0, 0;
      new;
      var _ := Copy(x);
    }
  }

  /**
   Assignment yields the contents assigned exactly when the target was empty, or when a full queue is assigned
   that starts with what the target held and goes on repeating it.
   */
  lemma AssignedIff<T>(s: seq<T>, x: seq<T>, m: nat)
    requires |s| <= m && |x| <= m
    ensures Capped(s + x, m) == x <==> s == [] || (|x| == m && s <= x && x[|s|..] == x[..m - |s|])
  {
    if s == [] {
      assert s + x == x;
    } else if |x| == m {
      assert (s + x)[..m] == s + x[..m - |s|];
      assert s <= x ==> x == s + x[|s|..];
    }
  }

  /** A queue of two that holds 1 and is assigned a queue that holds 2 ends up with both. */
  lemma AssignmentAppends()
    ensures Capped([1] + [2], 2) == [1, 2] != [2]
  {
    assert [1] + [2] == [1, 2];
  }
}
