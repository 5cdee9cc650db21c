/** The pool allocator of `estl.h`: slots of a fixed vector, and a stack of those that are free. */
module Pool {

  datatype Option<T> = None | Some(value: T)

  /** `ePool`.  A slot stands for its address; the `__link` of an object is its own slot, or null. */
  class Pool {
    const m: nat
    const stack: array<nat>
    var finish: nat
    const link: array<Option<nat>>
    /** The slots handed out and not yet given back. */
    ghost var live: set<nat>
    /** The slots in which an object has been constructed since the pool was set up. */
    ghost var constructed: set<nat>

    ghost predicate Valid()
      reads this, stack, link
    {
      && stack.Length == m && link.Length == m && finish <= m
      && (forall i :: 0 <= i < finish ==> stack[i] < m && stack[i] !in live)
      && (forall i, j :: 0 <= i < j < finish ==> stack[i] != stack[j])
      && (forall s :: 0 <= s < m && s !in live ==> s in stack[..finish])
      && |live| + finish == m
      && live <= constructed && (forall s :: s in constructed ==> s < m)
      && (forall s :: s in constructed ==> (link[s] == Some(s) <==> s in live))
    }

    /** Live and free slots are all the slots, and no slot is both, or free twice. */
    lemma Partition(s: nat, i: nat, j: nat)
      requires Valid()
      ensures s < m <==> s in live || s in stack[..finish]
      ensures !(s in live && s in stack[..finish])
      ensures i < j < finish ==> stack[i] != stack[j]
      ensures |live| == m <==> finish == 0
    {
      if s in stack[..finish] {
        var k :| 0 <= k < finish && stack[k] == s;
      }
    }

    /** The links of the slots may hold anything at first. */
    constructor (m: nat)
      ensures Valid() && this.m == m && live == {} && constructed == {} && fresh(stack) && fresh(link)
      ensures finish == m && forall s :: 0 <= s < m ==> stack[s] == s
    {
      this.m := m;
      stack := new nat[m];
      link := new Option<nat>[m];
      live, constructed, finish := {}, {}, 0;
      new;
      Init();
    }

    /** `init`: every slot on the stack. */
    method Init()
      requires stack.Length == m && link.Length == m && finish == 0
      modifies this`finish, this`live, this`constructed, stack
      ensures Valid() && live == {} && constructed == {}
      ensures finish == m && forall s :: 0 <= s < m ==> stack[s] == s
    {
      live, constructed := {}, {};
      for i := 0 to m
        invariant live == {} && constructed == {}
        invariant finish == i && forall s :: 0 <= s < i ==> stack[..][s] == s
      {
        Push(i);
      }
      forall s | 0 <= s < m ensures s in stack[..finish] && stack[s] == s {
        assert stack[..][s] == s && stack[..finish][s] == s;
      }
    }

    /** `eStack::push`: nothing happens at the limit. */
    method Push(item: nat)
      requires stack.Length == m && finish <= m
      modifies this`finish, stack
      ensures if old(finish) < m then finish == old(finish) + 1 && stack[..] == old(stack[..])[old(finish) := item]
              else finish == old(finish) && stack[..] == old(stack[..])
    {
      if finish < m {
        stack[finish] := item;
        finish := finish + 1;
      }
    }

    /** `clear`: the pool starts again; objects that are still live are forgotten. */
    method Clear()
      requires Valid()
      modifies this`finish, this`live, this`constructed, stack
      ensures Valid() && live == {} && constructed == {}
      ensures finish == m && forall s :: 0 <= s < m ==> stack[s] == s
    {
      finish := 0;
      Init();
    }

    /** `alloc`: null exactly when all slots are live; otherwise a slot that no live object has. */
    method Alloc() returns (r: Option<nat>)
      requires Valid()
      modifies this`finish, this`live, this`constructed, link
      ensures Valid()
      ensures r == None <==> |old(live)| == m
      ensures r == None <==> old(finish) == 0
      ensures r == None ==> live == old(live) && constructed == old(constructed)
      ensures r.Some? ==> r.value < m && r.value !in old(live) && live == old(live) + {r.value}
      ensures r.Some? ==> constructed == old(constructed) + {r.value}
      ensures r.Some? ==> finish == old(finish) - 1 && r.value == stack[finish] && link[r.value] == r
      ensures forall s :: 0 <= s < m && r != Some(s) ==> link[s] == old(link[s])
    {
      r := None;
      if finish != 0 {
        finish := finish - 1;
        var s := stack[finish];
        link[s] := Some(s);
        live, constructed := live + {s}, constructed + {s};
        r := Some(s);
        forall t | 0 <= t < m && t !in live
          ensures t in stack[..finish]
        {
          assert t in stack[..finish + 1];
        }
      }
    }

    /**
     `destroy`: the slot is free again; an object already destroyed stays destroyed, and nothing changes.  A slot
     in which nothing was constructed must not happen to hold its own address, unless all slots are free.
     */
    method Destroy(item: nat)
      requires Valid() && item < m
      modifies this`finish, this`live, stack, link
      ensures Valid() <==> item in old(live) || old(link[item]) != Some(item) || old(finish) == m
      ensures live == old(live) - {item}
      ensures item !in old(live) && item in constructed ==> old(link[item]) != Some(item)
      ensures old(link[item]) == Some(item) && old(finish) < m ==>
                finish == old(finish) + 1 && stack[..] == old(stack[..])[old(finish) := item]
      ensures item !in old(live) && old(link[item]) != Some(item) ==>
                finish == old(finish) && stack[..] == old(stack[..]) && link[..] == old(link[..])
    {
      if link[item] == Some(item) {
        ghost var free := stack[..finish];
        link[item] := None;
        live := live - {item};
        Push(item);
        if |free| == m {
          assert stack[..finish] == free;
        } else if item in old(live) {
          assert stack[..finish] == free + [item];
        } else {
          ghost var k :| 0 <= k < |free| && free[k] == item;
          assert stack[..][k] == item && stack[..][|free|] == item;
          assert !Valid() by {
            assert stack[k] == stack[|free|];
          }
        }
      }
    }
  }

  /** A pool of two is filled and cleared: slot `x`, no longer live, still holds its own address. */
  method ForgottenSlot() returns (p: Pool, x: nat)
    ensures fresh(p) && fresh(p.stack) && fresh(p.link) && p.Valid() && p.m == 2
    ensures x == 0 && p.live == {} && p.finish == 2 && p.stack[0] == 0 && p.stack[1] == 1 && p.link[0] == Some(0)
  {
    hide Pool.Valid;
    p := new Pool(2);
    var _ := p.Alloc();
    var b := p.Alloc();
    x := b.value;
    p.Clear();
  }

  /**
   One slot is handed out again.  Destroying the other one, by a pointer kept since before `clear`, puts it on the
   stack for the second time.
   */
  method DestroyAfterClear() returns (p: Pool, x: nat)
    ensures fresh(p) && p.m == 2 == p.finish && p.stack.Length == 2 && p.link.Length == 2
    ensures p.stack[0] == p.stack[1] == x && !p.Valid()
  {
    hide Pool.Valid;
    p, x := ForgottenSlot();
    var _ := p.Alloc();
    assert p.finish == 1 && x !in p.live;
    p.Destroy(x);
    assert p.stack[..][0] == x && p.stack[..][1] == x;
  }
}
