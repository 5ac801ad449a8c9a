/** The blink list on its own mutable pool, walked and relinked in place. Every method is proved to
    carry out the step of the same name in Blink. */
module BlinkCode {
  import opened Options
  import opened Sequences
  import opened Blink

  class BlinkList {
    const pool: array<Node>
    var head: Option<nat>

    ghost function Abs(): State
      reads this, pool
    {
      State(pool[..], head)
    }

    constructor ()
      ensures Inv(Abs()) && ListOf(Abs()) == []
      ensures fresh(pool)
    {
      pool := new Node[POOL_SIZE](_ => CLEARED);
      head := None;
      new;
      EmptyInv(Abs());
    }

    /** The first slot whose location is zero, or none. */
    method Malloc() returns (slot: Option<nat>)
      ensures slot == if FirstFree(pool[..]) == pool.Length then None else Some(FirstFree(pool[..]))
    {
      var i := 0;
      while i < pool.Length
        invariant 0 <= i <= pool.Length
        invariant forall j :: 0 <= j < i ==> pool[j].location != 0
      {
        if pool[i].location == 0 {
          FirstFreeIs(pool[..], i);
          return Some(i);
        }
        i := i + 1;
      }
      FirstFreeIs(pool[..], i);
      return None;
    }

    /** Clear a slot for reuse. */
    method Free(slot: nat)
      requires slot < pool.Length
      modifies pool
      ensures pool[..] == old(pool[..])[slot := CLEARED]
    {
      pool[slot] := CLEARED;
    }

    /** Walk the list to the first record at the location. */
    method FindHelper(location: word) returns (slot: Option<nat>)
      requires Inv(Abs())
      ensures var l := ListOf(Abs()); var k := Find(pool[..], l, location);
        slot == if k == |l| then None else Some(l[k])
    {
      ghost var l := ListOf(Abs());
      ghost var k := 0;
      slot := head;
      while slot.Some?
        invariant 0 <= k <= |l|
        invariant slot == (if k == |l| then None else Some(l[k]))
        invariant forall j :: 0 <= j < k ==> pool[l[j]].location != location
        decreases |l| - k
      {
        assert LinkOk(pool[..], l, k);
        if pool[slot.value].location == location {
          FindIs(pool[..], l, location, k);
          return slot;
        }
        slot := pool[slot.value].next;
        k := k + 1;
      }
      FindIs(pool[..], l, location, k);
    }

    /** Add a record in front of the list; false for the error code. */
    method IoctlAdd(req: Node) returns (ok: bool)
      requires Inv(Abs())
      modifies this, pool
      ensures Abs() == Add(old(Abs()), req)
      ensures ok <==> !AddFails(old(Abs()), req)
      ensures req.location != 0 ==> Inv(Abs())
    {
      ghost var before := Abs();
      AddKeeps(before, req);
      if req.location >= 80 * 25 {
        return false;
      }
      var node := req.(status := 1);
      node := node.(countdown := node.onLength);
      var slot := Malloc();
      if slot.None? {
        return false;
      }
      pool[slot.value] := node;
      pool[slot.value] := pool[slot.value].(next := head);
      head := slot;
      return true;
    }

    /** Walk the list to the record before position k, or to the head pointer itself. */
    method FindPrev(found: nat, ghost l: seq<nat>, ghost k: nat) returns (prev: Option<nat>)
      requires Threaded(pool[..], head, l) && Distinct(l) && k < |l| && found == l[k]
      ensures prev == if k == 0 then None else Some(l[k - 1])
    {
      prev := None;
      var cur := head;
      ghost var i := 0;
      while cur != Some(found)
        invariant 0 <= i <= k
        invariant cur == Some(l[i])
        invariant prev == if i == 0 then None else Some(l[i - 1])
        decreases k - i
      {
        assert LinkOk(pool[..], l, i);
        prev := cur;
        cur := pool[cur.value].next;
        i := i + 1;
      }
    }

    /** Relink around the record at position k and clear it. */
    method UnlinkSlot(found: nat, prev: Option<nat>, ghost l: seq<nat>, ghost k: nat)
      requires InPool(l, pool.Length) && k < |l| && found == l[k]
      requires prev == if k == 0 then None else Some(l[k - 1])
      modifies this, pool
      ensures Abs() == Unlink(old(Abs()), l, k)
    {
      var next := pool[found].next;
      if prev.None? {
        head := next;
      } else {
        pool[prev.value] := pool[prev.value].(next := next);
      }
      Free(found);
    }

    /** Take the first record at the location out of the list; false for the error code. */
    method IoctlRemove(location: word) returns (ok: bool)
      requires Inv(Abs())
      modifies this, pool
      ensures Abs() == Remove(old(Abs()), location)
      ensures ok <==> Find(old(pool[..]), old(ListOf(Abs())), location) < |old(ListOf(Abs()))|
      ensures Inv(Abs())
    {
      ghost var l := ListOf(Abs());
      ghost var k := Find(pool[..], l, location);
      RemoveKeeps(Abs(), location);
      var found := FindHelper(location);
      if found.None? {
        return false;
      }
      var prev := FindPrev(found.value, l, k);
      UnlinkSlot(found.value, prev, l, k);
      return true;
    }

    /** Count one record down, and switch it over when its time is up. */
    method TickSlot(slot: nat)
      requires slot < pool.Length
      modifies pool
      ensures pool[..] == old(pool[..])[slot := TickNode(old(pool[slot]))]
    {
      var n := pool[slot];
      var c: word := if n.countdown == 0 then 0xFFFF else n.countdown - 1;
      pool[slot] := pool[slot].(countdown := c);
      if 0 < c < 0x8000 {
        return;
      }
      if n.status % 2 == 1 {
        pool[slot] := pool[slot].(countdown := n.offLength, status := n.status - 1);
      } else {
        pool[slot] := pool[slot].(countdown := n.onLength, status := n.status + 1);
      }
    }

    /** Step the records of a threaded list one after the other. */
    method TickAll(ghost l: seq<nat>)
      requires Threaded(pool[..], head, l) && Distinct(l) && InPool(l, pool.Length)
      modifies pool
      ensures pool[..] == TickedTo(old(pool[..]), l, |l|)
    {
      ghost var before := pool[..];
      var cur := head;
      ghost var k := 0;
      while cur.Some?
        invariant 0 <= k <= |l|
        invariant cur == (if k == |l| then None else Some(l[k]))
        invariant pool[..] == TickedTo(before, l, k)
        decreases |l| - k
      {
        assert LinkOk(before, l, k);
        TickedAt(before, l, k);
        TickSlot(cur.value);
        cur := pool[cur.value].next;
        k := k + 1;
      }
    }

    /** Step every record on the list. */
    method RtcTasklet()
      requires Inv(Abs())
      modifies pool
      ensures Abs() == Tick(old(Abs()))
      ensures Inv(Abs())
    {
      TickKeeps(Abs());
      TickedAll(Abs(), |ListOf(Abs())|);
      TickAll(ListOf(Abs()));
    }
  }

  /** The pool once the first k records of the list have been stepped. */
  ghost function TickedTo(pool: seq<Node>, l: seq<nat>, k: nat): (r: seq<Node>)
    requires k <= |l| && InPool(l, |pool|)
    ensures |r| == |pool|
  {
    if k == 0 then pool
    else
      var done := TickedTo(pool, l, k - 1);
      done[l[k - 1] := TickNode(done[l[k - 1]])]
  }

  lemma {:induction false} TickedPointwise(pool: seq<Node>, l: seq<nat>, k: nat, p: nat)
    requires k <= |l| && InPool(l, |pool|) && Distinct(l) && p < |pool|
    ensures TickedTo(pool, l, k)[p] == if p in l[..k] then TickNode(pool[p]) else pool[p]
  {
    if k > 0 {
      TickedPointwise(pool, l, k - 1, p);
      assert l[..k] == l[..k - 1] + [l[k - 1]];
    }
  }

  /** The next record to be stepped is still as it was. */
  lemma TickedAt(pool: seq<Node>, l: seq<nat>, k: nat)
    requires k < |l| && InPool(l, |pool|) && Distinct(l)
    ensures TickedTo(pool, l, k)[l[k]] == pool[l[k]]
    ensures TickedTo(pool, l, k + 1) == TickedTo(pool, l, k)[l[k] := TickNode(pool[l[k]])]
  {
    TickedPointwise(pool, l, k, l[k]);
  }

  lemma TickedAll(s: State, n: nat)
    requires Inv(s) && n == |ListOf(s)|
    ensures TickedTo(s.pool, ListOf(s), n) == Tick(s).pool
  {
    var l := ListOf(s);
    assert l[..n] == l;
    forall p | 0 <= p < |s.pool| ensures TickedTo(s.pool, l, n)[p] == Tick(s).pool[p] {
      TickedPointwise(s.pool, l, n, p);
    }
  }

  /** A search that stops at the first free slot finds what FirstFree names. */
  lemma FirstFreeIs(pool: seq<Node>, i: nat)
    requires i <= |pool| && (forall j :: 0 <= j < i ==> pool[j].location != 0)
    requires i < |pool| ==> pool[i].location == 0
    ensures FirstFree(pool) == i
  {
  }

  lemma FindIs(pool: seq<Node>, l: seq<nat>, location: word, k: nat)
    requires InPool(l, |pool|) && k <= |l|
    requires forall j :: 0 <= j < k ==> pool[l[j]].location != location
    requires k < |l| ==> pool[l[k]].location == location
    ensures Find(pool, l, location) == k
  {
  }
}
