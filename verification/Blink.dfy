/** The list of blinking characters: linked records in a pool of slots, a record being free when
    its location is zero, and the countdown that switches each character on and off. */
module Blink {
  import opened Division
  import opened Options
  import opened Sequences
  import Runs

  type word = x: int | 0 <= x < 0x1_0000

  /** One record per screen cell. */
  const POOL_SIZE: nat := 80 * 25

  datatype Node = Node(
    location: word,
    onChar: char,
    offChar: char,
    onLength: word,
    offLength: word,
    countdown: word,
    status: word,
    next: Option<nat>)

  const CLEARED: Node := Node(0, '\0', '\0', 0, 0, 0, 0, None)

  datatype State = State(pool: seq<Node>, head: Option<nat>)

  // ----- The list -----

  /** All entries of l are slots of a pool of n. */
  predicate InPool(l: seq<nat>, n: nat) {
    forall i :: 0 <= i < |l| ==> l[i] < n
  }

  /** The slots met by following next links, at most n of them. */
  function Walk(pool: seq<Node>, from: Option<nat>, n: nat): (l: seq<nat>)
    ensures InPool(l, |pool|)
    decreases n
  {
    if n == 0 || from.None? || from.value >= |pool| then []
    else [from.value] + Walk(pool, pool[from.value].next, n - 1)
  }

  /** The list from its head, most recently added first. */
  function ListOf(s: State): (l: seq<nat>)
    ensures InPool(l, |s.pool|)
  {
    Walk(s.pool, s.head, |s.pool|)
  }

  ghost predicate LinkOk(pool: seq<Node>, l: seq<nat>, i: nat)
    requires i < |l|
  {
    l[i] < |pool| && pool[l[i]].next == (if i + 1 < |l| then Some(l[i + 1]) else None)
  }

  /** The list l is threaded through the next links from the head and ends in no link. */
  ghost predicate Threaded(pool: seq<Node>, head: Option<nat>, l: seq<nat>) {
    && head == (if l == [] then None else Some(l[0]))
    && forall i :: 0 <= i < |l| ==> LinkOk(pool, l, i)
  }

  /** A slot is on the list exactly when it has a location. */
  ghost predicate MemberOk(pool: seq<Node>, l: seq<nat>, p: nat)
    requires p < |pool|
  {
    p in l <==> pool[p].location != 0
  }

  ghost predicate InvWith(s: State, l: seq<nat>) {
    && |s.pool| == POOL_SIZE
    && Threaded(s.pool, s.head, l)
    && Distinct(l)
    && forall p :: 0 <= p < POOL_SIZE ==> MemberOk(s.pool, l, p)
  }

  /** The list is acyclic and its members are exactly the slots with a location. */
  ghost predicate Inv(s: State) {
    InvWith(s, ListOf(s))
  }

  lemma {:induction false} WalkIsThreaded(pool: seq<Node>, head: Option<nat>, l: seq<nat>, i: nat, n: nat)
    requires Threaded(pool, head, l) && i <= |l| <= i + n
    ensures Walk(pool, if i < |l| then Some(l[i]) else None, n) == l[i..]
    decreases n
  {
    if i < |l| {
      assert LinkOk(pool, l, i);
      WalkIsThreaded(pool, head, l, i + 1, n - 1);
    }
  }

  /** Only one sequence of slots can be the list. */
  lemma ListIs(s: State, l: seq<nat>)
    requires InvWith(s, l)
    ensures ListOf(s) == l
  {
    forall p | p in l ensures p < POOL_SIZE {
      var i :| 0 <= i < |l| && l[i] == p;
      assert LinkOk(s.pool, l, i);
    }
    DistinctFits(l, POOL_SIZE);
    WalkIsThreaded(s.pool, s.head, l, 0, POOL_SIZE);
  }

  // ----- Steps -----

  function FirstFree(pool: seq<Node>): (i: nat)
    ensures i <= |pool|
    ensures forall j :: 0 <= j < i ==> pool[j].location != 0
    ensures i < |pool| ==> pool[i].location == 0
  {
    FirstWhere(pool, (n: Node) => n.location == 0)
  }

  /** Adding fails on a location off the screen and when no slot is free. */
  predicate AddFails(s: State, req: Node) {
    req.location >= POOL_SIZE || FirstFree(s.pool) == |s.pool|
  }

  function Added(s: State, req: Node): Node {
    req.(status := 1, countdown := req.onLength, next := s.head)
  }

  function Add(s: State, req: Node): State {
    var slot := FirstFree(s.pool);
    if AddFails(s, req) then s
    else State(s.pool[slot := Added(s, req)], Some(slot))
  }

  /** The position in l of the first record at a location, or the length of l. */
  function Find(pool: seq<Node>, l: seq<nat>, location: word): (k: nat)
    requires InPool(l, |pool|)
    ensures k <= |l|
    ensures forall j :: 0 <= j < k ==> pool[l[j]].location != location
    ensures k < |l| ==> pool[l[k]].location == location
  {
    if l == [] || pool[l[0]].location == location then 0 else Find(pool, l[1..], location) + 1
  }

  /** Unlink the k-th record of the list and clear it. */
  function Unlink(s: State, l: seq<nat>, k: nat): State
    requires k < |l| && InPool(l, |s.pool|)
  {
    var next := s.pool[l[k]].next;
    if k == 0 then State(s.pool[l[0] := CLEARED], next)
    else
      var prev := s.pool[l[k - 1]].(next := next);
      State(s.pool[l[k - 1] := prev][l[k] := CLEARED], s.head)
  }

  function Remove(s: State, location: word): State
  {
    var l := ListOf(s);
    var k := Find(s.pool, l, location);
    if k == |l| then s else Unlink(s, l, k)
  }

  /** One tick of a record: a 16-bit countdown, compared with zero as a signed number. */
  function TickNode(n: Node): Node {
    var c: word := if n.countdown == 0 then 0xFFFF else n.countdown - 1;
    if 0 < c < 0x8000 then n.(countdown := c)
    else if n.status % 2 == 1 then n.(countdown := n.offLength, status := n.status - 1)
    else n.(countdown := n.onLength, status := n.status + 1)
  }

  function Tick(s: State): State
  {
    var l := ListOf(s);
    s.(pool := seq(|s.pool|, i requires 0 <= i < |s.pool| => if i in l then TickNode(s.pool[i]) else s.pool[i]))
  }

  // ----- What each step does to the list -----

  /** A successful add puts one record in front, switched on with its countdown at the full on length, and
      keeps the invariant exactly when its location is not zero: a record at location zero is on the list while
      its slot counts as free. */
  lemma AddKeeps(s: State, req: Node)
    requires Inv(s)
    ensures AddFails(s, req) <==>
      req.location >= 2000 || forall p :: 0 <= p < 2000 ==> p in ListOf(s)
    ensures AddFails(s, req) ==> Add(s, req) == s
    ensures !AddFails(s, req) ==> (Inv(Add(s, req)) <==> req.location != 0)
    ensures !AddFails(s, req) && req.location != 0 ==>
      var slot := FirstFree(s.pool);
      && slot !in ListOf(s)
      && ListOf(Add(s, req)) == [slot] + ListOf(s)
      && Add(s, req).pool == s.pool[slot :=
           Node(req.location, req.onChar, req.offChar, req.onLength, req.offLength, req.onLength, 1, s.head)]
  {
    PoolFull(s);
    if !AddFails(s, req) {
      if req.location != 0 {
        AddThreads(s, req, ListOf(s));
        ListIs(Add(s, req), [FirstFree(s.pool)] + ListOf(s));
      } else {
        LocationZeroIsListed(s, req);
      }
    }
  }

  /** The pool is full when all slots are on the list. */
  lemma PoolFull(s: State)
    requires Inv(s)
    ensures FirstFree(s.pool) == POOL_SIZE <==> forall p :: 0 <= p < POOL_SIZE ==> p in ListOf(s)
    ensures FirstFree(s.pool) < POOL_SIZE ==> FirstFree(s.pool) !in ListOf(s)
  {
    var slot := FirstFree(s.pool);
    if slot < POOL_SIZE {
      assert MemberOk(s.pool, ListOf(s), slot);
    } else {
      forall p | 0 <= p < POOL_SIZE ensures p in ListOf(s) {
        assert MemberOk(s.pool, ListOf(s), p);
      }
    }
  }

  lemma LocationZeroIsListed(s: State, req: Node)
    requires Inv(s) && !AddFails(s, req) && req.location == 0
    ensures !Inv(Add(s, req))
  {
    var s', slot := Add(s, req), FirstFree(s.pool);
    assert ListOf(s')[0] == slot;
    assert slot in ListOf(s') && s'.pool[slot].location == 0;
    assert !MemberOk(s'.pool, ListOf(s'), slot);
  }

  lemma AddThreads(s: State, req: Node, l: seq<nat>)
    requires InvWith(s, l) && !AddFails(s, req) && req.location != 0
    ensures InvWith(Add(s, req), [FirstFree(s.pool)] + l)
  {
    var s', slot := Add(s, req), FirstFree(s.pool);
    var l' := [slot] + l;
    assert MemberOk(s.pool, l, slot);
    forall i | 0 <= i < |l'| ensures LinkOk(s'.pool, l', i) {
      if i > 0 { assert LinkOk(s.pool, l, i - 1); }
    }
    forall p | 0 <= p < POOL_SIZE ensures MemberOk(s'.pool, l', p) {
      assert MemberOk(s.pool, l, p);
    }
  }

  /** A remove fails exactly when no record is at the location. Otherwise it takes out the most
      recently added such record, keeps the order and the data of the rest, and frees the slot. */
  lemma RemoveKeeps(s: State, location: word)
    requires Inv(s)
    ensures Inv(Remove(s, location))
    ensures var l := ListOf(s);
      if forall p :: p in l ==> s.pool[p].location != location then Remove(s, location) == s
      else exists k :: TakenOut(s, Remove(s, location), location, k)
  {
    var l := ListOf(s);
    var k := Find(s.pool, l, location);
    if k < |l| {
      assert s.pool[l[k]].location == location && l[k] in l;
      RemoveFound(s, location, k);
    }
  }

  lemma RemoveFound(s: State, location: word, k: nat)
    requires Inv(s) && k == Find(s.pool, ListOf(s), location) < |ListOf(s)|
    ensures Inv(Remove(s, location)) && TakenOut(s, Remove(s, location), location, k)
  {
    var l := ListOf(s);
    UnlinkKeeps(s, l, k);
    UnlinkTouches(s, l, k);
    ListIs(Unlink(s, l, k), l[..k] + l[k + 1..]);
  }

  /** Unlinking clears one record and changes at most links in the others. */
  lemma UnlinkTouches(s: State, l: seq<nat>, k: nat)
    requires InPool(l, |s.pool|) && Distinct(l) && k < |l|
    ensures var s' := Unlink(s, l, k);
      && |s'.pool| == |s.pool| && s'.pool[l[k]] == CLEARED
      && forall p :: 0 <= p < |s.pool| && p != l[k] ==> s'.pool[p] == s.pool[p].(next := s'.pool[p].next)
  {
  }

  /** Unlinking position k leaves the rest of the list threaded in order. */
  lemma UnlinkKeeps(s: State, l: seq<nat>, k: nat)
    requires InvWith(s, l) && k < |l| && InPool(l, |s.pool|)
    ensures InvWith(Unlink(s, l, k), l[..k] + l[k + 1..])
  {
    var s' := Unlink(s, l, k);
    var l' := l[..k] + l[k + 1..];
    assert LinkOk(s.pool, l, k);
    if k > 0 { assert LinkOk(s.pool, l, k - 1); }
    forall i | 0 <= i < |l'| ensures LinkOk(s'.pool, l', i) {
      assert LinkOk(s.pool, l, if i < k then i else i + 1);
    }
    forall p | 0 <= p < POOL_SIZE ensures MemberOk(s'.pool, l', p) {
      assert MemberOk(s.pool, l, p);
      if p in l {
        var i :| 0 <= i < |l| && l[i] == p;
        if i < k { assert l'[i] == p; } else if i > k { assert l'[i - 1] == p; }
      }
    }
  }

  /** Position k of the list, the first at the location, has been taken out. */
  ghost predicate TakenOut(s: State, s': State, location: word, k: nat) {
    var l := ListOf(s);
    && k < |l|
    && |s'.pool| == |s.pool|
    && s.pool[l[k]].location == location
    && (forall j :: 0 <= j < k ==> s.pool[l[j]].location != location)
    && ListOf(s') == l[..k] + l[k + 1..]
    && s'.pool[l[k]] == Node(0, '\0', '\0', 0, 0, 0, 0, None)
    && (forall p :: 0 <= p < |s.pool| && p != l[k] ==> s'.pool[p] == s.pool[p].(next := s'.pool[p].next))
  }

  /** A tick touches listed records only, and of these nothing but the countdown and the status. */
  lemma TickTouches(s: State, p: nat)
    requires p < |s.pool|
    ensures Tick(s).head == s.head && |Tick(s).pool| == |s.pool|
    ensures var n, n' := s.pool[p], Tick(s).pool[p];
      n' == n.(countdown := n'.countdown, status := n'.status) && (p !in ListOf(s) ==> n' == n)
  {
  }

  /** A tick steps every record on the list and nothing else, and moves no link. */
  lemma TickKeeps(s: State)
    requires Inv(s)
    ensures Inv(Tick(s)) && ListOf(Tick(s)) == ListOf(s)
    ensures forall p :: p in ListOf(s) ==> p < POOL_SIZE && Tick(s).pool[p] == TickNode(s.pool[p])
  {
    var l := ListOf(s);
    forall i | 0 <= i < |l| ensures LinkOk(Tick(s).pool, l, i) {
      assert LinkOk(s.pool, l, i);
    }
    forall p | 0 <= p < POOL_SIZE ensures MemberOk(Tick(s).pool, l, p) {
      assert MemberOk(s.pool, l, p);
    }
    ListIs(Tick(s), l);
  }

  // ----- Runs -----

  datatype Event = AddCall(req: Node) | RemoveCall(location: word) | RtcTick

  function Step(s: State, ev: Event): State
  {
    match ev
    case AddCall(req) => Add(s, req)
    case RemoveCall(location) => Remove(s, location)
    case RtcTick => Tick(s)
  }

  /** The event makes its step, and adds nothing at location zero. */
  ghost predicate Next(s: State, ev: Event, s': State) {
    (ev.AddCall? ==> ev.req.location != 0) && s' == Step(s, ev)
  }

  ghost predicate Stepped(ss: seq<State>, evs: seq<Event>, i: nat)
    requires i < |evs| && |ss| == |evs| + 1
  {
    Runs.Stepped(Next, ss, evs, i)
  }

  ghost predicate IsRun(ss: seq<State>, evs: seq<Event>) {
    Runs.IsRun(Next, ss, evs)
  }

  lemma StepKeeps(s: State, ev: Event)
    requires Inv(s) && (ev.AddCall? ==> ev.req.location != 0)
    ensures Inv(Step(s, ev))
  {
    match ev
    case AddCall(req) => AddKeeps(s, req);
    case RemoveCall(location) => RemoveKeeps(s, location);
    case RtcTick => TickKeeps(s);
  }

  /** The empty list over a cleared pool satisfies the invariant. */
  lemma EmptyInv(s: State)
    requires s.head == None && |s.pool| == POOL_SIZE
    requires forall p :: 0 <= p < POOL_SIZE ==> s.pool[p] == CLEARED
    ensures Inv(s) && ListOf(s) == []
  {
    ListIs(s, []);
  }

  /** On every run the list stays acyclic and its members are exactly the slots with a location. */
  lemma {:induction false} RunKeepsInv(ss: seq<State>, evs: seq<Event>, i: nat)
    requires IsRun(ss, evs) && Inv(ss[0]) && i < |ss|
    ensures Inv(ss[i])
  {
    if i > 0 {
      RunKeepsInv(ss, evs, i - 1);
      RunStep(ss, evs, i - 1);
    }
  }

  lemma RunStep(ss: seq<State>, evs: seq<Event>, i: nat)
    requires IsRun(ss, evs) && i < |evs| && Inv(ss[i])
    ensures Inv(ss[i + 1])
  {
    assert Stepped(ss, evs, i);
    StepKeeps(ss[i], evs[i]);
  }

  // ----- Timing -----

  /** How many ticks a countdown lasts. Zero, and anything the signed comparison takes for
      negative after the first decrement, lasts a single tick. */
  function Lasting(c: word): (n: int)
    ensures n > 0
    ensures n == c <==> 1 <= c <= 0x8000
  {
    if 1 <= c <= 0x8000 then c else 1
  }

  /** Record n is at place r of its cycle: first the on part, then the off part. */
  ghost predicate InPhase(n: Node, on: word, off: word, r: int) {
    var a, b := Lasting(on), Lasting(off);
    && 0 <= r < a + b
    && n.onLength == on && n.offLength == off
    && (r < a ==> n.status == 1 && Lasting(n.countdown) == a - r)
    && (r >= a ==> n.status == 0 && Lasting(n.countdown) == a + b - r)
  }

  /** The number of ticks among the first k events. */
  ghost function Ticks(evs: seq<Event>, k: nat): nat
    requires k <= |evs|
  {
    if k == 0 then 0 else Ticks(evs, k - 1) + if evs[k - 1].RtcTick? then 1 else 0
  }

  /** One tick moves a record one place along its cycle. */
  lemma PhaseStep(n: Node, on: word, off: word, r: int)
    requires InPhase(n, on, off, r)
    ensures InPhase(TickNode(n), on, off, if r + 1 == Lasting(on) + Lasting(off) then 0 else r + 1)
  {
  }

  lemma RemoveLeaves(s: State, location: word, p: nat)
    requires Inv(s) && p < POOL_SIZE && s.pool[p].location != location
    ensures |Remove(s, location).pool| == POOL_SIZE
    ensures Remove(s, location).pool[p] == s.pool[p].(next := Remove(s, location).pool[p].next)
  {
    var l := ListOf(s);
    var k := Find(s.pool, l, location);
    if k < |l| { UnlinkTouches(s, l, k); }
  }

  /** A step that does not remove at its location leaves a listed record alone but for its link,
      and a tick steps it. */
  lemma RecordStep(s: State, ev: Event, p: nat)
    requires Inv(s) && p < POOL_SIZE && s.pool[p].location != 0
    requires (ev.AddCall? ==> ev.req.location != 0) && !(ev.RemoveCall? && ev.location == s.pool[p].location)
    ensures p < |Step(s, ev).pool| && NodeStep(s.pool[p], ev, Step(s, ev).pool[p])
  {
    match ev
    case AddCall(req) =>
    case RemoveCall(other) => RemoveLeaves(s, other, p);
    case RtcTick => assert MemberOk(s.pool, ListOf(s), p);
  }

  /** What one event makes of a record that it does not remove, its link aside. */
  ghost predicate NodeStep(n: Node, ev: Event, n': Node) {
    n' == (if ev.RtcTick? then TickNode(n) else n).(next := n'.next)
  }

  /** The history of a record over the first k events. */
  ghost predicate NodeRun(ns: seq<Node>, evs: seq<Event>, k: nat) {
    |ns| == k + 1 && k <= |evs| && forall i :: 0 <= i < k ==> NodeStep(ns[i], evs[i], ns[i + 1])
  }

  /** A record that starts a cycle is, ticks later, at the place that many ticks into the cycle. */
  lemma {:induction false} PhaseRun(ns: seq<Node>, evs: seq<Event>, on: word, off: word, k: nat)
    requires NodeRun(ns, evs, k) && InPhase(ns[0], on, off, 0)
    ensures InPhase(ns[k], on, off, Remainder(Ticks(evs, k), Lasting(on) + Lasting(off)))
  {
    if k > 0 {
      var m := Lasting(on) + Lasting(off);
      PhaseRun(ns[..k], evs, on, off, k - 1);
      assert NodeStep(ns[k - 1], evs[k - 1], ns[k]);
      PhaseStep(ns[k - 1], on, off, Remainder(Ticks(evs, k - 1), m));
      RemainderStep(Ticks(evs, k - 1), m);
    }
  }

  /** None of the first k events removes at the location. */
  ghost predicate Undisturbed(evs: seq<Event>, location: word, k: nat)
    requires k <= |evs|
  {
    forall i :: 0 <= i < k ==> !(evs[i].RemoveCall? && evs[i].location == location)
  }

  /** The records that slot p holds along a run. */
  ghost function History(ss: seq<State>, p: nat, k: nat): seq<Node>
    requires k < |ss| && forall i :: 0 <= i <= k ==> p < |ss[i].pool|
  {
    seq(k + 1, i requires 0 <= i <= k => ss[i].pool[p])
  }

  /** The list is in order and slot p holds a record at this location. */
  ghost predicate Listed(s: State, p: nat, location: word) {
    Inv(s) && HoldsAt(s, p, location)
  }

  lemma {:induction false} RecordStays(ss: seq<State>, evs: seq<Event>, p: nat, location: word, k: nat)
    requires IsRun(ss, evs) && k <= |evs| && location != 0
    requires p < POOL_SIZE && Listed(ss[0], p, location) && Undisturbed(evs, location, k)
    ensures Listed(ss[k], p, location)
  {
    if k > 0 {
      RecordStays(ss, evs, p, location, k - 1);
      RecordNext(ss, evs, p, location, k);
    }
  }

  /** The record of slot p is at this location. */
  ghost predicate HoldsAt(s: State, p: nat, location: word) {
    p < |s.pool| && s.pool[p].location == location
  }

  lemma RecordRun(ss: seq<State>, evs: seq<Event>, p: nat, location: word, k: nat)
    requires IsRun(ss, evs) && k <= |evs| && location != 0
    requires p < POOL_SIZE && Listed(ss[0], p, location) && Undisturbed(evs, location, k)
    ensures forall i :: 0 <= i <= k ==> p < |ss[i].pool|
    ensures NodeRun(History(ss, p, k), evs, k)
    ensures ss[k].pool[p].location == location
  {
    forall i | 0 <= i <= k ensures p < |ss[i].pool| {
      RecordStays(ss, evs, p, location, i);
    }
    forall i | 0 <= i < k ensures NodeStep(ss[i].pool[p], evs[i], ss[i + 1].pool[p]) {
      RecordStays(ss, evs, p, location, i);
      RecordNext(ss, evs, p, location, i + 1);
    }
    RecordStays(ss, evs, p, location, k);
  }

  lemma RecordNext(ss: seq<State>, evs: seq<Event>, p: nat, location: word, k: nat)
    requires IsRun(ss, evs) && 0 < k <= |evs| && p < POOL_SIZE && location != 0
    requires Listed(ss[k - 1], p, location) && Undisturbed(evs, location, k)
    ensures Listed(ss[k], p, location)
    ensures NodeStep(ss[k - 1].pool[p], evs[k - 1], ss[k].pool[p])
  {
    RunStep(ss, evs, k - 1);
    assert Stepped(ss, evs, k - 1);
    RecordStep(ss[k - 1], evs[k - 1], p);
  }

  /** Whether a record with these lengths is on at a tick of its schedule. */
  predicate OnAt(tick: nat, on: word, off: word) {
    Remainder(tick, Lasting(on) + Lasting(off)) < Lasting(on)
  }

  /** For lengths that the signed countdown can hold, this is the plain remainder. */
  lemma OnAtByRemainder(tick: nat, on: word, off: word)
    requires 1 <= on <= 0x8000 && 1 <= off <= 0x8000
    ensures OnAt(tick, on, off) <==> tick % (on + off) < on
  {
    DivisionAgrees(tick, Lasting(on) + Lasting(off));
  }

  /** A run in which record n has just been put in slot p by an add, and is not removed by the first k events. */
  ghost predicate UndisturbedFrom(ss: seq<State>, evs: seq<Event>, p: nat, n: Node, k: nat) {
    && IsRun(ss, evs) && k <= |evs| && p < POOL_SIZE && Listed(ss[0], p, n.location) && ss[0].pool[p] == n
    && n.location != 0 && n.status == 1 && n.countdown == n.onLength
    && Undisturbed(evs, n.location, k)
  }

  /** A run that starts with a successful add of this record, which is not removed up to event k. */
  ghost predicate AddedAndKept(ss: seq<State>, evs: seq<Event>, req: Node, k: nat) {
    && IsRun(ss, evs) && 1 <= k <= |evs| && Inv(ss[0])
    && evs[0] == AddCall(req) && !AddFails(ss[0], req)
    && Undisturbed(evs, req.location, k)
  }

  lemma {:induction false} TicksOfTail(evs: seq<Event>, k: nat)
    requires 1 <= k <= |evs| && !evs[0].RtcTick?
    ensures Ticks(evs[1..], k - 1) == Ticks(evs, k)
  {
    if k > 1 { TicksOfTail(evs, k - 1); }
  }

  /** After the add the record starts its schedule. */
  lemma AddStartsSchedule(ss: seq<State>, evs: seq<Event>, req: Node, k: nat) returns (p: nat, n: Node)
    requires AddedAndKept(ss, evs, req, k)
    ensures p == FirstFree(ss[0].pool)
    ensures n == Node(req.location, req.onChar, req.offChar, req.onLength, req.offLength, req.onLength, 1, ss[0].head)
    ensures UndisturbedFrom(ss[1..], evs[1..], p, n, k - 1)
  {
    assert Stepped(ss, evs, 0);
    AddKeeps(ss[0], req);
    Runs.TailRuns(Next, ss, evs, 1);
    p, n := FirstFree(ss[0].pool), ss[1].pool[FirstFree(ss[0].pool)];
    forall i | 0 <= i < k - 1
      ensures !(evs[1..][i].RemoveCall? && evs[1..][i].location == n.location)
    {
      assert evs[1..][i] == evs[i + 1];
    }
  }

  lemma StaysListed(ss: seq<State>, evs: seq<Event>, p: nat, n: Node, k: nat)
    requires UndisturbedFrom(ss, evs, p, n, k)
    ensures Listed(ss[k], p, n.location) && p in ListOf(ss[k])
  {
    RecordStays(ss, evs, p, n.location, k);
    assert MemberOk(ss[k].pool, ListOf(ss[k]), p);
  }

  lemma StatusOnSchedule(ss: seq<State>, evs: seq<Event>, p: nat, n: Node, k: nat)
    requires UndisturbedFrom(ss, evs, p, n, k)
    ensures p < |ss[k].pool|
    ensures ss[k].pool[p].status == if OnAt(Ticks(evs, k), n.onLength, n.offLength) then 1 else 0
  {
    RecordRun(ss, evs, p, n.location, k);
    HistoryOnSchedule(History(ss, p, k), evs, n, k);
  }

  lemma HistoryOnSchedule(ns: seq<Node>, evs: seq<Event>, n: Node, k: nat)
    requires NodeRun(ns, evs, k) && ns[0] == n && n.status == 1 && n.countdown == n.onLength
    ensures ns[k].status == if OnAt(Ticks(evs, k), n.onLength, n.offLength) then 1 else 0
  {
    assert InPhase(n, n.onLength, n.offLength, 0);
    PhaseRun(ns, evs, n.onLength, n.offLength, k);
  }

  lemma {:induction false} HistoryKeeps(ns: seq<Node>, evs: seq<Event>, k: nat)
    requires NodeRun(ns, evs, k)
    ensures ns[k] == ns[0].(countdown := ns[k].countdown, status := ns[k].status, next := ns[k].next)
  {
    if k > 0 {
      HistoryKeeps(ns[..k], evs, k - 1);
      assert NodeStep(ns[k - 1], evs[k - 1], ns[k]);
    }
  }

  /** Slot p holds the record as it was asked for, switched on or off. */
  predicate Blinks(s: State, p: nat, req: Node, on: bool) {
    && p < |s.pool|
    && var n := s.pool[p];
       && n.location == req.location && n.onChar == req.onChar && n.offChar == req.offChar
       && n.onLength == req.onLength && n.offLength == req.offLength
       && n.status == if on then 1 else 0
  }

  /** A record that is added and not removed stays on the list with its characters and lengths, and it is on
      during the first part of every cycle from the add on and off during the second, whatever else is added,
      removed or ticked. The two parts last for the record's two effective lengths, for all 16-bit lengths. */
  lemma BlinksOnSchedule(ss: seq<State>, evs: seq<Event>, req: Node, k: nat)
    requires AddedAndKept(ss, evs, req, k)
    ensures var p := FirstFree(ss[0].pool);
      && Inv(ss[k]) && p in ListOf(ss[k])
      && Blinks(ss[k], p, req, OnAt(Ticks(evs, k), req.onLength, req.offLength))
  {
    var p, n := AddStartsSchedule(ss, evs, req, k);
    StaysListed(ss[1..], evs[1..], p, n, k - 1);
    StatusOnSchedule(ss[1..], evs[1..], p, n, k - 1);
    RecordRun(ss[1..], evs[1..], p, n.location, k - 1);
    HistoryKeeps(History(ss[1..], p, k - 1), evs[1..], k - 1);
    TicksOfTail(evs, k);
  }

  /** The schedule of a record whose lengths the signed countdown can hold. */
  lemma BlinksByRemainder(ss: seq<State>, evs: seq<Event>, req: Node, k: nat)
    requires AddedAndKept(ss, evs, req, k)
    requires 1 <= req.onLength <= 0x8000 && 1 <= req.offLength <= 0x8000
    ensures var p := FirstFree(ss[0].pool);
      Blinks(ss[k], p, req, Ticks(evs, k) % (req.onLength + req.offLength) < req.onLength)
  {
    BlinksOnSchedule(ss, evs, req, k);
    OnAtByRemainder(Ticks(evs, k), req.onLength, req.offLength);
  }

  /** The invariant does fail: adding at location zero to the empty list succeeds and breaks it. */
  lemma LocationZeroBreaks(req: Node)
    requires req.location == 0
    ensures var s := State(Repeat(CLEARED, POOL_SIZE), None);
      Inv(s) && ListOf(s) == [] && !AddFails(s, req) && !Inv(Add(s, req))
  {
    var s := State(Repeat(CLEARED, POOL_SIZE), None);
    EmptyInv(s);
    AddKeeps(s, req);
  }
}
