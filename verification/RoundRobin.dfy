/** The round-robin scheduler: what a timer tick does, and what runs of ticks guarantee. */
module RoundRobin {
  import opened Bytes

  const SLOT_COUNT: nat := 16
  const NO_PROCESS_RUNNING: uint32 := 0xFFFF_FFFF

  datatype ProcessState = NoProcess | Ready | Running | Blocked

  datatype Cpu = Cpu(edi: uint32, esi: uint32, ebp: uint32, esp: uint32,
                     ebx: uint32, edx: uint32, ecx: uint32, eax: uint32,
                     gs: uint32, fs: uint32, es: uint32, ds: uint32)

  /** What an interrupt finds in the processor, and what a context switch loads. */
  datatype Context = Context(cpu: Cpu, eip: uint32, eflags: uint32, pageDirectory: uint32)

  datatype Pcb = Pcb(pid: uint32, state: ProcessState, context: Context)

  type Occupied = s: seq<bool> | |s| == 16 witness [true, true, true, true, true, true, true, true,
                                                    true, true, true, true, true, true, true, true]
  type Slot = i: int | 0 <= i < 16

  datatype System = System(occupied: Occupied, pcbs: seq<Pcb>, current: uint32)

  // ---- the next slot ----

  /** The first occupied slot from `lo` up to `hi`, not included; `hi` if there is none. */
  function FirstOccupied(occ: Occupied, lo: nat, hi: nat): (i: nat)
    requires lo <= hi <= SLOT_COUNT
    ensures lo <= i <= hi && (i < hi ==> occ[i]) && forall j :: lo <= j < i ==> !occ[j]
    decreases hi - lo
  {
    if lo == hi || occ[lo] then lo else FirstOccupied(occ, lo + 1, hi)
  }

  function StartOf(current: uint32): Slot {
    if current == NO_PROCESS_RUNNING then 0 else current % SLOT_COUNT
  }

  /** The lowest occupied slot above the current one; failing that, the lowest of all. */
  function Next(occ: Occupied, current: uint32): (i: Slot) {
    var c := StartOf(current);
    var above := FirstOccupied(occ, c + 1, SLOT_COUNT);
    if above < SLOT_COUNT then above else
      var below := FirstOccupied(occ, 0, c + 1);
      if below <= c then below else 0
  }

  lemma NextOccupied(occ: Occupied, current: uint32, i: Slot)
    requires occ[i]
    ensures occ[Next(occ, current)]
  {
  }

  /**
   * With some slot occupied, the next one is the lowest occupied slot above the current one, or
   * the lowest of all if there is none above. With no process running the search starts at 0.
   */
  lemma NextLowest(occ: Occupied, current: uint32, x: Slot)
    requires occ[x]
    ensures var c, n := if current == 0xFFFF_FFFF then 0 else current % 16, Next(occ, current);
      && occ[n]
      && (forall j :: c < j < 16 && occ[j] ==> c < n <= j)
      && ((forall j :: c < j < 16 ==> !occ[j]) ==> forall j :: 0 <= j < 16 && occ[j] ==> n <= j)
  {
    NextOccupied(occ, current, x);
  }

  // ---- fairness ----

  /** The occupied slots from `i` on, in order. */
  function SlotsFrom(occ: Occupied, i: nat): (l: seq<nat>)
    requires i <= SLOT_COUNT
    decreases SLOT_COUNT - i
  {
    if i == SLOT_COUNT then [] else (if occ[i] then [i] else []) + SlotsFrom(occ, i + 1)
  }

  function SlotList(occ: Occupied): seq<nat> {
    SlotsFrom(occ, 0)
  }

  predicate Sorted(l: seq<nat>) {
    forall k, m :: 0 <= k < m < |l| ==> l[k] < l[m]
  }

  /** The list holds each occupied slot once, in ascending order. */
  ghost predicate Lists(l: seq<nat>, occ: Occupied, i: nat) {
    Sorted(l) && forall x: nat :: x in l <==> i <= x < SLOT_COUNT && occ[x]
  }

  lemma {:induction false} SlotsSorted(occ: Occupied, i: nat)
    requires i <= SLOT_COUNT
    ensures Lists(SlotsFrom(occ, i), occ, i)
    decreases SLOT_COUNT - i
  {
    if i < SLOT_COUNT {
      SlotsSorted(occ, i + 1);
      var l, rest := SlotsFrom(occ, i), SlotsFrom(occ, i + 1);
      assert l == if occ[i] then [i] + rest else rest;
      hide SlotsFrom;
      if occ[i] {
        SortedCons(i, rest);
      }
    }
  }

  lemma SortedCons(i: nat, rest: seq<nat>)
    requires Sorted(rest) && forall x :: x in rest ==> i < x
    ensures Sorted([i] + rest)
    ensures forall x: nat :: x in [i] + rest <==> x == i || x in rest
  {
    assert forall k :: 0 <= k < |rest| ==> rest[k] in rest;
  }

  /** What makes a slot the next one. */
  lemma NextIs(occ: Occupied, c: nat, i: nat)
    requires c < SLOT_COUNT && i < SLOT_COUNT && occ[i]
    requires forall j :: 0 <= j < SLOT_COUNT && occ[j] ==>
      if c < i then !(c < j < i) else j <= c && i <= j
    ensures Next(occ, c) == i
  {
  }

  /** The slot after the `a`-th in the list is the one after it in the list, or the first again. */
  lemma NextInList(occ: Occupied, l: seq<nat>, a: nat)
    requires Lists(l, occ, 0) && a < |l|
    ensures l[a] < SLOT_COUNT && Next(occ, l[a]) == if a + 1 < |l| then l[a + 1] else l[0]
  {
    var i := if a + 1 < |l| then l[a + 1] else l[0];
    assert i in l && l[a] in l;
    forall j | 0 <= j < SLOT_COUNT && occ[j]
      ensures if l[a] < i then !(l[a] < j < i) else j <= l[a] && i <= j
    {
      ListOrder(l, a, j);
    }
    hide Next;
    NextIs(occ, l[a], i);
  }

  /** An entry of a sorted list is at most entry `a`, or at least the one after it. */
  lemma ListOrder(l: seq<nat>, a: nat, x: nat)
    requires Sorted(l) && x in l && a < |l|
    ensures l[0] <= x
    ensures x <= l[a] || (a + 1 < |l| && l[a + 1] <= x)
    ensures a + 1 < |l| ==> l[a] < l[a + 1]
  {
    var b :| 0 <= b < |l| && l[b] == x;
  }

  /** The slot running after `n` switches. */
  function Dispatched(occ: Occupied, current: uint32, n: nat): uint32 {
    if n == 0 then current else Next(occ, Dispatched(occ, current, n - 1))
  }

  /** From the `a`-th occupied slot, `j` switches on runs the `a + j`-th, counting round. */
  lemma {:induction false} DispatchedInList(occ: Occupied, l: seq<nat>, a: nat, j: nat)
    requires Lists(l, occ, 0) && a < |l| && j < |l|
    ensures l[a] < SLOT_COUNT && Dispatched(occ, l[a], j) == if a + j < |l| then l[a + j] else l[a + j - |l|]
  {
    hide Next, Lists;
    NextInList(occ, l, a);
    if j > 0 {
      DispatchedInList(occ, l, a, j - 1);
      var b := if a + j - 1 < |l| then a + j - 1 else a + j - 1 - |l|;
      NextInList(occ, l, b);
      assert Dispatched(occ, l[a], j) == Next(occ, l[b]);
      hide Dispatched;
    }
  }

  lemma {:induction false} DispatchedSplit(occ: Occupied, current: uint32, m: nat, n: nat)
    ensures Dispatched(occ, current, m + n) == Dispatched(occ, Dispatched(occ, current, m), n)
    decreases n
  {
    hide Next;
    if n > 0 {
      DispatchedSplit(occ, current, m, n - 1);
    }
  }

  /** `n` consecutive dispatches, from the `m`-th switch on. */
  function Window(occ: Occupied, current: uint32, m: nat, n: nat): (w: seq<nat>)
    ensures |w| == n
  {
    if n == 0 then [] else Window(occ, current, m, n - 1) + [Dispatched(occ, current, m + n - 1)]
  }

  /** A list started at its `a`-th entry and counted round. */
  function Turned(l: seq<nat>, a: nat): (r: seq<nat>)
    requires a <= |l|
    ensures |r| == |l|
  {
    l[a..] + l[..a]
  }

  lemma TurnedAt(l: seq<nat>, a: nat, k: nat)
    requires a <= |l| && k < |l|
    ensures Turned(l, a)[k] == if a + k < |l| then l[a + k] else l[a + k - |l|]
    ensures Turned(l, a)[..k + 1] == Turned(l, a)[..k] + [Turned(l, a)[k]]
  {
  }

  /** How often `x` stands in the list. */
  function Times(l: seq<nat>, x: nat): nat {
    multiset(l)[x]
  }

  lemma TurnedSame(l: seq<nat>, a: nat)
    requires a <= |l|
    ensures multiset(Turned(l, a)) == multiset(l)
  {
    assert l == l[..a] + l[a..];
  }

  /** A window no longer than the list is the beginning of the list, started somewhere and counted round. */
  lemma {:induction false} WindowTurns(occ: Occupied, current: uint32, m: nat, l: seq<nat>, a: nat, n: nat)
    requires Lists(l, occ, 0) && a < |l| && Dispatched(occ, current, m) == l[a] && n <= |l|
    ensures Window(occ, current, m, n) == Turned(l, a)[..n]
  {
    hide Lists, Dispatched, Turned;
    if n > 0 {
      WindowTurns(occ, current, m, l, a, n - 1);
      DispatchedSplit(occ, current, m, n - 1);
      DispatchedInList(occ, l, a, n - 1);
      TurnedAt(l, a, n - 1);
    }
  }

  lemma {:induction false} SortedOnce(l: seq<nat>, x: nat)
    requires Sorted(l)
    ensures Times(l, x) == if x in l then 1 else 0
  {
    if l != [] {
      assert l == [l[0]] + l[1..];
      SortedOnce(l[1..], x);
    }
  }

  /** After the first switch an occupied slot runs, and that is in the list. */
  lemma StartListed(occ: Occupied, current: uint32, m: nat, x: Slot, l: seq<nat>) returns (a: nat)
    requires occ[x] && m > 0 && Lists(l, occ, 0)
    ensures a < |l| && l[a] == Dispatched(occ, current, m)
  {
    NextOccupied(occ, Dispatched(occ, current, m - 1), x);
    assert Dispatched(occ, current, m) == Next(occ, Dispatched(occ, current, m - 1));
    hide Next, Dispatched;
    assert Dispatched(occ, current, m) in l;
    a :| 0 <= a < |l| && l[a] == Dispatched(occ, current, m);
  }

  /** The whole window: every occupied slot is in it as often as in the list. */
  lemma WindowIsList(occ: Occupied, current: uint32, m: nat, x: Slot)
    requires occ[x] && m > 0
    ensures multiset(Window(occ, current, m, |SlotList(occ)|)) == multiset(SlotList(occ))
  {
    SlotsSorted(occ, 0);
    var l := SlotList(occ);
    hide SlotList, SlotsFrom, Window, Turned, Dispatched, Lists;
    var a := StartListed(occ, current, m, x, l);
    WindowTurns(occ, current, m, l, a, |l|);
    TurnedSame(l, a);
    assert Turned(l, a)[..|l|] == Turned(l, a);
  }

  /**
   * Fairness: from any start, also with no process running, any as many consecutive switches as
   * there are occupied slots dispatch each of them exactly once, and nothing else.
   */
  lemma Fair(occ: Occupied, current: uint32, m: nat, x: Slot)
    requires occ[x] && m > 0
    ensures var w := Window(occ, current, m, |SlotList(occ)|);
      forall y: nat :: Times(w, y) == if y < SLOT_COUNT && occ[y] then 1 else 0
  {
    SlotsSorted(occ, 0);
    WindowIsList(occ, current, m, x);
    var l := SlotList(occ);
    hide SlotList, SlotsFrom, Window, Sorted;
    forall y: nat
      ensures Times(l, y) == if y < SLOT_COUNT && occ[y] then 1 else 0
    {
      SortedOnce(l, y);
    }
  }

  // ---- ticks ----

  /** The first occupied slot holding the current pid; SLOT_COUNT if there is none. */
  function Lookup(s: System, i: nat): (k: nat)
    requires |s.pcbs| == SLOT_COUNT && i <= SLOT_COUNT
    ensures i <= k <= SLOT_COUNT
    ensures forall j :: i <= j < k ==> !(s.occupied[j] && s.pcbs[j].pid == s.current)
    ensures k < SLOT_COUNT ==> s.occupied[k] && s.pcbs[k].pid == s.current
    decreases SLOT_COUNT - i
  {
    if i == SLOT_COUNT || (s.occupied[i] && s.pcbs[i].pid == s.current) then i else Lookup(s, i + 1)
  }

  /** Saving: the process found becomes ready, and keeps its own page directory. */
  function Save(s: System, ctx: Context): (t: System)
    requires |s.pcbs| == SLOT_COUNT
    ensures |t.pcbs| == SLOT_COUNT
  {
    var i := Lookup(s, 0);
    if i == SLOT_COUNT then s
    else
      s.(pcbs := s.pcbs[i := s.pcbs[i].(state := Ready,
        context := ctx.(pageDirectory := s.pcbs[i].context.pageDirectory))])
  }

  /** Switching: the next slot runs; its context as it stands is loaded. */
  function Switch(s: System): (t: System)
    requires |s.pcbs| == SLOT_COUNT
    ensures |t.pcbs| == SLOT_COUNT
  {
    var i := Next(s.occupied, s.current);
    s.(pcbs := s.pcbs[i := s.pcbs[i].(state := Running)], current := i)
  }

  function Tick(s: System, ctx: Context): (t: System)
    requires |s.pcbs| == SLOT_COUNT
    ensures |t.pcbs| == SLOT_COUNT
  {
    Switch(Save(s, ctx))
  }

  /** Slot i holds pid i. */
  predicate PidsOk(s: System) {
    |s.pcbs| == SLOT_COUNT && forall i: Slot :: s.occupied[i] ==> s.pcbs[i].pid == i
  }

  /** Exactly one occupied slot is running: the current one. */
  predicate RunningOk(s: System) {
    && PidsOk(s) && s.current < SLOT_COUNT && s.occupied[s.current]
    && forall i: Slot :: s.occupied[i] ==> (s.pcbs[i].state == Running <==> i == s.current)
  }

  /** The first switch makes the invariant, from processes none of which is running. */
  lemma SwitchStarts(s: System, x: Slot)
    requires PidsOk(s) && s.occupied[x]
    requires forall i: Slot :: s.occupied[i] ==> s.pcbs[i].state != Running
    ensures RunningOk(Switch(s)) && Switched(s, Switch(s))
  {
    NextOccupied(s.occupied, s.current, x);
  }

  /** A switch changes the state of the slot switched to, and which one is current. */
  predicate Switched(s: System, t: System) {
    && |t.pcbs| == |s.pcbs| == 16 && t.occupied == s.occupied && t.current < 16
    && forall i: Slot :: t.pcbs[i] ==
         if i == t.current then Pcb(s.pcbs[i].pid, Running, s.pcbs[i].context) else s.pcbs[i]
  }

  /** The first occupied slot whose pid is the current one. */
  predicate IsCurrent(s: System, i: Slot) {
    && |s.pcbs| == 16 && s.occupied[i] && s.pcbs[i].pid == s.current
    && forall j :: 0 <= j < i ==> !(s.occupied[j] && s.pcbs[j].pid == s.current)
  }

  /**
   * Saving changes that slot only: it becomes ready, with the registers, eip and eflags given,
   * and keeps its pid and its page directory.
   */
  predicate Saved(s: System, ctx: Context, t: System) {
    && |t.pcbs| == |s.pcbs| == 16 && t.occupied == s.occupied && t.current == s.current
    && forall i: Slot :: t.pcbs[i] ==
         if IsCurrent(s, i) then
           Pcb(s.pcbs[i].pid, Ready, Context(ctx.cpu, ctx.eip, ctx.eflags, s.pcbs[i].context.pageDirectory))
         else s.pcbs[i]
  }

  lemma SaveSets(s: System, ctx: Context)
    requires |s.pcbs| == SLOT_COUNT
    ensures Saved(s, ctx, Save(s, ctx))
  {
    var k := Lookup(s, 0);
    forall i: Slot
      ensures IsCurrent(s, i) <==> i == k
    {
    }
  }

  /**
   * A tick saves the interrupted context in the current slot, and loads what the next one saved.
   * The slot that was current is ready unless it goes on running, no other slot but the one
   * dispatched changes state, and no slot its pid.
   */
  lemma TickKeeps(s: System, ctx: Context)
    requires RunningOk(s)
    ensures var t := Tick(s, ctx);
      && RunningOk(t) && t.occupied == s.occupied && t.current == Next(s.occupied, s.current)
      && (forall i: Slot {:trigger t.pcbs[i]} :: t.pcbs[i].context ==
           if i == s.current then ctx.(pageDirectory := s.pcbs[i].context.pageDirectory) else s.pcbs[i].context)
      && (forall i: Slot {:trigger t.pcbs[i]} :: t.pcbs[i].pid == s.pcbs[i].pid && t.pcbs[i].state ==
           if i == t.current then Running else if i == s.current then Ready else s.pcbs[i].state)
  {
    NextOccupied(s.occupied, s.current, s.current);
    assert Lookup(s, 0) == s.current;
  }

  /** A tick, process by process: pid, state and context. */
  predicate Ticked(s: System, ctx: Context, t: System) {
    && |t.pcbs| == |s.pcbs| == 16 && t.occupied == s.occupied
    && forall i: Slot :: t.pcbs[i] == Pcb(
         s.pcbs[i].pid,
         if i == t.current then Running else if i == s.current then Ready else s.pcbs[i].state,
         if i == s.current then Context(ctx.cpu, ctx.eip, ctx.eflags, s.pcbs[i].context.pageDirectory)
         else s.pcbs[i].context)
  }

  lemma TickSets(s: System, ctx: Context)
    requires |s.pcbs| == SLOT_COUNT && RunningOk(s)
    ensures Ticked(s, ctx, Tick(s, ctx))
  {
    hide RunningOk, Tick, Next;
    TickKeeps(s, ctx);
  }

  /** The system after ticks that interrupted the given contexts. */
  function Ticks(s: System, ctxs: seq<Context>): (t: System)
    requires |s.pcbs| == SLOT_COUNT
    ensures |t.pcbs| == SLOT_COUNT
  {
    if ctxs == [] then s else Tick(Ticks(s, ctxs[..|ctxs| - 1]), ctxs[|ctxs| - 1])
  }

  /** What the last tick loaded into the processor. */
  function Loaded(s: System): Context
    requires RunningOk(s)
  {
    s.pcbs[s.current].context
  }

  /** Slot `i` was running at some time in the first `n` ticks, before the last dispatch. */
  predicate HadTurn(occ: Occupied, current: uint32, n: nat, i: nat) {
    exists j :: 0 <= j < n && Dispatched(occ, current, j) == i
  }

  lemma HadTurnNext(occ: Occupied, current: uint32, n: nat, i: nat)
    requires n > 0
    ensures HadTurn(occ, current, n, i) <==> HadTurn(occ, current, n - 1, i) || Dispatched(occ, current, n - 1) == i
  {
    hide Dispatched;
  }

  /**
   * Over a run the current slot is running, every other one that had its turn is ready, and the
   * rest are in the state they were in at first; pids and page directories never change.
   */
  lemma {:induction false} TicksKeep(s: System, ctxs: seq<Context>)
    requires |s.pcbs| == SLOT_COUNT && RunningOk(s)
    ensures var t := Ticks(s, ctxs);
      && RunningOk(t) && t.occupied == s.occupied
      && t.current == Dispatched(s.occupied, s.current, |ctxs|)
      && (forall i: Slot {:trigger t.pcbs[i]} :: t.pcbs[i].context.pageDirectory == s.pcbs[i].context.pageDirectory)
      && (forall i: Slot {:trigger t.pcbs[i]} :: t.pcbs[i].pid == s.pcbs[i].pid && t.pcbs[i].state ==
           if i == t.current then Running
           else if HadTurn(s.occupied, s.current, |ctxs|, i) then Ready else s.pcbs[i].state)
  {
    hide RunningOk, Tick, Dispatched, HadTurn, Next;
    var n := |ctxs|;
    if n > 0 {
      TicksKeep(s, ctxs[..n - 1]);
      TickKeeps(Ticks(s, ctxs[..n - 1]), ctxs[n - 1]);
      DispatchedNext(s.occupied, s.current, n);
      forall i: Slot
        ensures HadTurn(s.occupied, s.current, n, i)
           <==> HadTurn(s.occupied, s.current, n - 1, i) || Dispatched(s.occupied, s.current, n - 1) == i
      {
        HadTurnNext(s.occupied, s.current, n, i);
      }
    } else {
      NoTurns(s);
    }
  }

  lemma DispatchedNext(occ: Occupied, current: uint32, n: nat)
    requires n > 0
    ensures Dispatched(occ, current, n) == Next(occ, Dispatched(occ, current, n - 1))
  {
  }

  lemma NoTurns(s: System)
    requires RunningOk(s)
    ensures Dispatched(s.occupied, s.current, 0) == s.current
    ensures forall i: Slot :: !HadTurn(s.occupied, s.current, 0, i)
    ensures s.pcbs[s.current].state == Running && s.current < SLOT_COUNT
  {
  }

  /** While a slot is not the current one its saved context stays as it is. */
  lemma {:induction false} WaitingKeeps(s: System, ctxs: seq<Context>, k: nat, x: Slot)
    requires |s.pcbs| == SLOT_COUNT && RunningOk(s) && k <= |ctxs|
    requires forall j :: k <= j < |ctxs| ==> Dispatched(s.occupied, s.current, j) != x
    ensures Ticks(s, ctxs).pcbs[x].context == Ticks(s, ctxs[..k]).pcbs[x].context
    decreases |ctxs|
  {
    hide RunningOk, Tick, Dispatched;
    if k < |ctxs| {
      var n := |ctxs| - 1;
      WaitingKeeps(s, ctxs[..n], k, x);
      assert ctxs[..n][..k] == ctxs[..k];
      TicksKeep(s, ctxs[..n]);
      TickKeeps(Ticks(s, ctxs[..n]), ctxs[n]);
    } else {
      assert ctxs[..k] == ctxs;
    }
  }

  /**
   * Context integrity: slot `x` is interrupted at tick `k` in the context `ctxs[k]`. When the run
   * next dispatches it, at its end, it is that context which is loaded: same registers, same
   * eip and eflags, under the slot's own page directory.
   */
  lemma ResumesWhereInterrupted(s: System, ctxs: seq<Context>, k: nat, x: Slot)
    requires RunningOk(s) && k < |ctxs|
    requires Dispatched(s.occupied, s.current, k) == x == Dispatched(s.occupied, s.current, |ctxs|)
    requires forall j :: k < j < |ctxs| ==> Dispatched(s.occupied, s.current, j) != x
    ensures RunningOk(Ticks(s, ctxs)) && Ticks(s, ctxs).current == x
    ensures Loaded(Ticks(s, ctxs)) == ctxs[k].(pageDirectory := s.pcbs[x].context.pageDirectory)
  {
    hide Tick, Dispatched;
    TicksKeep(s, ctxs);
    WaitingKeeps(s, ctxs, k + 1, x);
    var before := Ticks(s, ctxs[..k]);
    TicksKeep(s, ctxs[..k]);
    TickKeeps(before, ctxs[k]);
    assert ctxs[..k + 1][..k] == ctxs[..k];
    assert Ticks(s, ctxs[..k + 1]) == Tick(before, ctxs[k]);
  }
}
