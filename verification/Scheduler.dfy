/** The scheduler as it runs: loops over the process table, and state and context set in place. */
module Scheduler {
  import opened Bytes
  import opened RoundRobin

  class Processes {
    const list: array<Pcb>
    const occupied: array<bool>
    var current: uint32

    ghost predicate Valid() {
      list.Length == SLOT_COUNT && occupied.Length == SLOT_COUNT && list as object != occupied
    }

    ghost function State(): System
      requires Valid()
      reads this, list, occupied
    {
      System(occupied[..], list[..], current)
    }

    constructor (list: array<Pcb>, occupied: array<bool>, current: uint32)
      requires list.Length == SLOT_COUNT && occupied.Length == SLOT_COUNT && list as object != occupied
      ensures Valid() && this.list == list && this.occupied == occupied && this.current == current
    {
      this.list, this.occupied, this.current := list, occupied, current;
    }

    /** `process_get_current_running_pcb_pointer`: SLOT_COUNT stands for the null pointer. */
    method CurrentPcb() returns (i: nat)
      requires Valid()
      ensures i == Lookup(State(), 0)
    {
      i := 0;
      while i < SLOT_COUNT
        invariant i <= SLOT_COUNT && Lookup(State(), 0) == Lookup(State(), i)
      {
        if occupied[i] && list[i].pid == current {
          return;
        }
        i := i + 1;
      }
    }

    method SaveContext(ctx: Context)
      requires Valid()
      modifies list
      ensures State() == Save(old(State()), ctx) && Saved(old(State()), ctx, State())
    {
      SaveSets(State(), ctx);
      hide Saved;
      var i := CurrentPcb();
      if i != SLOT_COUNT {
        list[i] := list[i].(state := Ready);
        var kept := list[i].context;
        list[i] := list[i].(context := kept.(eip := ctx.eip));
        kept := list[i].context;
        list[i] := list[i].(context := kept.(eflags := ctx.eflags));
        kept := list[i].context;
        list[i] := list[i].(context := kept.(cpu := ctx.cpu));
      }
    }

    /**
     * Searches on from the current slot, counting round. Some slot must be occupied, or the
     * search would go on for ever.
     */
    method FindNext(ghost some: Slot) returns (index: nat)
      requires Valid() && State().occupied[some]
      ensures index == Next(State().occupied, current)
      ensures var c := if current == 0xFFFF_FFFF then 0 else current % 16;
        && index < 16 && occupied[index]
        && (forall j :: c < j < 16 && occupied[j] ==> c < index <= j)
        && ((forall j :: c < j < 16 ==> !occupied[j]) ==> forall j :: 0 <= j < 16 && occupied[j] ==> index <= j)
    {
      hide Next, Passed, SameSlot, StartOf;
      NextLowest(occupied[..], current, some);
      ghost var occ, from := occupied[..], StartOf(current);
      index := current;
      if index == NO_PROCESS_RUNNING {
        index := 0;
      }
      ghost var k: nat := 0;
      NonePassed(from);
      StartIs(current);
      while true
        invariant k <= SLOT_COUNT && index <= NO_PROCESS_RUNNING && SameSlot(index, from + k)
        invariant forall x :: 0 <= x < SLOT_COUNT && Passed(from, k, x) ==> !occ[x]
        decreases SLOT_COUNT - k
      {
        NextIndex(index, from + k);
        index := (index + 1) % 0x1_0000_0000 % SLOT_COUNT;
        k := k + 1;
        StepOn(occ, from, k, index, some);
        if occupied[index] {
          FoundNext(occ, from, k, index);
          SameStart(occ, current);
          return;
        }
      }
    }

    /** The next slot runs; what is loaded is its context as it stood. */
    method SwitchToNext(ghost some: Slot) returns (loaded: Context)
      requires Valid() && State().occupied[some]
      modifies list, this`current
      ensures State() == Switch(old(State())) && Switched(old(State()), State())
      ensures loaded == old(State()).pcbs[Next(old(State()).occupied, old(State()).current)].context
    {
      var index := FindNext(some);
      loaded := list[index].context;
      list[index] := list[index].(state := Running);
      current := index;
    }

    /** The timer interrupt: save what was interrupted, then switch. */
    method TimerTick(cpu: Cpu, eip: uint32, eflags: uint32, ghost some: Slot) returns (loaded: Context)
      requires Valid() && State().occupied[some]
      modifies list, this`current
      ensures State() == Tick(old(State()), Context(cpu, eip, eflags, 0))
      ensures RunningOk(old(State())) ==>
        RunningOk(State()) && loaded == Loaded(State()) && Ticked(old(State()), Context(cpu, eip, eflags, 0), State())
    {
      hide Ticked, Saved, Switched, Next;
      var ctx := Context(cpu, eip, eflags, 0);
      if RunningOk(State()) {
        TickSets(State(), ctx);
        TickKeeps(State(), ctx);
      }
      SaveContext(ctx);
      hide Save;
      loaded := SwitchToNext(some);
    }
  }

  /** Slot `x` is one of the `k` after `from`, counting round. */
  predicate Passed(from: nat, k: nat, x: nat) {
    from < x <= from + k || x + SLOT_COUNT <= from + k
  }

  predicate SameSlot(i: nat, j: nat) {
    i % SLOT_COUNT == j % SLOT_COUNT
  }

  lemma NextIndex(index: nat, at: nat)
    requires index <= NO_PROCESS_RUNNING && SameSlot(index, at)
    ensures var next := (index + 1) % 0x1_0000_0000 % SLOT_COUNT;
      next < SLOT_COUNT && SameSlot(next, at + 1)
  {
    hide SameSlot;
    OneOn(index, at);
    if index == NO_PROCESS_RUNNING {
      WrapsRound(at);
    } else {
      assert (index + 1) % 0x1_0000_0000 == index + 1;
      RemainderSame(index + 1, at + 1);
    }
  }

  lemma OneOn(i: nat, j: nat)
    requires SameSlot(i, j)
    ensures SameSlot(i + 1, j + 1)
  {
    var a, b := i / SLOT_COUNT, j / SLOT_COUNT;
    assert i == 16 * a + i % 16 && j == 16 * b + j % 16;
  }

  lemma WrapsRound(at: nat)
    requires SameSlot(NO_PROCESS_RUNNING + 1, at + 1)
    ensures SameSlot((NO_PROCESS_RUNNING as int + 1) % 0x1_0000_0000 % SLOT_COUNT, at + 1)
  {
  }

  lemma RemainderSame(i: nat, j: nat)
    requires SameSlot(i, j)
    ensures i % SLOT_COUNT < SLOT_COUNT && SameSlot(i % SLOT_COUNT, j)
  {
  }

  lemma NonePassed(from: Slot)
    ensures forall x :: 0 <= x < SLOT_COUNT ==> !Passed(from, 0, x)
  {
  }

  lemma StartIs(current: uint32)
    ensures SameSlot(if current == NO_PROCESS_RUNNING then 0 else current, StartOf(current))
  {
  }

  lemma SameStart(occ: Occupied, current: uint32)
    ensures Next(occ, StartOf(current)) == Next(occ, current)
  {
    hide FirstOccupied;
    assert StartOf(StartOf(current)) == StartOf(current);
  }

  /** One step of the search: all sixteen slots are passed before the seventeenth step. */
  lemma StepOn(occ: Occupied, from: Slot, k: nat, index: nat, some: Slot)
    requires 1 <= k <= SLOT_COUNT + 1 && index < SLOT_COUNT && SameSlot(index, from + k) && occ[some]
    requires forall x :: 0 <= x < SLOT_COUNT && Passed(from, k - 1, x) ==> !occ[x]
    ensures k <= SLOT_COUNT
    ensures !occ[index] ==> forall x :: 0 <= x < SLOT_COUNT && Passed(from, k, x) ==> !occ[x]
  {
    assert index == if from + k < SLOT_COUNT then from + k
                    else if from + k < 2 * SLOT_COUNT then from + k - SLOT_COUNT else from + k - 2 * SLOT_COUNT;
    assert Passed(from, SLOT_COUNT, some);
  }

  /** The first occupied slot met is the lowest above the start, or else the lowest of all. */
  lemma FoundNext(occ: Occupied, from: Slot, k: nat, index: nat)
    requires 1 <= k <= SLOT_COUNT && index < SLOT_COUNT && SameSlot(index, from + k) && occ[index]
    requires forall x :: 0 <= x < SLOT_COUNT && Passed(from, k - 1, x) ==> !occ[x]
    ensures index == Next(occ, from)
  {
    hide SameSlot, Next;
    RoundTo(from, k, index);
    forall x: nat | x < SLOT_COUNT && occ[x]
      ensures if from < index then !(from < x < index) else x <= from && index <= x
    {
      assert !Passed(from, k - 1, x);
    }
    NextIs(occ, from, index);
  }

  lemma RoundTo(from: Slot, k: nat, index: nat)
    requires 1 <= k <= SLOT_COUNT && index < SLOT_COUNT && SameSlot(index, from + k)
    ensures index == if from + k < SLOT_COUNT then from + k else from + k - SLOT_COUNT
  {
  }
}
