/** The frame allocator: bitmap, count and page directories changed in place. */
module FrameAllocator {
  import opened Bytes
  import opened Paging

  class PageDirectory {
    var table: Table

    constructor ()
      ensures table == EMPTY_TABLE
    {
      table := EMPTY_TABLE;
    }

    /** `update_page_directory_entry`: the flags and the address change, the bits between do not. */
    method Update(physicalAddr: uint32, virtualAddr: uint32, flag: Flag)
      modifies this
      ensures var p := PageOf(virtualAddr);
        && table == old(table)[p := old(table)[p].(flag := flag, lower := PageOf(physicalAddr))]
        && p == virtualAddr / 0x40_0000 && PageOf(physicalAddr) == physicalAddr / 0x40_0000
    {
      var p := PageOf(virtualAddr);
      table := table[p := table[p].(flag := flag)];
      table := table[p := table[p].(lower := PageOf(physicalAddr))];
    }

    method Clear()
      modifies this
      ensures table == EMPTY_TABLE
    {
      for i := 0 to ENTRY_COUNT
        invariant forall k :: 0 <= k < i ==> table[k] == NO_PDE
      {
        table := table[i := NO_PDE];
      }
      assert table == EMPTY_TABLE;
    }
  }

  class Allocator {
    const list: seq<PageDirectory>
    const frameMap: array<bool>
    var freeCount: uint32
    const used: array<bool>

    ghost predicate Valid() {
      && |list| == DIRECTORY_COUNT && frameMap.Length == FRAME_COUNT && used.Length == DIRECTORY_COUNT
      && frameMap != used
      && forall i, j :: 0 <= i < j < |list| ==> list[i] != list[j]
    }

    ghost function Entries(): Tables
      requires Valid()
      reads list
    {
      seq<Table>(DIRECTORY_COUNT, i requires 0 <= i < DIRECTORY_COUNT reads list => list[i].table)
    }

    ghost function State(): State
      requires Valid()
      reads this, frameMap, used, list
    {
      Paging.State(frameMap[..], freeCount, used[..], Entries())
    }

    /** As at start-up: frame 0 taken, no directory in use. */
    constructor (list: seq<PageDirectory>)
      requires |list| == DIRECTORY_COUNT && forall i, j :: 0 <= i < j < |list| ==> list[i] != list[j]
      requires forall d :: d in list ==> d.table == EMPTY_TABLE
      ensures Valid() && this.list == list && fresh(frameMap) && fresh(used) && State() == START
    {
      this.list := list;
      frameMap := new bool[FRAME_COUNT](i => i == 0);
      used := new bool[DIRECTORY_COUNT](i => false);
      freeCount := FRAME_COUNT - 1;
      new;
      assert frameMap[..] == START.frames && used[..] == START.used;
      assert Entries() == START.tables;
    }

    method AllocateCheck(amount: uint32) returns (enough: bool)
      requires Valid()
      ensures enough == Check(State(), amount)
    {
      enough := freeCount >= amount;
    }

    lemma FirstClearIs(s: Frames, i: nat)
      requires i <= 32 && (forall k :: 0 <= k < i ==> s[k]) && (i < 32 ==> !s[i])
      ensures FirstClear(s, 0) == i
    {
    }

    /** Updating an entry of a directory in the list. */
    method UpdateEntry(dir: PageDirectory, physicalAddr: uint32, virtualAddr: uint32, flag: Flag, ghost d: Directory)
      requires Valid() && list[d] == dir
      modifies dir
      ensures var s, p := old(State()), PageOf(virtualAddr);
        State() == SetEntry(s, d, p, s.tables[d][p].(flag := flag, lower := PageOf(physicalAddr)))
    {
      dir.Update(physicalAddr, virtualAddr, flag);
      ghost var s, p := old(State()), PageOf(virtualAddr);
      assert Entries() == SetEntry(s, d, p, s.tables[d][p].(flag := flag, lower := PageOf(physicalAddr))).tables;
    }

    lemma EntryIs(dir: PageDirectory, d: Directory)
      requires Valid() && list[d] == dir
      ensures Entries()[d] == dir.table
    {
    }

    /** `scratch` is what the uninitialised flag structure held. */
    method AllocateUserPageFrame(dir: PageDirectory, virtualAddr: uint32, ghost d: Directory)
        returns (ok: bool, ghost scratch: Flag)
      requires Valid() && list[d] == dir
      modifies this`freeCount, frameMap, dir
      ensures (State(), ok) == Allocate(old(State()), d, PageOf(virtualAddr), scratch)
      ensures Allocated(old(State()), State(), d, virtualAddr / 0x40_0000, scratch, ok)
    {
      hide FirstClear, Entries, Allocated;
      AllocatesAnyway(State(), d, virtualAddr);
      for i := 0 to FRAME_COUNT
        invariant forall k :: 0 <= k < i ==> frameMap[k]
        invariant State() == old(State())
      {
        if !frameMap[i] {
          FirstClearIs(frameMap[..], i);
          frameMap[i] := true;
          var flag: Flag := *;
          scratch := flag;
          flag := flag.(present := true);
          flag := flag.(write := true);
          flag := flag.(user := true);
          flag := flag.(big := true);
          UpdateEntry(dir, i * PAGE_SIZE, virtualAddr, flag, d);
          freeCount := if freeCount == 0 then 0xFFFF_FFFF else freeCount - 1;
          return true, scratch;
        }
      }
      FirstClearIs(frameMap[..], FRAME_COUNT);
      ok, scratch := false, NO_FLAG;
    }

    method FreeUserPageFrame(dir: PageDirectory, virtualAddr: uint32, ghost d: Directory)
        returns (ok: bool, ghost scratch: Flag)
      requires Valid() && list[d] == dir && FreeDefined(State(), d, PageOf(virtualAddr))
      modifies this`freeCount, frameMap, dir
      ensures (State(), ok) == Free(old(State()), d, PageOf(virtualAddr), scratch)
      ensures Freed(old(State()), State(), d, virtualAddr / 0x40_0000, scratch, ok)
    {
      hide Entries, Freed, Free;
      FreesAnyway(State(), d, virtualAddr);
      var p := PageOf(virtualAddr);
      scratch := NO_FLAG;
      EntryIs(dir, d);
      FreeCases(State(), d, p);
      if dir.table[p].flag.present {
        var physicalAddr: uint32 := dir.table[p].lower * PAGE_SIZE;
        frameMap[physicalAddr / PAGE_SIZE] := false;
        var flag: Flag := *;
        scratch := flag;
        flag := flag.(present := false);
        flag := flag.(write := false);
        flag := flag.(user := false);
        flag := flag.(big := false);
        UpdateEntry(dir, 0, virtualAddr, flag, d);
        freeCount := if freeCount == 0xFFFF_FFFF then 0 else freeCount + 1;
        return true, scratch;
      }
      ok := false;
    }

    /** Returns the new directory, or null; `scratch` is what the uninitialised entry held. */
    method CreateNewPageDirectory() returns (dir: PageDirectory?, ghost scratch: Pde)
      requires Valid()
      modifies used, list
      ensures var (s', i) := Create(old(State()), scratch);
        State() == s' && dir == (if i < DIRECTORY_COUNT then list[i] else null) && Created(old(State()), s', scratch, i)
    {
      hide Created;
      CreatesAnyway(State());
      for i := 0 to DIRECTORY_COUNT
        invariant forall k :: 0 <= k < i ==> used[k]
        invariant State() == old(State())
      {
        if !used[i] {
          FirstClearIs(used[..], i);
          used[i] := true;
          dir := list[i];
          dir.Clear();
          var entry: Pde := *;
          scratch := entry;
          entry := entry.(flag := entry.flag.(present := true));
          entry := entry.(flag := entry.flag.(write := true));
          entry := entry.(flag := entry.flag.(big := true));
          dir.table := dir.table[KERNEL_PAGE := entry];
          assert Entries() == Create(old(State()), scratch).0.tables;
          return dir, scratch;
        }
      }
      FirstClearIs(used[..], DIRECTORY_COUNT);
      dir, scratch := null, NO_PDE;
    }

    /** Searches the list for the directory; one that is not in it is refused. */
    method FreePageDirectory(dir: PageDirectory) returns (ok: bool, ghost d: nat)
      requires Valid()
      modifies used, dir
      ensures ok <==> dir in list
      ensures if ok then d < DIRECTORY_COUNT && list[d] == dir && State() == Release(old(State()), d)
                         && Released(old(State()), State(), d)
              else State() == old(State()) && dir.table == old(dir.table)
    {
      for i := 0 to DIRECTORY_COUNT
        invariant forall k :: 0 <= k < i ==> list[k] != dir
        invariant State() == old(State()) && dir.table == old(dir.table)
      {
        if list[i] == dir {
          used[i] := false;
          dir.Clear();
          assert Entries() == Release(old(State()), i).tables;
          ReleaseSets(old(State()), i);
          return true, i;
        }
      }
      ok, d := false, 0;
    }
  }

  // ---- whatever the uninitialised bits are ----

  lemma AllocatesAnyway(s: State, d: Directory, virtualAddr: uint32)
    ensures PageOf(virtualAddr) == virtualAddr / 0x40_0000
    ensures forall scratch {:trigger Allocate(s, d, PageOf(virtualAddr), scratch)} ::
      var (s', ok) := Allocate(s, d, PageOf(virtualAddr), scratch);
      Allocated(s, s', d, virtualAddr / 0x40_0000, scratch, ok)
  {
    hide Allocated, Allocate;
    forall scratch
      ensures var (s', ok) := Allocate(s, d, PageOf(virtualAddr), scratch);
        Allocated(s, s', d, PageOf(virtualAddr), scratch, ok)
    {
      AllocateSets(s, d, PageOf(virtualAddr), scratch);
    }
  }

  /** What freeing does to a state, whatever the flags it does not set. */
  lemma FreeCases(s: State, d: Directory, p: Page)
    requires FreeDefined(s, d, p)
    ensures var e := s.tables[d][p];
      forall scratch {:trigger Free(s, d, p, scratch)} :: Free(s, d, p, scratch) ==
        if !e.flag.present then (s, false)
        else
          var flag := scratch.(present := false, write := false, user := false, big := false);
          (SetEntry(s, d, p, e.(flag := flag, lower := 0))
             .(frames := s.frames[e.lower := false], free := if s.free == 0xFFFF_FFFF then 0 else s.free + 1), true)
  {
  }

  lemma FreesAnyway(s: State, d: Directory, virtualAddr: uint32)
    requires FreeDefined(s, d, PageOf(virtualAddr))
    ensures PageOf(virtualAddr) == virtualAddr / 0x40_0000
    ensures forall scratch {:trigger Free(s, d, PageOf(virtualAddr), scratch)} ::
      var (s', ok) := Free(s, d, PageOf(virtualAddr), scratch);
      Freed(s, s', d, virtualAddr / 0x40_0000, scratch, ok)
  {
    hide Freed, Free;
    forall scratch
      ensures var (s', ok) := Free(s, d, PageOf(virtualAddr), scratch);
        Freed(s, s', d, PageOf(virtualAddr), scratch, ok)
    {
      FreeSets(s, d, PageOf(virtualAddr), scratch);
    }
  }

  lemma CreatesAnyway(s: State)
    ensures forall scratch {:trigger Create(s, scratch)} ::
      var (s', i) := Create(s, scratch); Created(s, s', scratch, i)
  {
    hide Created, Create;
    forall scratch
      ensures var (s', i) := Create(s, scratch); Created(s, s', scratch, i)
    {
      CreateSets(s, scratch);
    }
  }
}
