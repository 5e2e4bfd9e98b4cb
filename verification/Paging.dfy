/** Physical frames of 4 MiB, the page directories that map them, and who owns which frame. */
module Paging {
  import opened Bytes

  const FRAME_COUNT: nat := 32       // 128 MiB of memory
  const DIRECTORY_COUNT: nat := 32
  const ENTRY_COUNT: nat := 1024
  const PAGE_SIZE: nat := 0x40_0000
  const KERNEL_PAGE: nat := 0x300    // the first page of the kernel's half

  type Ten = i: int | 0 <= i < 0x400
  type Fourteen = i: int | 0 <= i < 0x4000

  datatype Flag = Flag(present: bool, write: bool, user: bool, pwt: bool, pcd: bool,
                       accessed: bool, dirty: bool, big: bool)

  /** A page directory entry for a 4 MiB page; `middle` is the bits between flags and address. */
  datatype Pde = Pde(flag: Flag, middle: Fourteen, lower: Ten)

  const NO_FLAG: Flag := Flag(false, false, false, false, false, false, false, false)
  const NO_PDE: Pde := Pde(NO_FLAG, 0, 0)

  type Frames = s: seq<bool> | |s| == 32 witness Repeat(32, false)
  type Table = s: seq<Pde> | |s| == 1024 witness Repeat(1024, NO_PDE)
  type Tables = s: seq<Table> | |s| == 32 witness Repeat<Table>(32, EMPTY_TABLE)
  type Directory = i: int | 0 <= i < 32
  type Page = i: int | 0 <= i < 1024
  type UserPage = i: int | 0 <= i < 0x300

  const EMPTY_TABLE: Table := Repeat(1024, NO_PDE)

  function Repeat<T>(n: nat, x: T): (s: seq<T>)
    ensures |s| == n && forall i :: 0 <= i < n ==> s[i] == x
  {
    seq(n, i => x)
  }

  /** The bitmap and the count of free frames, the directories in use and their entries. */
  datatype State = State(frames: Frames, free: uint32, used: Frames, tables: Tables)

  function PageOf(virtualAddr: uint32): Page {
    virtualAddr / PAGE_SIZE % ENTRY_COUNT
  }

  // ---- what each operation does ----

  function FirstClear(s: Frames, from: nat): (i: nat)
    requires from <= 32
    ensures from <= i <= 32 && (forall k :: from <= k < i ==> s[k]) && (i < 32 ==> !s[i])
    decreases 32 - from
  {
    if from == 32 || !s[from] then from else FirstClear(s, from + 1)
  }

  function SetEntry(s: State, d: Directory, p: Page, e: Pde): State {
    s.(tables := s.tables[d := s.tables[d][p := e]])
  }

  /** `scratch` is what an uninitialised flag structure happens to hold. */
  function Allocate(s: State, d: Directory, p: Page, scratch: Flag): (State, bool) {
    var i := FirstClear(s.frames, 0);
    if i == FRAME_COUNT then (s, false)
    else
      var flag := scratch.(present := true, write := true, user := true, big := true);
      (SetEntry(s, d, p, s.tables[d][p].(flag := flag, lower := i))
         .(frames := s.frames[i := true], free := (s.free - 1) % 0x1_0000_0000), true)
  }

  /** Freeing is defined where the entry names a frame the bitmap has. */
  predicate FreeDefined(s: State, d: Directory, p: Page) {
    s.tables[d][p].flag.present ==> s.tables[d][p].lower < FRAME_COUNT
  }

  function Free(s: State, d: Directory, p: Page, scratch: Flag): (State, bool)
    requires FreeDefined(s, d, p)
  {
    var e := s.tables[d][p];
    if !e.flag.present then (s, false)
    else
      var flag := scratch.(present := false, write := false, user := false, big := false);
      (SetEntry(s, d, p, e.(flag := flag, lower := 0))
         .(frames := s.frames[e.lower := false], free := (s.free + 1) % 0x1_0000_0000), true)
  }

  /** The kernel's entry: every field not named here is as it happened to be. */
  function KernelEntry(scratch: Pde): Pde {
    var f := scratch.flag;
    scratch.(flag := f.(present := true, write := true, big := true))
  }

  /** The first unused directory, emptied but for the kernel's entry; none if all are in use. */
  function Create(s: State, scratch: Pde): (State, nat) {
    var i := FirstClear(s.used, 0);
    if i == DIRECTORY_COUNT then (s, i)
    else
      (s.(used := s.used[i := true], tables := s.tables[i := EMPTY_TABLE[KERNEL_PAGE := KernelEntry(scratch)]]), i)
  }

  function Release(s: State, d: Directory): State {
    s.(used := s.used[d := false], tables := s.tables[d := EMPTY_TABLE])
  }

  function Check(s: State, amount: uint32): bool {
    s.free >= amount
  }

  /** At start-up frame 0, which holds the kernel, is taken. */
  const START: State := State(
    Repeat(32, false)[0 := true], 31, Repeat(32, false), Repeat<Table>(32, EMPTY_TABLE))

  // ---- what each operation leaves, entry by entry ----

  /** All entries but the one for page `p` of directory `d` are the same. */
  predicate OthersSame(s: State, s': State, d: Directory, p: Page) {
    forall d': Directory, p': Page :: d' != d || p' != p ==> s'.tables[d'][p'] == s.tables[d'][p']
  }

  /**
   * An allocation takes the lowest free frame and enters it, present, writable, for user mode and
   * 4 MiB large; the four flags it does not set and the bits between are as they were. Without a
   * free frame nothing changes.
   */
  predicate Allocated(s: State, s': State, d: Directory, p: Page, scratch: Flag, ok: bool) {
    if !ok then s' == s && forall i :: 0 <= i < 32 ==> s.frames[i]
    else
      var e := s'.tables[d][p];
      && e.lower < 32 && !s.frames[e.lower] && (forall i :: 0 <= i < e.lower ==> s.frames[i])
      && s'.frames == s.frames[e.lower := true] && s'.used == s.used
      && s'.free == (if s.free == 0 then 0xFFFF_FFFF else s.free - 1)
      && e.flag == Flag(true, true, true, scratch.pwt, scratch.pcd, scratch.accessed, scratch.dirty, true)
      && e.middle == s.tables[d][p].middle && OthersSame(s, s', d, p)
  }

  lemma AllocateSets(s: State, d: Directory, p: Page, scratch: Flag)
    ensures var (s', ok) := Allocate(s, d, p, scratch); Allocated(s, s', d, p, scratch, ok)
  {
    hide FirstClear;
  }

  /**
   * Freeing clears the four flags an allocation sets and the frame number of a present entry, and
   * marks the frame as free; an entry that is not present is left alone.
   */
  predicate Freed(s: State, s': State, d: Directory, p: Page, scratch: Flag, ok: bool) {
    var e := s.tables[d][p];
    if !ok then s' == s && !e.flag.present
    else
      && e.flag.present && e.lower < 32 && s'.frames == s.frames[e.lower := false] && s'.used == s.used
      && s'.free == (if s.free == 0xFFFF_FFFF then 0 else s.free + 1)
      && s'.tables[d][p].flag
         == Flag(false, false, false, scratch.pwt, scratch.pcd, scratch.accessed, scratch.dirty, false)
      && s'.tables[d][p].middle == e.middle && s'.tables[d][p].lower == 0
      && OthersSame(s, s', d, p)
  }

  lemma FreeSets(s: State, d: Directory, p: Page, scratch: Flag)
    requires FreeDefined(s, d, p)
    ensures var (s', ok) := Free(s, d, p, scratch); Freed(s, s', d, p, scratch, ok)
  {
  }

  /** An entry of zeros. */
  predicate Blank(e: Pde) {
    e == Pde(Flag(false, false, false, false, false, false, false, false), 0, 0)
  }

  /**
   * Creating takes the first unused directory `i` and blanks it but for entry 0x300, the kernel's:
   * present, writable, 4 MiB large, all else as the uninitialised entry had it. Frames and other
   * directories stay; with all directories in use everything does.
   */
  predicate Created(s: State, s': State, scratch: Pde, i: nat) {
    if i >= 32 then s' == s && forall k :: 0 <= k < 32 ==> s.used[k]
    else
      var f := scratch.flag;
      && !s.used[i] && (forall k :: 0 <= k < i ==> s.used[k]) && s'.used == s.used[i := true]
      && s'.frames == s.frames && s'.free == s.free
      && s'.tables[i][0x300] == Pde(Flag(true, true, f.user, f.pwt, f.pcd, f.accessed, f.dirty, true),
                                    scratch.middle, scratch.lower)
      && (forall p: Page :: p != 0x300 ==> Blank(s'.tables[i][p]))
      && forall d: Directory :: d != i ==> s'.tables[d] == s.tables[d]
  }

  lemma CreateSets(s: State, scratch: Pde)
    ensures var (s', i) := Create(s, scratch); Created(s, s', scratch, i)
  {
    hide FirstClear;
  }

  /** Releasing marks the directory as unused and blanks all its entries; frames and count stay. */
  predicate Released(s: State, s': State, d: Directory) {
    && s'.used == s.used[d := false] && s'.frames == s.frames && s'.free == s.free
    && (forall p: Page :: Blank(s'.tables[d][p]))
    && forall d': Directory :: d' != d ==> s'.tables[d'] == s.tables[d']
  }

  lemma ReleaseSets(s: State, d: Directory)
    ensures Released(s, Release(s, d), d)
  {
  }

  /** At start-up only frame 0 is taken, 31 are counted free, and no directory is in use. */
  lemma StartIs()
    ensures START.frames[0] && (forall i :: 1 <= i < 32 ==> !START.frames[i]) && START.free == 31
    ensures forall d: Directory :: !START.used[d]
    ensures forall d: Directory, p: Page :: Blank(START.tables[d][p])
  {
  }

  // ---- ownership ----

  predicate Owns(s: State, d: Directory, p: UserPage) {
    s.tables[d][p].flag.present
  }

  function FrameAt(s: State, d: Directory, p: UserPage): nat {
    s.tables[d][p].lower
  }

  /** How many of the first `n` frames are free. */
  function Clear(s: Frames, n: nat): (k: nat)
    requires n <= 32
    ensures k <= n
  {
    if n == 0 then 0 else Clear(s, n - 1) + (if s[n - 1] then 0 else 1)
  }

  /** Frame 0 is taken, the count is right, and every mapped user page has a frame of its own. */
  ghost predicate Inv(s: State) {
    && s.frames[0] && s.free == Clear(s.frames, 32)
    && (forall d: Directory, p: UserPage {:trigger Owns(s, d, p)} :: Owns(s, d, p) ==>
          0 < FrameAt(s, d, p) < FRAME_COUNT && s.frames[FrameAt(s, d, p)])
    && (forall d: Directory, p: UserPage, d': Directory, p': UserPage {:trigger Owns(s, d, p), Owns(s, d', p')} ::
          Owns(s, d, p) && Owns(s, d', p') && FrameAt(s, d, p) == FrameAt(s, d', p') ==> d == d' && p == p')
  }

  ghost predicate Owned(s: State, i: nat) {
    exists d: Directory, p: UserPage :: Owns(s, d, p) && FrameAt(s, d, p) == i
  }

  // ---- counting ----

  lemma {:induction false} ClearSet(s: Frames, i: nat, b: bool, n: nat, s': Frames)
    requires i < 32 && n <= 32 && s' == s[i := b]
    ensures Clear(s', n) == Clear(s, n) + (if i >= n || s[i] == b then 0 else if b then -1 else 1)
  {
    if n > 0 {
      ClearSet(s, i, b, n - 1, s');
    }
  }

  lemma {:induction false} ClearNone(s: Frames, n: nat)
    requires n <= 32
    ensures Clear(s, n) == 0 <==> forall k :: 0 <= k < n ==> s[k]
  {
    if n > 0 {
      ClearNone(s, n - 1);
    }
  }

  // ---- every step keeps the invariant ----

  lemma StartInv()
    ensures Inv(START)
  {
    AllClear(Repeat(32, false), 32);
    ClearSet(Repeat(32, false), 0, true, 32, START.frames);
  }

  lemma {:induction false} AllClear(s: Frames, n: nat)
    requires n <= 32 && forall k :: 0 <= k < n ==> !s[k]
    ensures Clear(s, n) == n
  {
    if n > 0 {
      AllClear(s, n - 1);
    }
  }

  /** What changing one entry does to ownership. */
  lemma OwnsAfter(s: State, d: Directory, p: UserPage, e: Pde, s': State)
    requires s'.tables == SetEntry(s, d, p, e).tables
    ensures forall d': Directory, p': UserPage {:trigger Owns(s', d', p')} {:trigger FrameAt(s', d', p')} ::
      if d' == d && p' == p then Owns(s', d', p') == e.flag.present && FrameAt(s', d', p') == e.lower
      else Owns(s', d', p') == Owns(s, d', p') && FrameAt(s', d', p') == FrameAt(s, d', p')
  {
  }

  /** An allocation hands out the lowest free frame, which nobody owned. */
  lemma AllocateInv(s: State, d: Directory, p: UserPage, scratch: Flag)
    requires Inv(s)
    ensures var (s', ok) := Allocate(s, d, p, scratch);
      && Inv(s') && (ok <==> s.free > 0) && (!ok ==> s' == s)
      && (ok ==> Owns(s', d, p) && 0 < FrameAt(s', d, p) < FRAME_COUNT && !s.frames[FrameAt(s', d, p)]
                 && s'.frames == s.frames[FrameAt(s', d, p) := true] && s'.free == s.free - 1
                 && forall k :: 0 <= k < FrameAt(s', d, p) ==> s.frames[k])
  {
    hide Owns, FrameAt, FirstClear, Clear;
    ClearNone(s.frames, 32);
    var i := FirstClear(s.frames, 0);
    if i < 32 {
      var s' := Allocate(s, d, p, scratch).0;
      ClearSet(s.frames, i, true, 32, s'.frames);
      OwnsAfter(s, d, p, s'.tables[d][p], s');
    }
  }

  /** Freeing gives back the frame of a mapped page, and unmaps the page. */
  lemma FreeInv(s: State, d: Directory, p: UserPage, scratch: Flag)
    requires Inv(s)
    ensures FreeDefined(s, d, p)
    ensures var (s', ok) := Free(s, d, p, scratch);
      && Inv(s') && (ok <==> Owns(s, d, p)) && (!ok ==> s' == s)
      && (ok ==> !Owns(s', d, p) && s'.frames == s.frames[FrameAt(s, d, p) := false] && s'.free == s.free + 1)
  {
    if Owns(s, d, p) {
      var s' := Free(s, d, p, scratch).0;
      ClearSet(s.frames, FrameAt(s, d, p), false, 32, s'.frames);
      OwnsAfter(s, d, p, s'.tables[d][p], s');
      assert Clear(s'.frames, 32) <= 32;
      hide Owns, FrameAt;
    }
  }

  /** Emptying a directory's user pages takes away ownership, and changes no other directory. */
  lemma WipeInv(s: State, d: Directory, t: Table, s': State)
    requires Inv(s) && s'.frames == s.frames && s'.free == s.free && s'.tables == s.tables[d := t]
    requires forall p: UserPage :: !t[p].flag.present
    ensures Inv(s')
    ensures forall d': Directory, p: UserPage {:trigger Owns(s', d', p)} ::
      Owns(s', d', p) <==> d' != d && Owns(s, d', p)
  {
    assert forall d': Directory, p: UserPage {:trigger Owns(s', d', p)} {:trigger FrameAt(s', d', p)} ::
        (Owns(s', d', p) <==> d' != d && Owns(s, d', p)) && (d' != d ==> FrameAt(s', d', p) == FrameAt(s, d', p));
    hide Owns, FrameAt;
  }

  lemma CreateInv(s: State, scratch: Pde)
    requires Inv(s)
    ensures Inv(Create(s, scratch).0)
    ensures var (s', i) := Create(s, scratch);
      if i < DIRECTORY_COUNT then
        !s.used[i] && s'.used == s.used[i := true] && forall p: UserPage :: !Owns(s', i, p)
      else s' == s && forall k :: 0 <= k < DIRECTORY_COUNT ==> s.used[k]
  {
    var (s', i) := Create(s, scratch);
    if i < DIRECTORY_COUNT {
      WipeInv(s, i, EMPTY_TABLE[KERNEL_PAGE := KernelEntry(scratch)], s');
    }
  }

  lemma ReleaseInv(s: State, d: Directory)
    requires Inv(s)
    ensures Inv(Release(s, d)) && forall p: UserPage :: !Owns(Release(s, d), d, p)
  {
    WipeInv(s, d, EMPTY_TABLE, Release(s, d));
  }

  // ---- runs ----

  datatype Op =
    | DoAllocate(d: Directory, p: UserPage, scratch: Flag)
    | DoFree(d: Directory, p: UserPage, scratch: Flag)
    | DoCreate(entry: Pde)
    | DoRelease(d: Directory)

  ghost function Exec(s: State, op: Op): State
    requires Inv(s)
  {
    match op
    case DoAllocate(d, p, scratch) => Allocate(s, d, p, scratch).0
    case DoFree(d, p, scratch) => FreeInv(s, d, p, scratch); Free(s, d, p, scratch).0
    case DoCreate(entry) => Create(s, entry).0
    case DoRelease(d) => Release(s, d)
  }

  lemma ExecInv(s: State, op: Op)
    requires Inv(s)
    ensures Inv(Exec(s, op))
  {
    hide Inv, Owns, FrameAt;
    match op
    case DoAllocate(d, p, scratch) => AllocateInv(s, d, p, scratch);
    case DoFree(d, p, scratch) => FreeInv(s, d, p, scratch);
    case DoCreate(entry) => CreateInv(s, entry);
    case DoRelease(d) => ReleaseInv(s, d);
  }

  /** In every state a run from start-up reaches, ownership is exclusive and the count is right. */
  ghost function Run(ops: seq<Op>): (s: State)
    ensures Inv(s)
  {
    if ops == [] then StartInv(); START
    else
      var s := Run(ops[..|ops| - 1]);
      ExecInv(s, ops[|ops| - 1]);
      Exec(s, ops[|ops| - 1])
  }

  // ---- which frames are lost ----

  /** Frames marked as taken that no user page maps: nothing will ever free them. */
  ghost function Lost(s: State): set<nat> {
    set i: nat | 0 < i < FRAME_COUNT && s.frames[i] && !Owned(s, i)
  }

  ghost predicate OwnedIn(s: State, d: Directory, i: nat) {
    exists p: UserPage :: Owns(s, d, p) && FrameAt(s, d, p) == i
  }

  ghost function FramesOf(s: State, d: Directory): set<nat> {
    set i: nat | 0 < i < FRAME_COUNT && OwnedIn(s, d, i)
  }

  /** The frames an operation leaves mapped nowhere. */
  ghost function Dropped(s: State, op: Op): set<nat> {
    match op
    case DoAllocate(d, p, _) => if s.free > 0 && Owns(s, d, p) then {FrameAt(s, d, p)} else {}
    case DoFree(_, _, _) => {}
    case DoCreate(_) => var i := FirstClear(s.used, 0); if i < DIRECTORY_COUNT then FramesOf(s, i) else {}
    case DoRelease(d) => FramesOf(s, d)
  }

  /** Exactly the frames an operation drops are lost: those of a page mapped anew, or of a directory let go. */
  lemma LosesDropped(s: State, op: Op)
    requires Inv(s)
    ensures Lost(Exec(s, op)) == Lost(s) + Dropped(s, op)
  {
    match op {
      case DoAllocate(d, p, scratch) => AllocateDrops(s, d, p, scratch);
      case DoFree(d, p, scratch) => FreeDrops(s, d, p, scratch);
      case DoCreate(entry) =>
        var (s', i) := Create(s, entry);
        if i < DIRECTORY_COUNT {
          WipeDrops(s, i, EMPTY_TABLE[KERNEL_PAGE := KernelEntry(entry)], s');
        }
      case DoRelease(d) => WipeDrops(s, d, EMPTY_TABLE, Release(s, d));
    }
  }

  lemma AllocateDrops(s: State, d: Directory, p: UserPage, scratch: Flag)
    requires Inv(s)
    ensures Lost(Allocate(s, d, p, scratch).0) == Lost(s) + Dropped(s, DoAllocate(d, p, scratch))
  {
    var (s', ok) := Allocate(s, d, p, scratch);
    AllocateInv(s, d, p, scratch);
    if ok {
      OwnsAfter(s, d, p, s'.tables[d][p], s');
      hide Owns, FrameAt, Allocate;
      forall i: nat | 0 < i < FRAME_COUNT
        ensures i in Lost(s') <==> i in Lost(s) + Dropped(s, DoAllocate(d, p, scratch))
      {
        if Owned(s, i) {
          var d0: Directory, p0: UserPage :| Owns(s, d0, p0) && FrameAt(s, d0, p0) == i;
          assert (d0 == d && p0 == p) || (Owns(s', d0, p0) && FrameAt(s', d0, p0) == i);
        }
      }
    }
  }

  lemma FreeDrops(s: State, d: Directory, p: UserPage, scratch: Flag)
    requires Inv(s)
    ensures FreeDefined(s, d, p) && Lost(Free(s, d, p, scratch).0) == Lost(s)
  {
    FreeInv(s, d, p, scratch);
    var (s', ok) := Free(s, d, p, scratch);
    if ok {
      OwnsAfter(s, d, p, s'.tables[d][p], s');
      hide Owns, FrameAt, Free;
      forall i: nat | 0 < i < FRAME_COUNT
        ensures i in Lost(s') <==> i in Lost(s)
      {
        if Owned(s, i) {
          var d0: Directory, p0: UserPage :| Owns(s, d0, p0) && FrameAt(s, d0, p0) == i;
          assert (d0 == d && p0 == p) || (Owns(s', d0, p0) && FrameAt(s', d0, p0) == i);
        }
      }
    }
  }

  lemma WipeDrops(s: State, d: Directory, t: Table, s': State)
    requires Inv(s) && s'.frames == s.frames && s'.free == s.free && s'.tables == s.tables[d := t]
    requires forall p: UserPage :: !t[p].flag.present
    ensures Lost(s') == Lost(s) + FramesOf(s, d)
  {
    WipeInv(s, d, t, s');
    assert forall d': Directory, p: UserPage {:trigger FrameAt(s', d', p)} ::
        d' != d ==> FrameAt(s', d', p) == FrameAt(s, d', p);
    hide Owns, FrameAt;
    forall i: nat | 0 < i < FRAME_COUNT
      ensures i in Lost(s') <==> i in Lost(s) + FramesOf(s, d)
    {
      if Owned(s, i) {
        var d0: Directory, p0: UserPage :| Owns(s, d0, p0) && FrameAt(s, d0, p0) == i;
        assert d0 == d || (Owns(s', d0, p0) && FrameAt(s', d0, p0) == i);
      }
    }
  }

  /** Mapping a page of a new system twice loses its first frame. */
  lemma LossExample(d: Directory, p: UserPage, scratch: Flag) returns (s: State)
    ensures Inv(s) && Owns(s, d, p) && s == Allocate(START, d, p, scratch).0
    ensures Lost(s) == {} && Lost(Allocate(s, d, p, scratch).0) == {FrameAt(s, d, p)}
  {
    StartInv();
    assert Lost(START) == {};
    s := Allocate(START, d, p, scratch).0;
    AllocateInv(START, d, p, scratch);
    hide Inv, Allocate, Owns, FrameAt, Lost;
    AllocateDrops(START, d, p, scratch);
    AllocateDrops(s, d, p, scratch);
  }

  // ---- reservation and undo ----

  datatype Place = Place(d: Directory, p: UserPage)

  predicate Maps(s: State, x: Place) {
    Owns(s, x.d, x.p)
  }

  function FrameOf(s: State, x: Place): nat {
    FrameAt(s, x.d, x.p)
  }

  /** The state after allocating at each place in turn, and the frames handed out. */
  function AllocateAll(s: State, xs: seq<Place>, scratch: seq<Flag>): (State, seq<nat>)
    requires |xs| == |scratch|
  {
    if xs == [] then (s, [])
    else
      var n := |xs| - 1;
      var (t, given) := AllocateAll(s, xs[..n], scratch[..n]);
      var (u, ok) := Allocate(t, xs[n].d, xs[n].p, scratch[n]);
      (u, if ok then given + [FrameOf(u, xs[n])] else given)
  }

  lemma AllocateAllNext(s: State, xs: seq<Place>, scratch: seq<Flag>)
    requires |xs| == |scratch| && xs != []
    ensures var n := |xs| - 1;
      var (t, given) := AllocateAll(s, xs[..n], scratch[..n]);
      var (u, ok) := Allocate(t, xs[n].d, xs[n].p, scratch[n]);
      AllocateAll(s, xs, scratch) == (u, if ok then given + [FrameOf(u, xs[n])] else given)
  {
    hide Allocate, FrameOf;
  }

  /** Frames handed out one after the other: free before, taken after, each above the last. */
  ghost predicate Handed(s: State, t: State, given: seq<nat>) {
    && (forall i :: 0 <= i < |given| ==> 0 < given[i] < FRAME_COUNT && !s.frames[given[i]])
    && (forall i, j :: 0 <= i < j < |given| ==> given[i] < given[j])
    && (forall k: nat :: k < FRAME_COUNT ==> (t.frames[k] <==> s.frames[k] || k in given))
    && (forall k: nat, i :: 0 <= i < |given| && k <= given[i] ==> t.frames[k])
  }

  /**
   * `paging_allocate_check` reserves: if and only if it says yes to `n`, the next `n` allocations,
   * wherever they are asked for, all succeed, with distinct frames.
   */
  lemma {:induction false} CheckReserves(s: State, xs: seq<Place>, scratch: seq<Flag>)
    requires Inv(s) && |xs| == |scratch|
    ensures var (t, given) := AllocateAll(s, xs, scratch);
      && Inv(t) && Handed(s, t, given) && t.free as int == s.free - |given|
      && |given| == (if s.free < |xs| then s.free else |xs|)
    ensures |xs| < 0x1_0000_0000 ==> (Check(s, |xs|) <==> |AllocateAll(s, xs, scratch).1| == |xs|)
  {
    if xs != [] {
      var n := |xs| - 1;
      CheckReserves(s, xs[..n], scratch[..n]);
      var (t, given) := AllocateAll(s, xs[..n], scratch[..n]);
      AllocateInv(t, xs[n].d, xs[n].p, scratch[n]);
      var (u, ok) := Allocate(t, xs[n].d, xs[n].p, scratch[n]);
      AllocateAllNext(s, xs, scratch);
      hide Inv, Allocate, AllocateAll;
      if ok {
        HandedNext(s, t, given, u, FrameOf(u, xs[n]));
      }
    }
  }

  lemma HandedNext(s: State, t: State, given: seq<nat>, u: State, f: nat)
    requires Handed(s, t, given) && 0 < f < FRAME_COUNT && !t.frames[f] && u.frames == t.frames[f := true]
    requires forall k :: 0 <= k < f ==> t.frames[k]
    ensures Handed(s, u, given + [f])
  {
  }

  /** Compared with `s`, `t` maps besides the places `xs`, each to the frame given for it. */
  ghost predicate MapsToo(s: State, t: State, xs: seq<Place>, given: seq<nat>) {
    && |given| == |xs|
    && (forall x: Place {:trigger Maps(t, x)} :: Maps(t, x) <==> Maps(s, x) || x in xs)
    && (forall x: Place {:trigger FrameOf(t, x)} :: x !in xs ==> FrameOf(t, x) == FrameOf(s, x))
    && (forall i :: 0 <= i < |xs| ==> FrameOf(t, xs[i]) == given[i])
  }

  lemma MapsNext(s: State, t: State, xs: seq<Place>, given: seq<nat>, x: Place, u: State)
    requires MapsToo(s, t, xs, given) && x !in xs && Maps(u, x)
    requires u.tables == SetEntry(t, x.d, x.p, u.tables[x.d][x.p]).tables
    ensures MapsToo(s, u, xs + [x], given + [FrameOf(u, x)])
  {
    PlacesAfter(t, x, u.tables[x.d][x.p], u);
    hide Maps, FrameOf;
  }

  /** Allocating at distinct places maps them, each to the frame handed out for it. */
  lemma {:induction false} AllocateAllMaps(s: State, xs: seq<Place>, scratch: seq<Flag>)
    requires Inv(s) && |xs| == |scratch| <= s.free
    requires forall i, j :: 0 <= i < j < |xs| ==> xs[i] != xs[j]
    ensures var (t, given) := AllocateAll(s, xs, scratch); MapsToo(s, t, xs, given)
  {
    AllocateNothing(s);
    hide AllocateAll, MapsToo, FrameOf, Handed, Allocate, Maps, Inv;
    if xs != [] {
      var n := |xs| - 1;
      var (t, given) := AllocateAll(s, xs[..n], scratch[..n]);
      AllocateAllMaps(s, xs[..n], scratch[..n]);
      CheckReserves(s, xs[..n], scratch[..n]);
      AllocateAllNext(s, xs, scratch);
      AllocateMaps(t, xs[n], scratch[n]);
      MapsNext(s, t, xs[..n], given, xs[n], Allocate(t, xs[n].d, xs[n].p, scratch[n]).0);
      assert xs == xs[..n] + [xs[n]];
    }
  }

  lemma AllocateNothing(s: State)
    ensures AllocateAll(s, [], []) == (s, []) && MapsToo(s, s, [], [])
  {
  }

  lemma AllocateMaps(t: State, x: Place, scratch: Flag)
    requires Inv(t) && t.free > 0
    ensures var (u, ok) := Allocate(t, x.d, x.p, scratch);
      ok && Maps(u, x) && u.tables == SetEntry(t, x.d, x.p, u.tables[x.d][x.p]).tables
  {
    AllocateInv(t, x.d, x.p, scratch);
    hide Inv;
  }

  lemma PlacesAfter(s: State, x: Place, e: Pde, s': State)
    requires s'.tables == SetEntry(s, x.d, x.p, e).tables
    ensures forall y: Place {:trigger Maps(s', y)} {:trigger FrameOf(s', y)} ::
      if y == x then Maps(s', y) == e.flag.present && FrameOf(s', y) == e.lower
      else Maps(s', y) == Maps(s, y) && FrameOf(s', y) == FrameOf(s, y)
  {
    OwnsAfter(s, x.d, x.p, e, s');
  }

  /** The state after freeing each place in turn. */
  ghost function FreeAll(s: State, ys: seq<Place>, scratch: seq<Flag>): (t: State)
    requires Inv(s) && |ys| == |scratch|
    ensures Inv(t)
  {
    if ys == [] then s
    else
      var n := |ys| - 1;
      var t := FreeAll(s, ys[..n], scratch[..n]);
      FreeInv(t, ys[n].d, ys[n].p, scratch[n]);
      Free(t, ys[n].d, ys[n].p, scratch[n]).0
  }

  /** Some place in `ys` maps frame `i`. */
  ghost predicate Holds(s: State, ys: seq<Place>, i: nat) {
    exists y :: y in ys && Maps(s, y) && FrameOf(s, y) == i
  }

  /** Freeing places unmaps them and clears their frames, and does nothing else. */
  lemma {:induction false} FreeAllClears(s: State, ys: seq<Place>, scratch: seq<Flag>)
    requires Inv(s) && |ys| == |scratch|
    ensures var t := FreeAll(s, ys, scratch);
      && (forall x: Place {:trigger Maps(t, x)} :: Maps(t, x) <==> Maps(s, x) && x !in ys)
      && (forall x: Place {:trigger FrameOf(t, x)} :: Maps(t, x) ==> FrameOf(t, x) == FrameOf(s, x))
      && (forall i: nat :: i < FRAME_COUNT ==> (t.frames[i] <==> s.frames[i] && !Holds(s, ys, i)))
  {
    if ys != [] {
      var n := |ys| - 1;
      var y, t := ys[n], FreeAll(s, ys[..n], scratch[..n]);
      FreeAllClears(s, ys[..n], scratch[..n]);
      FreeInv(t, y.d, y.p, scratch[n]);
      var (u, ok) := Free(t, y.d, y.p, scratch[n]);
      assert FreeAll(s, ys, scratch) == u;
      if ok {
        PlacesAfter(t, y, u.tables[y.d][y.p], u);
      }
      assert ok <==> Maps(t, y);
      assert ok ==> !Maps(u, y) && u.frames == t.frames[FrameOf(t, y) := false];
      assert ys == ys[..n] + [y];
      HoldsNext(s, ys[..n], y);
      hide Inv, Free, FreeAll, Maps, FrameOf, Holds;
    }
  }

  lemma HoldsNext(s: State, ys: seq<Place>, y: Place)
    ensures forall i: nat :: Holds(s, ys + [y], i) <==> Holds(s, ys, i) || (Maps(s, y) && FrameOf(s, y) == i)
  {
    forall i: nat
      ensures Holds(s, ys + [y], i) <==> Holds(s, ys, i) || (Maps(s, y) && FrameOf(s, y) == i)
    {
      if Maps(s, y) && FrameOf(s, y) == i {
        assert y in ys + [y];
      }
      if Holds(s, ys, i) {
        var z :| z in ys && Maps(s, z) && FrameOf(s, z) == i;
        assert z in ys + [y];
      }
    }
  }

  /** Where the places held by frames handed out are freed, the bitmap is what it was before. */
  lemma FramesBack(s: State, m: State, t: State, xs: seq<Place>, fs: seq<nat>, ys: seq<Place>)
    requires Handed(s, m, fs) && MapsToo(s, m, xs, fs)
    requires forall x :: x in ys <==> x in xs
    requires forall i: nat :: i < FRAME_COUNT ==> (t.frames[i] <==> m.frames[i] && !Holds(m, ys, i))
    ensures t.frames == s.frames
  {
    hide Maps, FrameOf;
    forall i: nat | i < FRAME_COUNT
      ensures t.frames[i] == s.frames[i]
    {
      if i in fs {
        var j :| 0 <= j < |fs| && fs[j] == i;
        assert xs[j] in ys && Maps(m, xs[j]) && FrameOf(m, xs[j]) == i;
      }
      if Holds(m, ys, i) {
        var y :| y in ys && Maps(m, y) && FrameOf(m, y) == i;
        var j :| 0 <= j < |xs| && xs[j] == y;
      }
    }
  }

  /**
   * Undo: allocations at unmapped places, freed again in any order, leave the bitmap, the count
   * and every mapping as they were.
   */
  lemma UndoRestores(s: State, xs: seq<Place>, given: seq<Flag>, ys: seq<Place>, freed: seq<Flag>)
    requires Inv(s) && |xs| == |given| <= s.free && |ys| == |freed|
    requires forall i, j :: 0 <= i < j < |xs| ==> xs[i] != xs[j]
    requires forall x :: x in xs ==> !Maps(s, x)
    requires forall x :: x in ys <==> x in xs
    ensures Inv(AllocateAll(s, xs, given).0)
    ensures var t := FreeAll(AllocateAll(s, xs, given).0, ys, freed);
      && t.frames == s.frames && t.free == s.free
      && forall x: Place {:trigger Maps(t, x)} ::
           (Maps(t, x) <==> Maps(s, x)) && (Maps(s, x) ==> FrameOf(t, x) == FrameOf(s, x))
  {
    var (m, fs) := AllocateAll(s, xs, given);
    CheckReserves(s, xs, given);
    AllocateAllMaps(s, xs, given);
    FreeAllClears(m, ys, freed);
    var t := FreeAll(m, ys, freed);
    FramesBack(s, m, t, xs, fs, ys);
    assert t.free == s.free;
    hide AllocateAll, FreeAll, Maps, FrameOf, Inv, Handed, Holds;
  }
}
