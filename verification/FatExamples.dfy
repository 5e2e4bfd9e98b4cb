/** Concrete calls on a new volume that go wrong, one for each exception the theorems make. */
module FatExamples {
  import opened Bytes
  import opened FatLayout
  import opened FatChains
  import opened Volume
  import opened FatOps
  import opened FatTables
  import opened FatMkdir
  import opened FatDelete
  import opened FatSim
  import opened FatRead
  import opened FatRuns
  import opened FatTheorems
  import opened FatExact
  import opened FatSteps
  import opened FatWrite
  import opened AbstractFs

  const ROOT_NAME: Name := [114, 111, 111, 116, 0, 0, 0, 0]
  const A_NAME: Name := [97, 0, 0, 0, 0, 0, 0, 0]
  const A_KEY: Key := Key(A_NAME, NO_EXT)
  const A_TXT: Key := Key(A_NAME, [116, 120, 116])

  const NEW: Abstract := Abstract(EmptyTree(ROOT_NAME), Range(3, CLUSTER_MAP_SIZE))

  /** A volume just created, over whatever the disk held. */
  function NewVolume(d: Disk): Machine {
    Machine(Replay(d, CreateWrites(ROOT_NAME)), CreatedMap())
  }

  lemma NewStands(d: Disk)
    ensures Stands(NewVolume(d), ROOT_DEPTH, NEW)
  {
    hide Stands, Replay, CreateWrites, CreatedMap;
    CreateStands(d, ROOT_NAME);
  }

  lemma NewFacts(key: Key)
    requires key.name == A_NAME
    ensures ROOT_CLUSTER in NEW.tree && !Taken(NEW.tree[ROOT_CLUSTER], key)
    ensures |Ascending(NEW.free, 3)| > 0 && Ascending(NEW.free, 3)[0] == 3
  {
    assert A_NAME[0] == 97 && ROOT_NAME[0] == 114 && DOT_DOT[0] == 46;
    assert 3 in NEW.free;
  }

  const MKDIR: Op := Write(ROOT_CLUSTER, A_KEY, [])

  const MADE: Abstract := After(NEW, MKDIR)

  lemma MadeFacts()
    ensures Allowed(NEW, MKDIR) && AbstractWrite(NEW, ROOT_CLUSTER, A_KEY, []).1 == 0
    ensures ROOT_CLUSTER in MADE.tree && MADE.tree[ROOT_CLUSTER].entries == map[A_KEY := SubDir(3)]
    ensures MADE.tree[ROOT_CLUSTER].name == ROOT_NAME
    ensures 3 in MADE.tree && MADE.tree[3] == Directory(A_NAME, ROOT_CLUSTER, map[])
    ensures 4 in MADE.free
  {
    hide Taken, Ascending, Range, After, AbstractWrite, WriteAllowed, EmptyTree;
    NewFacts(A_KEY);
    NewRoot();
    MkdirFacts(NEW);
  }

  lemma NewRoot()
    ensures ROOT_CLUSTER in NEW.tree && NEW.tree[ROOT_CLUSTER] == Directory(ROOT_NAME, ROOT_CLUSTER, map[])
    ensures 4 in NEW.free
  {
  }

  lemma MkdirFacts(a: Abstract)
    requires ROOT_CLUSTER in a.tree && a.tree[ROOT_CLUSTER] == Directory(ROOT_NAME, ROOT_CLUSTER, map[])
    requires !Taken(a.tree[ROOT_CLUSTER], A_KEY) && 4 in a.free
    requires |Ascending(a.free, 3)| > 0 && Ascending(a.free, 3)[0] == 3
    ensures Allowed(a, MKDIR) && AbstractWrite(a, ROOT_CLUSTER, A_KEY, []).1 == 0
    ensures var m := After(a, MKDIR);
      && ROOT_CLUSTER in m.tree && 3 in m.tree && 4 in m.free
      && m.tree[ROOT_CLUSTER] == Directory(ROOT_NAME, ROOT_CLUSTER, map[A_KEY := SubDir(3)])
      && m.tree[3] == Directory(A_NAME, ROOT_CLUSTER, map[])
  {
    hide Taken, Ascending;
    assert A_NAME[0] == 97;
  }

  /** Creating the directory "a" in a new root succeeds, in cluster 3. */
  lemma FirstMkdir(d: Disk) returns (s: Machine, depth: Depths)
    ensures Defined(NewVolume(d), MKDIR) && Exec(NewVolume(d), MKDIR) == (s, Code(0))
    ensures Stands(s, depth, MADE)
  {
    NewStands(d);
    MadeFacts();
    hide Stands, NewVolume, Defined, Exec, Allowed, After, AbstractWrite;
    depth := ExecSimulates(NewVolume(d), ROOT_DEPTH, NEW, MKDIR);
    s := Exec(NewVolume(d), MKDIR).0;
  }

  lemma FullClusterAllowed()
    ensures Allowed(NEW, Write(ROOT_CLUSTER, A_TXT, Zeros(CLUSTER_SIZE)))
    ensures AbstractWrite(NEW, ROOT_CLUSTER, A_TXT, Zeros(CLUSTER_SIZE)).1 == 0
  {
    hide Taken, Ascending, Range, EmptyTree;
    NewFacts(A_TXT);
    NewRoot();
    assert CeilDiv(CLUSTER_SIZE, CLUSTER_SIZE) == 1;
  }

  /** A file of 2048 bytes is written and reported written, and reading it back leaves the disk. */
  lemma FullClusterExample(d: Disk)
    ensures var s, w := NewVolume(d), Write(ROOT_CLUSTER, A_TXT, Zeros(CLUSTER_SIZE));
      && Defined(s, w) && Exec(s, w).1 == Code(0)
      && var s' := Exec(s, w).0; !ReadOutcome(s'.disk, s'.cached, ROOT_CLUSTER, A_TXT, CLUSTER_SIZE).complete
  {
    hide Stands, NewVolume, Exec, Defined, ReadOutcome, Allowed, AbstractWrite, EmptyTree, Range;
    NewStands(d);
    FullClusterAllowed();
    WriteThenRead(NewVolume(d), ROOT_DEPTH, NEW, ROOT_CLUSTER, A_TXT, Zeros(CLUSTER_SIZE), [], CLUSTER_SIZE);
  }

  /** Deleting "a" by its own name from inside it leaves no well-formed volume. */
  lemma SelfDeleteExample(d: Disk) returns (s: Machine)
    ensures Defined(NewVolume(d), MKDIR) && Exec(NewVolume(d), MKDIR) == (s, Code(0))
    ensures DeleteDefined(s.disk, 3, A_KEY) && DeleteOutcome(s.disk, 3, A_KEY).code == 0
    ensures !WellFormed(Replay(s.disk, DeleteOutcome(s.disk, 3, A_KEY).writes))
  {
    var depth;
    s, depth := FirstMkdir(d);
    MadeFacts();
    SelfDelete(s, depth, MADE, 3, A_KEY);
  }

  lemma SelfDelete(s: Machine, depth: Depths, a: Abstract, p: nat, key: Key)
    requires Stands(s, depth, a) && p in a.tree && p != ROOT_CLUSTER
    requires IsSelf(a.tree[p], key) && a.tree[p].entries == map[]
    ensures p < IMAGE_CLUSTERS && DeleteDefined(s.disk, p, key) && DeleteOutcome(s.disk, p, key).code == 0
    ensures !WellFormed(Replay(s.disk, DeleteOutcome(s.disk, p, key).writes))
  {
    hide Inv, TreeOf, TablesOf, DecodeTable, DecodeFat, Coherent, Replay, WellFormed;
    DeleteIsDefined(s.disk, depth, p, key);
    LookupCases(s.disk, depth, p, key);
    HeaderFacts(s.disk, depth, p);
    MembersAgree(s.disk, depth, p);
    SelfNotBlank(s.disk, depth, p);
    DeleteKeepsIff(s.disk, depth, p, key);
  }

  /** Creating "a" a second time, with an extension, is not refused, and the names clash. */
  lemma SameNameExample(d: Disk) returns (s: Machine)
    ensures Defined(NewVolume(d), MKDIR) && Exec(NewVolume(d), MKDIR) == (s, Code(0))
    ensures WriteOutcome(s.disk, ROOT_CLUSTER, A_TXT, []).code == 0
    ensures !WellFormed(Replay(s.disk, WriteOutcome(s.disk, ROOT_CLUSTER, A_TXT, []).writes))
  {
    var depth;
    s, depth := FirstMkdir(d);
    Clashing();
    hide Stands, NewVolume, Exec, WriteOutcome, Replay, WellFormed, Taken;
    NameClash(s, depth, MADE, ROOT_CLUSTER, A_TXT);
  }

  lemma Clashing()
    ensures ROOT_CLUSTER in MADE.tree && |MADE.tree[ROOT_CLUSTER].entries| < MEMBERS_MAX
    ensures !Taken(MADE.tree[ROOT_CLUSTER], A_TXT) && Taken(MADE.tree[ROOT_CLUSTER], A_KEY)
    ensures Ascending(MADE.free, 3) != []
  {
    hide Taken, After;
    MadeFacts();
    ClashingDir(MADE.tree[ROOT_CLUSTER]);
    AscendingComplete(MADE.free, 3, 4);
  }

  lemma ClashingDir(dir: Directory)
    requires dir.name == ROOT_NAME && dir.entries == map[A_KEY := SubDir(3)]
    ensures |dir.entries| < MEMBERS_MAX && !Taken(dir, A_TXT) && Taken(dir, A_KEY)
  {
    assert A_NAME[0] == 97 && ROOT_NAME[0] == 114 && DOT_DOT[0] == 46 && A_TXT.ext[0] == 116;
  }

  lemma NameClash(s: Machine, depth: Depths, a: Abstract, p: nat, key: Key)
    requires Stands(s, depth, a) && p in a.tree && |a.tree[p].entries| < MEMBERS_MAX
    requires !Taken(a.tree[p], key) && Taken(a.tree[p], Key(key.name, NO_EXT)) && Ascending(a.free, 3) != []
    ensures p < IMAGE_CLUSTERS && WriteOutcome(s.disk, p, key, []).code == 0
    ensures !WellFormed(Replay(s.disk, WriteOutcome(s.disk, p, key, []).writes))
  {
    hide Inv, TreeOf, TablesOf, DecodeTable, DecodeFat, Coherent, Replay, WellFormed, Taken;
    LookupAgrees(s.disk, depth, p, key);
    RoomForMember(s.disk, depth, p);
    assert MkdirGoesOn(s.disk, p, key) && WriteOutcome(s.disk, p, key, []).code == 0;
    hide WriteOutcome, MkdirGoesOn;
    MkdirKeepsIff(s.disk, depth, p, key);
  }

  // ---- blank names ----

  const BLANK_TXT: Key := Key(BLANK_KEY.name, [116, 120, 116])

  /** Creating a directory with a blank name and an extension is not refused, and leaves no well-formed volume. */
  lemma BlankMkdirExample(d: Disk)
    ensures var s := NewVolume(d);
      && WriteOutcome(s.disk, ROOT_CLUSTER, BLANK_TXT, []).code == 0
      && !WellFormed(Replay(s.disk, WriteOutcome(s.disk, ROOT_CLUSTER, BLANK_TXT, []).writes))
  {
    hide Stands, NewVolume, WriteOutcome, Replay, WellFormed, Taken, EmptyTree, Range;
    NewStands(d);
    NewFacts(A_KEY);
    NewRoot();
    BlankIsTaken();
    NameClash(NewVolume(d), ROOT_DEPTH, NEW, ROOT_CLUSTER, BLANK_TXT);
  }

  lemma BlankIsTaken()
    ensures var root := Directory(ROOT_NAME, ROOT_CLUSTER, map[]);
      !Taken(root, BLANK_TXT) && Taken(root, BLANK_KEY) && |root.entries| < MEMBERS_MAX && !IsSelf(root, BLANK_KEY)
  {
    assert BLANK_TXT.ext[0] == 116 && ROOT_NAME[0] == 114 && DOT_DOT[0] == 46;
  }

  /** The boot cluster with the signature, and zeros behind it, does not look like a directory with members. */
  lemma BootHasNoMembers(d: Disk)
    requires AllZero(d[0][BLOCK_SIZE..])
    ensures !HasMembers(TableOf(SignedDisk(d), 0))
  {
    hide Signature, SignedDisk;
    var c := SignedDisk(d)[0];
    forall i | 2 <= i < SLOTS
      ensures !TableOf(SignedDisk(d), 0)[i].Occupied()
    {
      assert EntryBytes(c, i)[12] == c[32 * i + 12];
      BootByte(d, 32 * i + 12);
    }
  }

  /** None of the bytes where a table has its occupied marks, from slot 2 on, is such a mark. */
  lemma BootByte(d: Disk, k: nat)
    requires AllZero(d[0][BLOCK_SIZE..]) && k < CLUSTER_SIZE && (k == 76 || k >= 80)
    ensures SignedDisk(d)[0][k] < 0x80
  {
    hide Signature;
    if k < BLOCK_SIZE {
      SignatureByte(k);
    } else {
      assert d[0][BLOCK_SIZE..][k - BLOCK_SIZE] == 0;
    }
  }

  lemma SignatureByte(k: nat)
    requires k < BLOCK_SIZE && (k == 76 || k >= 80)
    ensures Signature()[k] < 0x80
  {
  }

  /** Deleting a blank name in the root of a new volume is reported done and leaves no well-formed volume. */
  lemma BlankDeleteExample(d: Disk)
    requires AllZero(d[0][BLOCK_SIZE..])
    ensures var s := NewVolume(SignedDisk(d));
      && DeleteDefined(s.disk, ROOT_CLUSTER, BLANK_KEY) && DeleteOutcome(s.disk, ROOT_CLUSTER, BLANK_KEY).code == 0
      && !WellFormed(Replay(s.disk, DeleteOutcome(s.disk, ROOT_CLUSTER, BLANK_KEY).writes))
  {
    hide Stands, NewVolume, Replay, WellFormed, Taken, EmptyTree, Range, SignedDisk;
    var s := NewVolume(SignedDisk(d));
    NewStands(SignedDisk(d));
    NewRoot();
    BlankIsTaken();
    BootHasNoMembers(d);
    BootKept(SignedDisk(d));
    BlankDelete(s, ROOT_DEPTH, NEW, ROOT_CLUSTER);
  }

  lemma BootKept(d: Disk)
    ensures NewVolume(d).disk[0] == d[0]
  {
    hide EncodeFat, EncodeTable, RootTable, FirstMap;
    ReplayElsewhere(d, CreateWrites(ROOT_NAME), 0);
  }

  lemma BlankDelete(s: Machine, depth: Depths, a: Abstract, p: nat)
    requires Stands(s, depth, a) && p in a.tree && |a.tree[p].entries| < MEMBERS_MAX
    requires !HasMembers(TableOf(s.disk, 0))
    ensures p < IMAGE_CLUSTERS && DeleteDefined(s.disk, p, BLANK_KEY) && DeleteOutcome(s.disk, p, BLANK_KEY).code == 0
    ensures !WellFormed(Replay(s.disk, DeleteOutcome(s.disk, p, BLANK_KEY).writes))
  {
    hide Inv, TreeOf, TablesOf, DecodeTable, DecodeFat, Coherent, Replay, WellFormed, HasMembers;
    DeleteKeepsIff(s.disk, depth, p, BLANK_KEY);
    BlankLookup(s.disk, depth, p);
  }
}
