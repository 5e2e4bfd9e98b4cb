/** What follows about runs on a freshly created volume: persistence, round trips, allocation. */
module FatTheorems {
  import opened Bytes
  import opened FatLayout
  import opened FatChains
  import opened Volume
  import opened VolumeSteps
  import opened FatOps
  import opened FatTables
  import opened FatSim
  import opened FatDelete
  import opened FatRead
  import opened FatRuns
  import opened AbstractFs

  // ---- the empty volume ----

  /** What `create_fat32` may copy from "root": the word, its NUL, and three bytes nobody chose. */
  predicate RootName(name: Name) {
    name[..5] == [114, 111, 111, 116, 0]
  }

  const ROOT_DEPTH: Depths := map[ROOT_CLUSTER := 0]

  function EmptyTree(name: Name): map<nat, Directory> {
    map[ROOT_CLUSTER := Directory(name, ROOT_CLUSTER, map[])]
  }

  function CreatedMap(): Fat {
    FirstMap()[ROOT_CLUSTER := END_OF_FILE]
  }

  lemma CreatedMapOk()
    ensures FatOk(CreatedMap()) && NoPredecessor(CreatedMap(), ROOT_CLUSTER)
    ensures FreeSet(CreatedMap()) == Range(3, CLUSTER_MAP_SIZE)
  {
    var f := CreatedMap();
    forall i | 3 <= i < CLUSTER_MAP_SIZE
      ensures LinkOk(f, i)
    {
      assert f[i] == EMPTY_ENTRY;
    }
  }

  lemma RootTableOk(name: Name, tabs: Tables)
    requires RootName(name) && tabs == map[ROOT_CLUSTER := RootTable(name)]
    ensures UniqueIds(tabs[ROOT_CLUSTER]) && SlotsOk(CreatedMap(), tabs, ROOT_CLUSTER)
    ensures HeaderOk(tabs, ROOT_DEPTH, ROOT_CLUSTER)
    ensures forall i :: 2 <= i < SLOTS ==> !tabs[ROOT_CLUSTER][i].Occupied()
  {
    var t := RootTable(name);
    assert name[0] == 114;
    assert t[0].Id() != t[1].Id();
    assert forall i :: 2 <= i < SLOTS ==> t[i] == ZERO_ENTRY;
  }

  /** A volume with one directory, its root, and nothing in it. */
  lemma RootOnlyShape(f: Fat, tabs: Tables)
    requires FatOk(f) && NoPredecessor(f, ROOT_CLUSTER) && tabs.Keys == {ROOT_CLUSTER}
    requires UniqueIds(tabs[ROOT_CLUSTER]) && SlotsOk(f, tabs, ROOT_CLUSTER)
    requires HeaderOk(tabs, ROOT_DEPTH, ROOT_CLUSTER)
    requires forall i :: 2 <= i < SLOTS ==> !tabs[ROOT_CLUSTER][i].Occupied()
    ensures Shape(f, tabs, ROOT_DEPTH)
    ensures forall c: nat, s: nat :: !Live(tabs, c, s)
  {
    assert f[ROOT_CLUSTER] == END_OF_FILE;
    hide HeaderOk, SlotsOk, UniqueIds, FatOk;
    assert DirOk(f, tabs, ROOT_DEPTH, ROOT_CLUSTER);
  }

  lemma RootOnlyInv(d: Disk, f: Fat, tabs: Tables)
    requires f == FatOf(d) && tabs == TablesOf(d, ROOT_DEPTH.Keys)
    requires Shape(f, tabs, ROOT_DEPTH) && forall c: nat, s: nat :: !Live(tabs, c, s)
    ensures Inv(d, ROOT_DEPTH) && Coherent(f, f)
  {
  }

  /** `create_fat32` leaves a well-formed volume holding an empty root, whatever the disk held. */
  lemma CreateStands(d: Disk, name: Name)
    requires RootName(name)
    ensures Stands(Machine(Replay(d, CreateWrites(name)), CreatedMap()), ROOT_DEPTH,
                   Abstract(EmptyTree(name), Range(3, CLUSTER_MAP_SIZE)))
  {
    hide CreatedMap, CreateWrites, Replay, Inv, Shape, DecodeTable, DecodeFat, Entries, HeaderOk, SlotsOk;
    hide UniqueIds, FatOk, Stands, TreeOf, Coherent;
    var d', f := Replay(d, CreateWrites(name)), CreatedMap();
    var tabs := map[ROOT_CLUSTER := RootTable(name)];
    CreatedDisk(d, name);
    RootTableOk(name, tabs);
    CreatedMapOk();
    RootOnlyShape(f, tabs);
    RootOnlyInv(d', f, tabs);
    CreatedTree(d', name);
    StandsHere(d', f, ROOT_DEPTH);
  }

  lemma CreatedTree(d: Disk, name: Name)
    ensures TreeOf(d, CreatedMap(), map[ROOT_CLUSTER := RootTable(name)]) == EmptyTree(name)
  {
    RootEmpty(d, name);
  }

  lemma CreatedDisk(d: Disk, name: Name)
    ensures var d' := Replay(d, CreateWrites(name));
      && FatOf(d') == CreatedMap()
      && TablesOf(d', ROOT_DEPTH.Keys) == map[ROOT_CLUSTER := RootTable(name)]
    ensures forall s :: 2 <= s < SLOTS ==> !RootTable(name)[s].Occupied()
  {
    var w := CreateWrites(name);
    var d' := Replay(d, w);
    ReplayThree(d, w[0], w[1], w[2]);
    assert w == [w[0], w[1], w[2]];
    DecodeEncodeFat(CreatedMap());
    DecodeEncodeTable(RootTable(name));
    hide DecodeTable, DecodeFat, EncodeTable, EncodeFat;
    assert TableOf(d', ROOT_CLUSTER) == RootTable(name);
  }

  lemma RootEmpty(d: Disk, name: Name)
    ensures Entries(d, CreatedMap(), RootTable(name)) == map[]
  {
    assert Ids(RootTable(name)) == {};
  }

  // ---- persistence ----

  /** Directories and free clusters never overlap. */
  lemma LiveNotFree(s: Machine, depth: Depths, a: Abstract)
    requires Stands(s, depth, a)
    ensures a.tree.Keys !! a.free
  {
    InvShape(s.disk, depth);
    forall c | c in depth
      ensures c !in a.free
    {
      assert DirOk(FatOf(s.disk), TablesOf(s.disk, depth.Keys), depth, c);
    }
  }

  predicate Holds(a: Abstract, p: nat, key: Key, b: seq<byte>) {
    p in a.tree && key in a.tree[p].entries && a.tree[p].entries[key] == File(b)
  }

  /** Only deleting a file makes it go away: no other operation touches its bytes. */
  lemma StepKeepsFile(a: Abstract, op: Op, p: nat, key: Key, b: seq<byte>)
    requires Holds(a, p, key, b) && a.tree.Keys !! a.free && Allowed(a, op)
    requires !(op.Delete? && op.p == p && op.key == key)
    ensures Holds(After(a, op), p, key, b)
  {
    if op.Write? && op.data == [] && !Taken(a.tree[op.p], op.key) && Ascending(a.free, 3) != [] {
      assert Ascending(a.free, 3)[0] in a.free;
    }
  }

  lemma {:induction false} RunKeepsFile(s: Machine, depth: Depths, a: Abstract, ops: seq<Op>,
                                        p: nat, key: Key, b: seq<byte>)
    requires Stands(s, depth, a) && AllAllowed(a, ops) && Holds(a, p, key, b)
    requires forall i :: 0 <= i < |ops| ==> !(ops[i].Delete? && ops[i].p == p && ops[i].key == key)
    ensures Holds(AfterAll(a, ops), p, key, b)
    decreases |ops|
  {
    hide Stands, Defined, Exec, After, Holds;
    if ops != [] {
      LiveNotFree(s, depth, a);
      StepKeepsFile(a, ops[0], p, key, b);
      var depth1 := ExecSimulates(s, depth, a, ops[0]);
      RunKeepsFile(Exec(s, ops[0]).0, depth1, After(a, ops[0]), ops[1..], p, key, b);
    }
  }

  /**
   * Round trip: write a file, do anything allowed except delete it, read it back. The bytes come
   * back, followed by zeros to the cluster boundary; and the read stays within the disk exactly
   * when the size is not a multiple of the cluster size.
   */
  lemma WriteThenRead(s: Machine, depth: Depths, a: Abstract, p: ImageCluster, key: Key, data: seq<byte>,
                      ops: seq<Op>, bufferSize: nat)
    requires Stands(s, depth, a) && data != [] && bufferSize > 0
    requires Allowed(a, Write(p, key, data)) && AbstractWrite(a, p, key, data).1 == 0
    requires AllAllowed(After(a, Write(p, key, data)), ops)
    requires forall i :: 0 <= i < |ops| ==> !(ops[i].Delete? && ops[i].p == p && ops[i].key == key)
    ensures Defined(s, Write(p, key, data)) && AllDefined(Exec(s, Write(p, key, data)).0, ops)
    ensures Exec(s, Write(p, key, data)).1 == Code(0)
    ensures var s' := Run(Exec(s, Write(p, key, data)).0, ops).0;
      ReadOutcome(s'.disk, s'.cached, p, key, bufferSize)
      == Reading(0, data + Padding(|data|), |data| % CLUSTER_SIZE != 0)
  {
    hide Stands, Exec, Defined, Answers;
    var w := Write(p, key, data);
    var depth1 := ExecSimulates(s, depth, a, w);
    WriteAnswer(a, s.disk[0], w, Exec(s, w).1);
    WrittenHolds(a, p, key, data);
    var s1, a1 := Exec(s, w).0, After(a, w);
    var depth2 := RunSimulates(s1, depth1, a1, ops);
    RunKeepsFile(s1, depth1, a1, ops, p, key, data);
    ReadHeld(Run(s1, ops).0, depth2, AfterAll(a1, ops), p, key, data, bufferSize);
  }

  lemma WriteAnswer(a: Abstract, boot: Cluster, op: Op, reply: Reply)
    requires op.Write? && op.p in a.tree && Answers(a, boot, op, reply)
    ensures reply == Code(AbstractWrite(a, op.p, op.key, op.data).1)
  {
  }

  lemma WrittenHolds(a: Abstract, p: ImageCluster, key: Key, data: seq<byte>)
    requires p in a.tree && data != [] && AbstractWrite(a, p, key, data).1 == 0
    ensures Holds(After(a, Write(p, key, data)), p, key, data)
  {
  }

  lemma ReadHeld(s: Machine, depth: Depths, a: Abstract, p: ImageCluster, key: Key, b: seq<byte>, bufferSize: nat)
    requires Stands(s, depth, a) && Holds(a, p, key, b) && bufferSize > 0
    ensures ReadOutcome(s.disk, s.cached, p, key, bufferSize)
         == Reading(0, b + Padding(|b|), |b| % CLUSTER_SIZE != 0)
  {
    hide Inv, TreeOf, TablesOf, DecodeTable, DecodeFat, Coherent;
    NotHeader(s.disk, depth, p, key);
    ReadsFile(s.disk, depth, s.cached, p, key, bufferSize);
  }

  lemma NotHeader(d: Disk, depth: Depths, p: nat, key: Key)
    requires Inv(d, depth) && p in depth && p < IMAGE_CLUSTERS
    requires p in Abs(d, depth).tree && key in Abs(d, depth).tree[p].entries
    ensures !IsSelf(Abs(d, depth).tree[p], key) && key != DOT_DOT_KEY
  {
    hide Inv, TreeOf, TablesOf, DecodeTable, DecodeFat;
    LookupCases(d, depth, p, key);
  }

  /** A file whose size is a multiple of the cluster size cannot be read without leaving the disk. */
  lemma FullClusterFaults(s: Machine, depth: Depths, a: Abstract, p: ImageCluster, key: Key, b: seq<byte>)
    requires Stands(s, depth, a) && Holds(a, p, key, b)
    ensures ReadOutcome(s.disk, s.cached, p, key, 1).complete <==> |b| % CLUSTER_SIZE != 0
  {
    ReadHeld(s, depth, a, p, key, b, 1);
  }

  // ---- the cached map ----

  /** `read` with the cached map returns what it would with the map reloaded from disk. */
  lemma CacheIsAsGood(s: Machine, depth: Depths, a: Abstract, p: ImageCluster, key: Key, bufferSize: nat)
    requires Stands(s, depth, a) && p in depth
    ensures ReadOutcome(s.disk, s.cached, p, key, bufferSize)
         == ReadOutcome(s.disk, FatOf(s.disk), p, key, bufferSize)
  {
    hide Inv, TreeOf, TablesOf, DecodeTable, DecodeFat, Coherent, Walk, FileEntryOk, Chain, ItemOf, FindId;
    var d, f := s.disk, FatOf(s.disk);
    LookupCases(d, depth, p, key);
    HeaderFacts(d, depth, p);
    var i := FindId(TableOf(d, p), key, 0);
    if i < SLOTS {
      var e := TableOf(d, p)[i];
      if e.filesize == 0 {
        MemberOnDisk(d, depth, p, i);
        OneCluster(d, s.cached, e.cluster);
        OneCluster(d, f, e.cluster);
      } else if i >= 2 {
        OccupiedIfSized(d, depth, p, i);
        MemberFacts(d, depth, p, i);
        MemberItem(d, depth, p, i);
        ReadFileEntry(d, f, s.cached, TablesOf(d, depth.Keys), e);
        SameIsCoherent(f);
        ReadFileEntry(d, f, f, TablesOf(d, depth.Keys), e);
      }
    }
  }

  lemma OccupiedIfSized(d: Disk, depth: Depths, p: nat, i: nat)
    requires Inv(d, depth) && p in depth && p < IMAGE_CLUSTERS && i < SLOTS && TableOf(d, p)[i].filesize > 0
    ensures TableOf(d, p)[i].Occupied()
  {
    InvShape(d, depth);
    ShapeTidy(FatOf(d), TablesOf(d, depth.Keys), depth, p);
  }

  // ---- first fit ----

  lemma PrefixIsLower(s: seq<nat>, n: nat, x: nat, y: nat)
    requires StrictlyUp(s) && n <= |s| && x in s[..n] && y in s && y !in s[..n]
    ensures x < y
  {
    assert s == s[..n] + s[n..];
    var i :| 0 <= i < n && s[..n][i] == x;
    var j :| 0 <= j < |s| - n && s[n..][j] == y;
    assert s[i] == x && s[n + j] == y;
  }

  /** The clusters a file takes are the lowest-numbered free ones. */
  lemma LowestAreLowest(free: set<nat>, n: nat)
    requires (forall x :: x in free ==> 3 <= x < CLUSTER_MAP_SIZE) && n <= |free|
    ensures |Ascending(free, 3)| == |free|
    ensures Lowest(free, n) <= free && |Lowest(free, n)| == n
    ensures forall x, y :: x in Lowest(free, n) && y in free && y !in Lowest(free, n) ==> x < y
  {
    AscendingCount(free, 3);
    var s := Ascending(free, 3);
    forall x, y | x in Lowest(free, n) && y in free && y !in Lowest(free, n)
      ensures x < y
    {
      AscendingComplete(free, 3, y);
      PrefixIsLower(s, n, x, y);
    }
    UpwardCount(s[..n]);
  }

  lemma {:induction false} UpwardCount(s: seq<nat>)
    requires StrictlyUp(s)
    ensures |ToSet(s)| == |s|
    decreases |s|
  {
    if s == [] {
      assert ToSet(s) == {};
    } else {
      var init, last := s[..|s| - 1], s[|s| - 1];
      UpwardCount(init);
      assert ToSet(s) == ToSet(init) + {last};
      assert last !in ToSet(init);
    }
  }

  /**
   * `write` of a new file succeeds exactly when enough clusters are free, taking the lowest;
   * otherwise it returns -1 and writes nothing at all.
   */
  lemma WriteSucceedsIff(s: Machine, depth: Depths, a: Abstract, op: Op) returns (s': Machine, reply: Reply)
    requires Stands(s, depth, a) && op.Write? && op.data != [] && op.p in a.tree
    requires !Taken(a.tree[op.p], op.key) && Allowed(a, op)
    ensures Defined(s, op) && (s', reply) == Exec(s, op)
    ensures |Ascending(a.free, 3)| == |a.free|
    ensures var need := CeilDiv(|op.data|, CLUSTER_SIZE);
      && (reply == Code(0) <==> need <= |a.free|)
      && (need <= |a.free| ==> FreeSet(FatOf(s'.disk)) == a.free - Lowest(a.free, need))
      && (need > |a.free| ==> reply == Code(-1) && s'.disk == s.disk)
  {
    hide Inv, TreeOf, TablesOf, DecodeTable, Coherent;
    var depth' := WriteStep(s, depth, a, op);
    s', reply := Exec(s, op).0, Exec(s, op).1;
    AscendingCount(a.free, 3);
    LookupAgrees(s.disk, depth, op.p, op.key);
  }

  // ---- chains of different files ----

  /** Two files of a volume share no cluster, and none runs through a directory. */
  lemma FilesDisjoint(s: Machine, depth: Depths, a: Abstract, c: nat, i: nat, c': nat, i': nat, x: nat)
    requires Stands(s, depth, a)
    requires var tabs := TablesOf(s.disk, depth.Keys);
      && Live(tabs, c, i) && tabs[c][i].attribute != ATTR_SUBDIRECTORY && tabs[c][i].cluster < CLUSTER_MAP_SIZE
      && Live(tabs, c', i') && tabs[c'][i'].attribute != ATTR_SUBDIRECTORY && tabs[c'][i'].cluster < CLUSTER_MAP_SIZE
      && x in Chain(FatOf(s.disk), tabs[c][i].cluster) && x in Chain(FatOf(s.disk), tabs[c'][i'].cluster)
    ensures c == c' && i == i' && x !in depth
  {
    InvShape(s.disk, depth);
    var f, tabs := FatOf(s.disk), TablesOf(s.disk, depth.Keys);
    LiveFile(f, tabs, depth, c, i);
    LiveFile(f, tabs, depth, c', i');
    ChainsDisjoint(f, tabs[c][i].cluster, tabs[c'][i'].cluster, x);
    if x in tabs {
      DirNotInFile(f, tabs, depth, x, c, i);
    }
  }

  // ---- the boot sector ----

  /** No run of allowed operations touches the boot sector: the storage stays marked. */
  lemma RunKeepsBoot(s: Machine, depth: Depths, a: Abstract, ops: seq<Op>)
    requires Stands(s, depth, a) && AllAllowed(a, ops)
    ensures AllDefined(s, ops) && Run(s, ops).0.disk[0] == s.disk[0]
  {
    hide Stands, AllAllowed, AllDefined, AllAnswer, Run, AfterAll;
    var depth' := RunSimulates(s, depth, a, ops);
  }

  // ---- every run from creation ----

  /**
   * From `create_fat32` on, whatever the disk held before, every run of allowed operations stays
   * defined, gives the answers the tree of directories gives, and ends on a disk standing for the
   * tree the operations make.
   */
  lemma EveryRun(d: Disk, name: Name, ops: seq<Op>) returns (depth: Depths)
    requires RootName(name) && AllAllowed(Abstract(EmptyTree(name), Range(3, CLUSTER_MAP_SIZE)), ops)
    ensures var s, a := Machine(Replay(d, CreateWrites(name)), CreatedMap()),
                        Abstract(EmptyTree(name), Range(3, CLUSTER_MAP_SIZE));
      && AllDefined(s, ops) && Stands(Run(s, ops).0, depth, AfterAll(a, ops))
      && AllAnswer(a, s.disk[0], ops, Run(s, ops).1)
  {
    hide Stands, Replay, CreateWrites, CreatedMap, AllDefined, AllAnswer, AllAllowed, AfterAll, Run;
    CreateStands(d, name);
    depth := RunSimulates(Machine(Replay(d, CreateWrites(name)), CreatedMap()), ROOT_DEPTH,
                          Abstract(EmptyTree(name), Range(3, CLUSTER_MAP_SIZE)), ops);
  }

  /**
   * The map on such a disk: reserved entries reserved, links upward to entries in use, no cluster
   * linked to twice; and every member's chain starts unlinked, ascends, and ends in END_OF_FILE.
   */
  lemma MapWellFormed(s: Machine, depth: Depths, a: Abstract, c: nat, i: nat)
    requires Stands(s, depth, a) && Live(TablesOf(s.disk, depth.Keys), c, i)
    ensures var f, h := FatOf(s.disk), TablesOf(s.disk, depth.Keys)[c][i].cluster;
      && FatOk(f) && 3 <= h < CLUSTER_MAP_SIZE && NoPredecessor(f, h)
      && StrictlyUp(Chain(f, h)) && f[Last(Chain(f, h))] == END_OF_FILE
      && forall x :: x in Chain(f, h) ==> f[x] != EMPTY_ENTRY
  {
    InvShape(s.disk, depth);
    var f, tabs := FatOf(s.disk), TablesOf(s.disk, depth.Keys);
    LiveFile(f, tabs, depth, c, i);
    var e := tabs[c][i];
    if e.attribute == ATTR_SUBDIRECTORY {
      assert DirOk(f, tabs, depth, e.cluster);
    }
    hide Inv, Shape;
    ChainWellFormed(f, e.cluster);
  }
}
