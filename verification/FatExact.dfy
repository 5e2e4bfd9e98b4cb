/**
 * Exactly when a volume stays well-formed, what a delete leaves alone, and the tree shape.
 */
module FatExact {
  import opened FatLayout
  import opened FatChains
  import opened Volume
  import opened ShapeSteps
  import opened VolumeSteps
  import opened VolumeEdits
  import opened FatOps
  import opened FatWrite
  import opened FatMkdir
  import opened FatSim
  import opened FatDelete
  import opened FatRead
  import opened FatRuns
  import opened AbstractFs

  // ---- the live directories are determined by the disk ----

  /** Members of directories other than `x`, itself without members, are still there. */
  ghost predicate MembersKept(tabs: Tables, tabs': Tables, x: nat) {
    && (x in tabs ==> EmptyTable(tabs[x]))
    && forall c: nat, s: nat {:trigger Live(tabs, c, s)} ::
         Live(tabs, c, s) && c in tabs' ==> tabs'[c][s] == tabs[c][s]
  }

  lemma {:induction false} DirsPersist(f: Fat, tabs: Tables, depth: Depths,
                                       f': Fat, tabs': Tables, depth': Depths, x: nat, c: nat)
    requires Shape(f, tabs, depth) && Shape(f', tabs', depth') && MembersKept(tabs, tabs', x)
    requires c in tabs && c != x && c in depth
    ensures c in tabs'
    decreases depth[c]
  {
    assert DirOk(f, tabs, depth, c);
    if c != ROOT_CLUSTER {
      var q := ParentOf(tabs[c]);
      var i: nat :| Live(tabs, q, i) && tabs[q][i].cluster == c;
      LiveFile(f, tabs, depth, q, i);
      DirsPersist(f, tabs, depth, f', tabs', depth', x, q);
      MemberPersists(f', tabs', depth', q, i, tabs[q][i]);
    }
  }

  lemma MemberPersists(f': Fat, tabs': Tables, depth': Depths, q: nat, i: nat, e: Entry)
    requires Shape(f', tabs', depth') && q in tabs' && 2 <= i < SLOTS && tabs'[q][i] == e
    requires e.Occupied() && e.attribute == ATTR_SUBDIRECTORY
    ensures e.cluster in tabs'
  {
    assert Live(tabs', q, i);
    LiveFile(f', tabs', depth', q, i);
  }

  lemma {:induction false} SameDepth(f: Fat, tabs: Tables, depth: Depths, depth': Depths, c: nat)
    requires Shape(f, tabs, depth) && Shape(f, tabs, depth') && c in tabs && c in depth
    ensures c in depth' && depth[c] == depth'[c]
    decreases depth[c]
  {
    assert DirOk(f, tabs, depth, c) && DirOk(f, tabs, depth', c);
    if c != ROOT_CLUSTER {
      SameDepth(f, tabs, depth, depth', ParentOf(tabs[c]));
    }
  }

  /** A disk determines its live directories and their depths: the volume on it is unique. */
  lemma DepthUnique(d: Disk, depth: Depths, depth': Depths)
    requires Inv(d, depth) && Inv(d, depth')
    ensures depth == depth'
  {
    InvShape(d, depth);
    InvShape(d, depth');
    hide Inv;
    var f, tabs, tabs' := FatOf(d), TablesOf(d, depth.Keys), TablesOf(d, depth'.Keys);
    SubDirs(d, depth, depth');
    SubDirs(d, depth', depth);
    assert tabs == tabs';
    forall c | c in depth
      ensures depth[c] == depth'[c]
    {
      SameDepth(f, tabs, depth, depth', c);
    }
  }

  lemma SubDirs(d: Disk, depth: Depths, depth': Depths)
    requires Shape(FatOf(d), TablesOf(d, depth.Keys), depth)
    requires Shape(FatOf(d), TablesOf(d, depth'.Keys), depth')
    ensures depth.Keys <= depth'.Keys
  {
    var f, tabs, tabs' := FatOf(d), TablesOf(d, depth.Keys), TablesOf(d, depth'.Keys);
    assert 0 in tabs ==> DirOk(f, tabs, depth, 0);
    forall c | c in depth
      ensures c in depth'
    {
      DirsPersist(f, tabs, depth, f, tabs', depth', 0, c);
    }
  }

  // ---- delete: exactly when it keeps the volume ----

  ghost predicate WellFormed(d: Disk) {
    exists depth :: Inv(d, depth)
  }

  lemma SelfDeleteDisk(d: Disk, depth: Depths, p: nat, key: Key, g: Fat)
    requires Inv(d, depth) && p in depth && p < IMAGE_CLUSTERS && DeleteDefined(d, p, key)
    requires p in Abs(d, depth).tree && IsSelf(Abs(d, depth).tree[p], key)
    requires p != ROOT_CLUSTER && Abs(d, depth).tree[p].entries == map[]
    requires p < CLUSTER_MAP_SIZE && g == FatOf(d)[p := EMPTY_ENTRY]
    ensures var d' := Replay(d, DeleteOutcome(d, p, key).writes);
      FatOf(d') == g && forall c :: 0 <= c < IMAGE_CLUSTERS && c != p && c != FAT_CLUSTER ==> d'[c] == d[c]
  {
    hide Inv, Shape, TreeOf, DecodeTable, EncodeTable, DecodeFat, EncodeFat, HasMembers, FindId, Chain, Replay;
    LookupCases(d, depth, p, key);
    HeaderFacts(d, depth, p);
    MembersAgree(d, depth, p);
    InvShape(d, depth);
    DirRange(FatOf(d), TablesOf(d, depth.Keys), depth, p);
    var w := DeleteOutcome(d, p, key).writes;
    ReplayThree(d, w[0], w[1], w[2]);
    assert w == [w[0], w[1], w[2]];
    DecodeEncodeFat(g);
  }

  lemma SelfDeleteMembers(d: Disk, depth: Depths, p: nat, d': Disk, depth': Depths)
    requires forall c :: 0 <= c < IMAGE_CLUSTERS && c != p && c != FAT_CLUSTER ==> d'[c] == d[c]
    requires Shape(FatOf(d), TablesOf(d, depth.Keys), depth) && p in depth && p < IMAGE_CLUSTERS
    requires !HasMembers(TableOf(d, p))
    ensures MembersKept(TablesOf(d, depth.Keys), TablesOf(d', depth'.Keys), p)
  {
    var f, tabs, tabs' := FatOf(d), TablesOf(d, depth.Keys), TablesOf(d', depth'.Keys);
    assert tabs[p] == TableOf(d, p);
    forall c: nat, s: nat | Live(tabs, c, s) && c in tabs'
      ensures tabs'[c][s] == tabs[c][s]
    {
      DirRange(f, tabs, depth, c);
      assert c != p;
    }
  }

  /** In any volume with the same members elsewhere, the directory is still in use. */
  lemma StillInUse(f: Fat, tabs: Tables, depth: Depths, g: Fat, tabs': Tables, depth': Depths, p: nat)
    requires Shape(f, tabs, depth) && p in tabs && p != ROOT_CLUSTER
    requires MembersKept(tabs, tabs', p) && Shape(g, tabs', depth')
    ensures p < CLUSTER_MAP_SIZE && g[p] == END_OF_FILE
  {
    assert DirOk(f, tabs, depth, p);
    var q := ParentOf(tabs[p]);
    var i: nat :| Live(tabs, q, i) && tabs[q][i].cluster == p;
    LiveFile(f, tabs, depth, q, i);
    DirsPersist(f, tabs, depth, g, tabs', depth', p, q);
    MemberPersists(g, tabs', depth', q, i, tabs[q][i]);
    assert DirOk(g, tabs', depth', p);
  }

  lemma StillInUseOnDisk(d: Disk, depth: Depths, p: nat, d': Disk, depth': Depths)
    requires Inv(d, depth) && p in depth && p < IMAGE_CLUSTERS && p != ROOT_CLUSTER
    requires !HasMembers(TableOf(d, p)) && Inv(d', depth')
    requires forall c :: 0 <= c < IMAGE_CLUSTERS && c != p && c != FAT_CLUSTER ==> d'[c] == d[c]
    ensures p < CLUSTER_MAP_SIZE && FatOf(d')[p] == END_OF_FILE
  {
    InvShape(d, depth);
    InvShape(d', depth');
    hide Inv;
    SelfDeleteMembers(d, depth, p, d', depth');
    StillInUse(FatOf(d), TablesOf(d, depth.Keys), depth, FatOf(d'), TablesOf(d', depth'.Keys), depth', p);
  }

  /** Deleting an empty directory from inside itself leaves its parent's member dangling. */
  lemma SelfDeleteBreaks(d: Disk, depth: Depths, p: nat, key: Key, depth': Depths)
    requires Inv(d, depth) && p in depth && p < CLUSTER_MAP_SIZE && DeleteDefined(d, p, key)
    requires p in Abs(d, depth).tree && IsSelf(Abs(d, depth).tree[p], key)
    requires p != ROOT_CLUSTER && Abs(d, depth).tree[p].entries == map[]
    ensures !Inv(Replay(d, DeleteOutcome(d, p, key).writes), depth')
  {
    hide Inv, TreeOf, TablesOf, DecodeTable, DecodeFat, DeleteOutcome, Replay;
    SelfDeleteDisk(d, depth, p, key, FatOf(d)[p := EMPTY_ENTRY]);
    MembersAgree(d, depth, p);
    if Inv(Replay(d, DeleteOutcome(d, p, key).writes), depth') {
      StillInUseOnDisk(d, depth, p, Replay(d, DeleteOutcome(d, p, key).writes), depth');
      assert false;
    }
  }

  lemma BlankDeleteMap(d: Disk, p: nat, s: nat)
    requires p < IMAGE_CLUSTERS && p != FAT_CLUSTER && DeleteDefined(d, p, BLANK_KEY)
    requires s == FindId(TableOf(d, p), BLANK_KEY, 0) && s < SLOTS && TableOf(d, p)[s] == ZERO_ENTRY
    requires !HasMembers(TableOf(d, 0))
    ensures FatOf(Replay(d, DeleteOutcome(d, p, BLANK_KEY).writes))[0] == EMPTY_ENTRY
  {
    var w := DeleteOutcome(d, p, BLANK_KEY).writes;
    var g := FatOf(d)[0 := EMPTY_ENTRY];
    ReplayThree(d, w[0], w[1], w[2]);
    assert w == [w[0], w[1], w[2]];
    DecodeEncodeFat(g);
  }

  /** Deleting a blank name clears the map entry of the boot cluster. */
  lemma BlankDeleteBreaks(d: Disk, depth: Depths, p: nat, depth': Depths)
    requires Inv(d, depth) && p in depth && p < IMAGE_CLUSTERS && DeleteDefined(d, p, BLANK_KEY)
    requires p in Abs(d, depth).tree && |Abs(d, depth).tree[p].entries| < MEMBERS_MAX
    requires !HasMembers(TableOf(d, 0))
    ensures !Inv(Replay(d, DeleteOutcome(d, p, BLANK_KEY).writes), depth')
  {
    hide Inv, TreeOf, TablesOf, DecodeTable, DecodeFat, DeleteOutcome, Replay;
    BlankLookup(d, depth, p);
    InvShape(d, depth);
    DirRange(FatOf(d), TablesOf(d, depth.Keys), depth, p);
    BlankDeleteMap(d, p, FindId(TableOf(d, p), BLANK_KEY, 0));
    if Inv(Replay(d, DeleteOutcome(d, p, BLANK_KEY).writes), depth') {
      InvFat(Replay(d, DeleteOutcome(d, p, BLANK_KEY).writes), depth');
      assert false;
    }
  }

  lemma InvFat(d: Disk, depth: Depths)
    requires Inv(d, depth)
    ensures FatOk(FatOf(d))
  {
  }

  lemma BlankLookup(d: Disk, depth: Depths, p: nat)
    requires Inv(d, depth) && p in depth && p < IMAGE_CLUSTERS
    requires p in Abs(d, depth).tree && |Abs(d, depth).tree[p].entries| < MEMBERS_MAX
    ensures var s := FindId(TableOf(d, p), BLANK_KEY, 0); 2 <= s < SLOTS && TableOf(d, p)[s] == ZERO_ENTRY
  {
    hide Inv, TreeOf, TablesOf, DecodeTable, DecodeFat;
    LookupAgrees(d, depth, p, BLANK_KEY);
    LookupCases(d, depth, p, BLANK_KEY);
    SelfNotBlank(d, depth, p);
    var s := FindId(TableOf(d, p), BLANK_KEY, 0);
    if TableOf(d, p)[s].Occupied() {
      MemberFacts(d, depth, p, s);
      OccupiedNotBlank(d, depth, p, s);
    } else {
      BlankSlot(d, depth, p, s);
    }
  }

  lemma OccupiedNotBlank(d: Disk, depth: Depths, p: nat, s: nat)
    requires Inv(d, depth) && p in depth && p < IMAGE_CLUSTERS && s < SLOTS && TableOf(d, p)[s].Occupied()
    ensures TableOf(d, p)[s].Id() != BLANK_KEY
  {
    InvShape(d, depth);
    ShapeTidy(FatOf(d), TablesOf(d, depth.Keys), depth, p);
  }

  /**
   * `delete` keeps the volume well-formed if and only if it is allowed, or finds an unused slot
   * and takes the boot cluster for a directory with members.
   */
  lemma DeleteKeepsIff(d: Disk, depth: Depths, p: nat, key: Key)
    requires Inv(d, depth) && p in depth && p < IMAGE_CLUSTERS
    ensures DeleteDefined(d, p, key) && p in Abs(d, depth).tree
    ensures WellFormed(Replay(d, DeleteOutcome(d, p, key).writes))
       <==> DeleteAllowed(Abs(d, depth).tree[p], p, key) || (key == BLANK_KEY && HasMembers(TableOf(d, 0)))
  {
    hide Inv, TreeOf, TablesOf, DecodeTable, DecodeFat;
    DeleteIsDefined(d, depth, p, key);
    LookupCases(d, depth, p, key);
    var dir := Abs(d, depth).tree[p];
    if DeleteAllowed(dir, p, key) {
      DeleteSimulates(d, depth, p, key);
    } else if key == BLANK_KEY && |dir.entries| < MEMBERS_MAX {
      BlankLookup(d, depth, p);
      if HasMembers(TableOf(d, 0)) {
        assert Inv(Replay(d, []), depth) by {
          NoWrites(d);
        }
      } else {
        forall depth'
          ensures !Inv(Replay(d, DeleteOutcome(d, p, key).writes), depth')
        {
          BlankDeleteBreaks(d, depth, p, depth');
        }
      }
    } else {
      SelfNotBlank(d, depth, p);
      forall depth'
        ensures !Inv(Replay(d, DeleteOutcome(d, p, key).writes), depth')
      {
        SelfDeleteBreaks(d, depth, p, key, depth');
      }
    }
  }

  lemma SelfNotBlank(d: Disk, depth: Depths, p: nat)
    requires Inv(d, depth) && p in depth && p < IMAGE_CLUSTERS
    ensures p in Abs(d, depth).tree && !IsSelf(Abs(d, depth).tree[p], BLANK_KEY) && p < CLUSTER_MAP_SIZE
  {
    InvShape(d, depth);
    DirRange(FatOf(d), TablesOf(d, depth.Keys), depth, p);
    assert DirOk(FatOf(d), TablesOf(d, depth.Keys), depth, p);
  }

  // ---- mkdir: exactly when it keeps the volume ----

  /** `write` with no data goes on to create a directory. */
  predicate MkdirGoesOn(d: Disk, p: nat, key: Key)
    requires p < IMAGE_CLUSTERS
  {
    !WriteRefused(d, p, key) && FreeSlot(TableOf(d, p), 0) < SLOTS
  }

  lemma MkdirWritesDisk(d: Disk, g: Fat, p: ImageCluster, t: Table, k: ImageCluster, nt: Table)
    requires p != FAT_CLUSTER && k != p
    ensures var d' := Replay(d, MkdirWrites(g, p, t, k, nt));
      && (forall c :: 0 <= c < IMAGE_CLUSTERS && c != p && c != FAT_CLUSTER && c != k ==> d'[c] == d[c])
      && TableOf(d', p) == t
  {
    var w := MkdirWrites(g, p, t, k, nt);
    ReplayThree(d, w[0], w[1], w[2]);
    DecodeEncodeTable(t);
  }

  /** Where the disk after mkdir agrees with the disk before. */
  lemma MkdirDiskAfter(d: Disk, p: nat, name: Name)
    requires p < IMAGE_CLUSTERS && p != FAT_CLUSTER && |FreeList(FatOf(d))| > 0
    requires FreeSlot(TableOf(d, p), 0) < SLOTS && FreeList(FatOf(d))[0] != p
    ensures var d' := Replay(d, MkdirOutcome(d, p, name).writes);
      var s, k := FreeSlot(TableOf(d, p), 0), FreeList(FatOf(d))[0];
      && (forall c :: 0 <= c < IMAGE_CLUSTERS && c != p && c != FAT_CLUSTER && c != k ==> d'[c] == d[c])
      && TableOf(d', p) == TableOf(d, p)[s := NewEntry(Key(name, NO_EXT), ATTR_SUBDIRECTORY, k, 0)]
  {
    hide Replay, DecodeTable, DecodeFat, EncodeTable, EncodeFat, NewEntry, NewDirTable;
    var t, k := TableOf(d, p), FreeList(FatOf(d))[0];
    var self := NewEntry(Key(name, NO_EXT), ATTR_SUBDIRECTORY, k, 0);
    MkdirWritesDisk(d, FatOf(d)[k := END_OF_FILE], p, t[FreeSlot(t, 0) := self], k, NewDirTable(self, t[0]));
  }

  /** The parent of a directory wrongly made is a live directory of any volume on the new disk. */
  lemma ParentStaysLive(d: Disk, depth: Depths, p: nat, name: Name, d': Disk, depth': Depths)
    requires Inv(d, depth) && p in depth && p < IMAGE_CLUSTERS && |FreeList(FatOf(d))| > 0
    requires FreeSlot(TableOf(d, p), 0) < SLOTS
    requires d' == Replay(d, MkdirOutcome(d, p, name).writes) && Inv(d', depth')
    ensures p in depth' && FreeList(FatOf(d))[0] != p && p != FAT_CLUSTER
  {
    hide Inv, DecodeTable, DecodeFat, MkdirOutcome, Replay, FreeSlot, FreeList, MembersKept;
    InvShape(d, depth);
    InvShape(d', depth');
    var f, tabs, tabs' := FatOf(d), TablesOf(d, depth.Keys), TablesOf(d', depth'.Keys);
    var k := FreeList(f)[0];
    DirRange(f, tabs, depth, p);
    FreeHead(f, tabs, depth, k);
    MkdirDiskAfter(d, p, name);
    MkdirMembers(d, depth, p, k, FreeSlot(TableOf(d, p), 0), d', depth');
    assert 0 in tabs ==> DirOk(f, tabs, depth, 0);
    DirsPersist(f, tabs, depth, FatOf(d'), tabs', depth', 0, p);
  }

  lemma MkdirMembers(d: Disk, depth: Depths, p: nat, k: nat, s: nat, d': Disk, depth': Depths)
    requires Shape(FatOf(d), TablesOf(d, depth.Keys), depth) && p in depth && p < IMAGE_CLUSTERS
    requires s < SLOTS && !TableOf(d, p)[s].Occupied() && k !in depth
    requires forall c :: 0 <= c < IMAGE_CLUSTERS && c != p && c != FAT_CLUSTER && c != k ==> d'[c] == d[c]
    requires forall i :: 0 <= i < SLOTS && i != s ==> TableOf(d', p)[i] == TableOf(d, p)[i]
    ensures MembersKept(TablesOf(d, depth.Keys), TablesOf(d', depth'.Keys), 0)
  {
    var f, tabs, tabs' := FatOf(d), TablesOf(d, depth.Keys), TablesOf(d', depth'.Keys);
    assert 0 in tabs ==> DirOk(f, tabs, depth, 0);
    forall c: nat, i: nat | Live(tabs, c, i) && c in tabs'
      ensures tabs'[c][i] == tabs[c][i]
    {
      DirRange(f, tabs, depth, c);
    }
  }

  /** In a well-formed volume no two occupied slots share a name, and none from 2 on is blank. */
  lemma VolumeNames(d: Disk, depth: Depths, p: nat)
    requires Inv(d, depth) && p in depth && p < IMAGE_CLUSTERS
    ensures UniqueIds(TableOf(d, p))
    ensures forall i :: 0 <= i < SLOTS && TableOf(d, p)[i].Occupied() ==> TableOf(d, p)[i].Id() != BLANK_KEY
    ensures forall i :: 0 <= i < SLOTS && !TableOf(d, p)[i].Occupied() ==> TableOf(d, p)[i] == ZERO_ENTRY
  {
    InvShape(d, depth);
    ShapeTidy(FatOf(d), TablesOf(d, depth.Keys), depth, p);
  }

  lemma BadMkdirBreaks(d: Disk, depth: Depths, p: nat, name: Name, depth': Depths)
    requires Inv(d, depth) && p in depth && p < IMAGE_CLUSTERS && |FreeList(FatOf(d))| > 0
    requires FreeSlot(TableOf(d, p), 0) < SLOTS
    requires name == BLANK_KEY.name || FindId(TableOf(d, p), Key(name, NO_EXT), 0) < SLOTS
    ensures !Inv(Replay(d, MkdirOutcome(d, p, name).writes), depth')
  {
    hide Inv, TreeOf, TablesOf, DecodeTable, DecodeFat, MkdirOutcome, Replay;
    var d' := Replay(d, MkdirOutcome(d, p, name).writes);
    if Inv(d', depth') {
      ParentStaysLive(d, depth, p, name, d', depth');
      MkdirDiskAfter(d, p, name);
      VolumeNames(d, depth, p);
      var s, i := FreeSlot(TableOf(d, p), 0), FindId(TableOf(d, p), Key(name, NO_EXT), 0);
      assert TableOf(d', p)[s].Id() == Key(name, NO_EXT) && TableOf(d', p)[s].Occupied();
      assert name != BLANK_KEY.name ==> TableOf(d, p)[i].Occupied() && TableOf(d', p)[i] == TableOf(d, p)[i];
      VolumeNames(d', depth', p);
      assert false;
    }
  }

  /**
   * Creating a directory keeps the volume well-formed if and only if its name, taken without
   * the extension that was asked for, is neither blank nor in use in its parent.
   */
  lemma MkdirKeepsIff(d: Disk, depth: Depths, p: nat, key: Key)
    requires Inv(d, depth) && p in depth && p < IMAGE_CLUSTERS && MkdirGoesOn(d, p, key)
    ensures p in Abs(d, depth).tree
    ensures WellFormed(Replay(d, WriteOutcome(d, p, key, []).writes))
       <==> key.name != BLANK_KEY.name && !Taken(Abs(d, depth).tree[p], Key(key.name, NO_EXT))
  {
    hide Inv, TreeOf, TablesOf, DecodeTable, DecodeFat, MkdirOutcome, Replay;
    LookupAgrees(d, depth, p, Key(key.name, NO_EXT));
    assert WriteOutcome(d, p, key, []) == MkdirOutcome(d, p, key.name);
    if key.name != BLANK_KEY.name && !Taken(Abs(d, depth).tree[p], Key(key.name, NO_EXT)) {
      MkdirSimulates(d, depth, p, key.name);
    } else {
      forall depth'
        ensures !Inv(Replay(d, MkdirOutcome(d, p, key.name).writes), depth')
      {
        BadMkdirBreaks(d, depth, p, key.name, depth');
      }
    }
  }

  // ---- delete: what it leaves alone ----

  lemma {:induction false} ZeroedAt(d: Disk, ch: seq<nat>, x: nat)
    requires x < IMAGE_CLUSTERS && forall i :: 0 <= i < |ch| ==> ch[i] < CLUSTER_MAP_SIZE
    ensures Replay(d, ZeroWrites(ch))[x] == if x in ch then ZERO_CLUSTER else d[x]
    decreases |ch|
  {
    if ch != [] {
      var init := ch[..|ch| - 1];
      ZeroedAt(d, init, x);
      assert ZeroWrites(ch)[..|ch| - 1] == ZeroWrites(init);
      assert ch == init + [ch[|ch| - 1]];
    }
  }

  lemma ZeroAndDrop(d: Disk, ch: seq<nat>, p: ImageCluster, t: Table, x: nat)
    requires (forall i :: 0 <= i < |ch| ==> 3 <= ch[i] < CLUSTER_MAP_SIZE) && p != FAT_CLUSTER
    requires x < IMAGE_CLUSTERS && x != p
    ensures var d' := Replay(d, ZeroWrites(ch) + [ClusterWrite(p, EncodeTable(t))]);
      && FatOf(d') == FatOf(d) && TableOf(d', p) == t
      && d'[x] == if x in ch then ZERO_CLUSTER else d[x]
  {
    var w := ZeroWrites(ch) + [ClusterWrite(p, EncodeTable(t))];
    assert w[..|w| - 1] == ZeroWrites(ch);
    ZeroedAt(d, ch, x);
    ZeroedAt(d, ch, FAT_CLUSTER);
    DecodeEncodeTable(t);
  }

  lemma DeleteFileOutcome(d: Disk, p: nat, key: Key, s: nat, ch: seq<nat>)
    requires p < IMAGE_CLUSTERS && s < SLOTS && s == FindId(TableOf(d, p), key, 0)
    requires TableOf(d, p)[s].filesize != 0 && TableOf(d, p)[s].cluster != ROOT_CLUSTER
    requires TableOf(d, p)[s].cluster < CLUSTER_MAP_SIZE && ch == Chain(FatOf(d), TableOf(d, p)[s].cluster)
    requires FatOf(d)[Last(ch)] == END_OF_FILE
    ensures DeleteDefined(d, p, key)
    ensures DeleteOutcome(d, p, key)
         == Outcome(0, FatOf(d), ZeroWrites(ch) + [ClusterWrite(p, EncodeTable(TableOf(d, p)[s := ZERO_ENTRY]))])
  {
  }

  lemma FileChain(d: Disk, depth: Depths, p: nat, key: Key)
    requires Inv(d, depth) && p in depth && p < IMAGE_CLUSTERS && p in Abs(d, depth).tree
    requires key in Abs(d, depth).tree[p].entries && Abs(d, depth).tree[p].entries[key].File?
    ensures var t, s := TableOf(d, p), FindId(TableOf(d, p), key, 0);
      && 2 <= s < SLOTS && t[s].filesize != 0 && t[s].cluster != ROOT_CLUSTER && t[s].cluster < CLUSTER_MAP_SIZE
      && var ch := Chain(FatOf(d), t[s].cluster);
      FatOf(d)[Last(ch)] == END_OF_FILE && InMap(ch) && p !in ch && p != FAT_CLUSTER
  {
    FileIsMember(d, depth, p, key);
    InvShape(d, depth);
    hide Inv, TreeOf, DecodeFat, DecodeTable;
    var s := FindId(TableOf(d, p), key, 0);
    DirRange(FatOf(d), TablesOf(d, depth.Keys), depth, p);
    DirNotInFile(FatOf(d), TablesOf(d, depth.Keys), depth, p, p, s);
    ChainWellFormed(FatOf(d), TableOf(d, p)[s].cluster);
  }

  /**
   * Deleting a file zeroes exactly the clusters of its chain, blanks exactly its slot, leaves the
   * cluster map as it was, and changes no byte anywhere else.
   */
  lemma DeleteFileFrame(d: Disk, depth: Depths, p: nat, key: Key, x: nat)
      returns (s: nat, ch: seq<nat>, o: Outcome, d': Disk)
    requires Inv(d, depth) && p in depth && p < IMAGE_CLUSTERS && p in Abs(d, depth).tree
    requires key in Abs(d, depth).tree[p].entries && Abs(d, depth).tree[p].entries[key].File?
    requires x < IMAGE_CLUSTERS && x != p
    ensures s == FindId(TableOf(d, p), key, 0) && s < SLOTS && TableOf(d, p)[s].cluster < CLUSTER_MAP_SIZE
    ensures ch == Chain(FatOf(d), TableOf(d, p)[s].cluster) && p !in ch
    ensures DeleteDefined(d, p, key) && o == DeleteOutcome(d, p, key) && d' == Replay(d, o.writes)
    ensures o.code == 0 && o.fat == FatOf(d') == FatOf(d)
    ensures TableOf(d', p) == TableOf(d, p)[s := ZERO_ENTRY]
    ensures d'[x] == if x in ch then ZERO_CLUSTER else d[x]
  {
    hide Inv, TreeOf, TablesOf, DecodeFat, DecodeTable, DeleteOutcome;
    FileChain(d, depth, p, key);
    s := FindId(TableOf(d, p), key, 0);
    ch := Chain(FatOf(d), TableOf(d, p)[s].cluster);
    DeleteFileOutcome(d, p, key, s, ch);
    o := DeleteOutcome(d, p, key);
    d' := Replay(d, o.writes);
    ZeroAndDrop(d, ch, p, TableOf(d, p)[s := ZERO_ENTRY], x);
  }

  lemma FileIsMember(d: Disk, depth: Depths, p: nat, key: Key)
    requires Inv(d, depth) && p in depth && p < IMAGE_CLUSTERS && p in Abs(d, depth).tree
    requires key in Abs(d, depth).tree[p].entries && Abs(d, depth).tree[p].entries[key].File?
    ensures var t, s := TableOf(d, p), FindId(TableOf(d, p), key, 0);
      && 2 <= s < SLOTS && t[s].Occupied() && t[s].filesize != 0 && Live(TablesOf(d, depth.Keys), p, s)
      && FileEntryOk(FatOf(d), TablesOf(d, depth.Keys), t[s])
      && t[s].attribute != ATTR_SUBDIRECTORY && t[s].cluster != ROOT_CLUSTER
      && FatOf(d)[Last(Chain(FatOf(d), t[s].cluster))] == END_OF_FILE
  {
    hide Inv, TreeOf, TablesOf, DecodeTable, DecodeFat;
    LookupCases(d, depth, p, key);
    MemberFacts(d, depth, p, FindId(TableOf(d, p), key, 0));
  }

  // ---- the tree ----

  /** `n` steps along "..". */
  function Climb(tree: map<nat, Directory>, c: nat, n: nat): nat
    decreases n
  {
    if n == 0 || c !in tree then c else Climb(tree, tree[c].parent, n - 1)
  }

  /** What the two headers of a directory's own table say. */
  lemma HeadersOf(s: Machine, depth: Depths, a: Abstract, c: nat)
    requires Stands(s, depth, a) && c in a.tree
    ensures c < IMAGE_CLUSTERS && c in depth
    ensures var t, p := DecodeTable(s.disk[c]), a.tree[c].parent;
      && p in a.tree && p in depth
      && t[0].name == a.tree[c].name && t[0].cluster == c && t[1].cluster == p
      && (if c == ROOT_CLUSTER then p == ROOT_CLUSTER && depth[c] == 0
          else p != c && depth[c] == depth[p] + 1)
  {
    InvShape(s.disk, depth);
    assert DirOk(FatOf(s.disk), TablesOf(s.disk, depth.Keys), depth, c);
    hide Inv, Shape, DecodeTable, DecodeFat;
  }

  /** Following ".." from a live directory reaches the root, after as many steps as it is deep. */
  lemma {:induction false} ClimbsToRoot(s: Machine, depth: Depths, a: Abstract, c: nat)
    requires Stands(s, depth, a) && c in depth
    ensures Climb(a.tree, c, depth[c]) == ROOT_CLUSTER
    ensures c != ROOT_CLUSTER ==> depth[c] > 0
    decreases depth[c]
  {
    hide Inv, Abs, Coherent;
    assert c in a.tree;
    hide Stands;
    HeadersOf(s, depth, a, c);
    if c != ROOT_CLUSTER {
      ClimbsToRoot(s, depth, a, a.tree[c].parent);
    }
  }

  /** Every directory but the root is a member of exactly one directory, its parent, under one name. */
  lemma OneHolder(s: Machine, depth: Depths, a: Abstract, c: nat) returns (key: Key)
    requires Stands(s, depth, a) && c in depth && c != ROOT_CLUSTER
    ensures c in a.tree && a.tree[c].parent in a.tree
    ensures key in a.tree[a.tree[c].parent].entries && a.tree[a.tree[c].parent].entries[key] == SubDir(c)
    ensures key == Key(a.tree[c].name, NO_EXT)
    ensures forall q, k :: q in a.tree && k in a.tree[q].entries && a.tree[q].entries[k] == SubDir(c)
              ==> q == a.tree[c].parent && k == key
  {
    hide Inv, Shape, Entries, Coherent, DecodeTable, DecodeFat;
    var d, f, tabs := s.disk, FatOf(s.disk), TablesOf(s.disk, depth.Keys);
    InvShape(d, depth);
    var p := ParentOf(tabs[c]);
    var i := HolderSlot(f, tabs, depth, c);
    HoldsDir(d, f, tabs, depth, p, i, c);
    key := tabs[p][i].Id();
    forall q, k | q in a.tree && k in a.tree[q].entries && a.tree[q].entries[k] == SubDir(c)
      ensures q == p && k == key
    {
      HeldOnce(d, f, tabs, depth, p, i, q, k, c);
    }
  }

  lemma HolderSlot(f: Fat, tabs: Tables, depth: Depths, c: nat) returns (i: nat)
    requires Shape(f, tabs, depth) && c in tabs && c != ROOT_CLUSTER
    ensures Live(tabs, ParentOf(tabs[c]), i) && tabs[ParentOf(tabs[c])][i].cluster == c
  {
    assert DirOk(f, tabs, depth, c);
    i :| Live(tabs, ParentOf(tabs[c]), i) && tabs[ParentOf(tabs[c])][i].cluster == c;
  }

  lemma HoldsDir(d: Disk, f: Fat, tabs: Tables, depth: Depths, p: nat, i: nat, c: nat)
    requires Shape(f, tabs, depth) && Live(tabs, p, i) && tabs[p][i].cluster == c && c in tabs
    ensures Tidy(tabs[p]) && tabs[p][i].Id() == Key(tabs[c][0].name, NO_EXT)
    ensures tabs[p][i].Id() in Entries(d, f, tabs[p])
    ensures Entries(d, f, tabs[p])[tabs[p][i].Id()] == SubDir(c)
  {
    ShapeTidy(f, tabs, depth, p);
    LiveFile(f, tabs, depth, p, i);
    EntriesAt(d, f, tabs[p], i);
  }

  lemma HeldOnce(d: Disk, f: Fat, tabs: Tables, depth: Depths, p: nat, i: nat, q: nat, k: Key, c: nat)
    requires Shape(f, tabs, depth) && Live(tabs, p, i) && tabs[p][i].cluster == c
    requires q in tabs && k in Entries(d, f, tabs[q]) && Entries(d, f, tabs[q])[k] == SubDir(c)
    ensures q == p && k == tabs[p][i].Id()
  {
    var j := EntryHasSlot(d, f, tabs[q], k);
    ShapeTidy(f, tabs, depth, q);
    EntriesAt(d, f, tabs[q], j);
    assert Live(tabs, q, j);
  }
}
