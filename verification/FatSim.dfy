/** `write` and `delete` on a well-formed volume simulate the abstract operations. */
module FatSim {
  import opened Bytes
  import opened FatLayout
  import opened FatChains
  import opened Volume
  import opened ShapeSteps
  import opened VolumeSteps
  import opened VolumeEdits
  import opened FatOps
  import opened FatTables
  import opened FatWrite
  import opened FatMkdir
  import opened AbstractFs

  lemma LookupAgrees(d: Disk, depth: Depths, p: nat, key: Key)
    requires Inv(d, depth) && p in depth && p < IMAGE_CLUSTERS
    ensures p in Abs(d, depth).tree
    ensures FindId(TableOf(d, p), key, 0) < SLOTS <==> Taken(Abs(d, depth).tree[p], key)
    ensures TableOf(d, p)[0].Occupied()
  {
    var f, tabs := FatOf(d), TablesOf(d, depth.Keys);
    assert tabs[p] == TableOf(d, p);
    ShapeTidy(f, tabs, depth, p);
    assert DirOk(f, tabs, depth, p);
    FoundIffTaken(d, f, tabs, depth, p, key);
  }

  // ---- write ----

  /** The depths of the live directories after a `write`. */
  function DepthAfterWrite(d: Disk, depth: Depths, p: nat, key: Key, data: seq<byte>): Depths
    requires p in depth && p < IMAGE_CLUSTERS
  {
    if WriteRefused(d, p, key) || data != [] || FreeSlot(TableOf(d, p), 0) == SLOTS then depth
    else DepthAfterMkdir(d, depth, p)
  }

  lemma WriteDefined(d: Disk, depth: Depths, p: nat, key: Key, data: seq<byte>)
    requires Inv(d, depth) && p in depth && p < IMAGE_CLUSTERS
    requires p in Abs(d, depth).tree && WriteAllowed(Abs(d, depth), p, key, data)
    ensures WriteRefused(d, p, key) || data == [] || FreeSlot(TableOf(d, p), 0) < SLOTS
  {
    LookupAgrees(d, depth, p, key);
    RoomForMember(d, depth, p);
  }

  lemma FileSimulates(d: Disk, depth: Depths, p: nat, key: Key, data: seq<byte>)
    requires Inv(d, depth) && p in depth && p < IMAGE_CLUSTERS && 0 < |data| < 0x1_0000_0000
    requires FindId(TableOf(d, p), key, 0) == SLOTS && FreeSlot(TableOf(d, p), 0) < SLOTS
    ensures p in Abs(d, depth).tree
    ensures var o := WriteFileOutcome(d, p, key, data);
      && Inv(Replay(d, o.writes), depth)
      && (Abs(Replay(d, o.writes), depth), o.code) == AbstractWriteFile(Abs(d, depth), p, key, data)
  {
    hide Inv, DecodeTable, EncodeTable, DecodeFat, EncodeFat, TreeOf, LinkChain, LinkPairs, DataWrites, Replay;
    hide FreeSlot, FindId;
    SlotInDirectory(d, depth, p);
    var w := WriteFileOutcome(d, p, key, data).writes;
    if ClustersFor(data) <= |FreeList(FatOf(d))| {
      FileWriteAtomic(d, depth, p, key, data, |w|);
      assert w[..|w|] == w;
    } else {
      NothingStored(d);
    }
  }

  lemma SlotInDirectory(d: Disk, depth: Depths, p: nat)
    requires p in depth && p < IMAGE_CLUSTERS
    ensures p in Abs(d, depth).tree
  {
    hide DirOf, DecodeTable, DecodeFat;
  }

  lemma NothingStored(d: Disk)
    ensures Replay(d, []) == d
  {
  }

  /** `write` does to the tree what the abstract write does, and returns the same code. */
  lemma WriteSimulates(d: Disk, depth: Depths, p: nat, key: Key, data: seq<byte>)
    requires Inv(d, depth) && p in depth && p < IMAGE_CLUSTERS && |data| < 0x1_0000_0000
    requires p in Abs(d, depth).tree && WriteAllowed(Abs(d, depth), p, key, data)
    ensures WriteRefused(d, p, key) || data == [] || FreeSlot(TableOf(d, p), 0) < SLOTS
    ensures var o := WriteOutcome(d, p, key, data);
      var depth' := DepthAfterWrite(d, depth, p, key, data);
      && Inv(Replay(d, o.writes), depth')
      && (Abs(Replay(d, o.writes), depth'), o.code) == AbstractWrite(Abs(d, depth), p, key, data)
  {
    hide Inv, Volume.TreeOf, DecodeTable, EncodeTable, DecodeFat, EncodeFat, Replay, WriteFileOutcome, FindId, FreeSlot;
    WriteDefined(d, depth, p, key, data);
    LookupAgrees(d, depth, p, key);
    RoomForMember(d, depth, p);
    NothingStored(d);
    if !WriteRefused(d, p, key) {
      if data != [] {
        FileSimulates(d, depth, p, key, data);
      } else if FreeSlot(TableOf(d, p), 0) < SLOTS {
        LookupAgrees(d, depth, p, Key(key.name, NO_EXT));
        MkdirSimulates(d, depth, p, key.name);
      }
    }
  }

  // ---- delete: a file ----

  lemma {:induction false} ReplayCommutes(d: Disk, w: seq<ClusterWrite>, x: nat, data: Cluster)
    requires x < IMAGE_CLUSTERS && forall i :: 0 <= i < |w| ==> w[i].at != x
    ensures Replay(d, w)[x := data] == Replay(d[x := data], w)
    decreases |w|
  {
    if w != [] {
      ReplayCommutes(d, w[..|w| - 1], x, data);
    }
  }

  /** Once its entry is gone, the clusters of a file are nobody's. */
  lemma RemovedChainUnowned(f: Fat, tabs: Tables, depth: Depths, p: nat, s: nat, x: nat)
    requires Shape(f, tabs, depth) && Live(tabs, p, s) && FileEntryOk(f, tabs, tabs[p][s])
    requires x in Chain(f, tabs[p][s].cluster)
    ensures Unowned(f, SetSlot(tabs, p, s, ZERO_ENTRY), x)
  {
    var tabs' := SetSlot(tabs, p, s, ZERO_ENTRY);
    var h := tabs[p][s].cluster;
    ChainWellFormed(f, h);
    if x in tabs {
      DirNotInFile(f, tabs, depth, x, p, s);
    }
    forall c: nat, i: nat | Live(tabs', c, i) && tabs'[c][i].attribute != ATTR_SUBDIRECTORY
                            && tabs'[c][i].cluster < CLUSTER_MAP_SIZE
      ensures x !in Chain(f, tabs'[c][i].cluster)
    {
      assert Live(tabs, c, i);
      LiveFile(f, tabs, depth, c, i);
      if x in Chain(f, tabs[c][i].cluster) {
        ChainsDisjoint(f, h, tabs[c][i].cluster, x);
      }
    }
  }

  lemma ZeroWritesUnowned(f: Fat, tabs: Tables, depth: Depths, p: nat, s: nat, zw: seq<ClusterWrite>)
    requires Shape(f, tabs, depth) && Live(tabs, p, s) && FileEntryOk(f, tabs, tabs[p][s])
    requires zw == ZeroWrites(Chain(f, tabs[p][s].cluster))
    ensures forall i :: 0 <= i < |zw| ==> zw[i].at != p && Unowned(f, SetSlot(tabs, p, s, ZERO_ENTRY), zw[i].at)
  {
    forall i | 0 <= i < |zw|
      ensures zw[i].at != p && Unowned(f, SetSlot(tabs, p, s, ZERO_ENTRY), zw[i].at)
    {
      RemovedChainUnowned(f, tabs, depth, p, s, zw[i].at);
      DirNotInFile(f, tabs, depth, p, p, s);
    }
  }

  lemma DeleteFileSteps(d: Disk, depth: Depths, p: nat, s: nat)
    requires Inv(d, depth) && p in depth && p < IMAGE_CLUSTERS && Live(TablesOf(d, depth.Keys), p, s)
    requires FileEntryOk(FatOf(d), TablesOf(d, depth.Keys), TableOf(d, p)[s])
    ensures var t := TableOf(d, p);
      var w := ZeroWrites(Chain(FatOf(d), t[s].cluster)) + [ClusterWrite(p, EncodeTable(t[s := ZERO_ENTRY]))];
      && Inv(Replay(d, w), depth)
      && Abs(Replay(d, w), depth) == Abs(d, depth).(tree := Remove(Abs(d, depth).tree, p, t[s].Id()))
  {
    hide Inv, Shape, DecodeTable, EncodeTable, DecodeFat, EncodeFat, Unowned, TreeOf, TablesOf;
    var f, tabs, t := FatOf(d), TablesOf(d, depth.Keys), TableOf(d, p);
    var data := EncodeTable(t[s := ZERO_ENTRY]);
    var zw := ZeroWrites(Chain(f, t[s].cluster));
    InvShape(d, depth);
    RemoveFile(d, depth, p, s);
    ZeroWritesUnowned(f, tabs, depth, p, s, zw);
    ReplayUnowned(d[p := data], depth, zw);
    ReplayCommutes(d, zw, p, data);
    assert (zw + [ClusterWrite(p, data)])[..|zw|] == zw;
  }

  // ---- delete: an empty directory ----

  lemma RemovedDirUnowned(f: Fat, tabs: Tables, depth: Depths, p: nat, s: nat)
    requires CanRemoveDir(f, tabs, depth, p, s)
    ensures var k := tabs[p][s].cluster;
      Unowned(f, RemoveDir(tabs, p, s), k) && Clearable(f, RemoveDir(tabs, p, s), k)
  {
    var k := tabs[p][s].cluster;
    var tabs' := RemoveDir(tabs, p, s);
    RemoveDirTarget(f, tabs, depth, p, s);
    forall c: nat, i: nat | Live(tabs', c, i)
      ensures tabs'[c][i].cluster != k
      ensures tabs'[c][i].attribute != ATTR_SUBDIRECTORY && tabs'[c][i].cluster < CLUSTER_MAP_SIZE
              ==> k !in Chain(f, tabs'[c][i].cluster)
    {
      assert Live(tabs, c, i);
      if tabs[c][i].attribute != ATTR_SUBDIRECTORY {
        DirNotInFile(f, tabs, depth, k, c, i);
      }
    }
  }

  lemma RmdirSteps(d: Disk, depth: Depths, p: nat, s: nat, t: Table, k: nat, a: Abstract,
                   c: Cluster, g: Fat, d': Disk)
    requires p < IMAGE_CLUSTERS && s < SLOTS && k < CLUSTER_MAP_SIZE && p in a.tree
    requires d' == d[p := c][k := ZERO_CLUSTER][FAT_CLUSTER := EncodeFat(g)]
    requires c == EncodeTable(t[s := ZERO_ENTRY]) && g == FatOf(d)[k := EMPTY_ENTRY]
    requires t == TableOf(d, p) && k == t[s].cluster && a == Abs(d, depth)
    requires p in depth && Inv(d, depth) && CanRemoveDir(FatOf(d), TablesOf(d, depth.Keys), depth, p, s)
    ensures Inv(d', depth - {k})
    ensures Abs(d', depth - {k}) == Abstract(Remove(a.tree, p, t[s].Id()) - {k}, a.free + {k})
  {
    hide Inv, Shape, DecodeTable, EncodeTable, DecodeFat, EncodeFat, Unowned, TreeOf, TablesOf;
    InvShape(d, depth);
    var f, tabs := FatOf(d), TablesOf(d, depth.Keys);
    RemoveDirTarget(f, tabs, depth, p, s);
    RemovedDirUnowned(f, tabs, depth, p, s);
    RemoveDirectory(d, depth, p, s, k);
    var d1 := d[p := EncodeTable(t[s := ZERO_ENTRY])];
    WriteUnowned(d1, depth - {k}, k, ZERO_CLUSTER);
    WriteClearedMap(d1[k := ZERO_CLUSTER], depth - {k}, k);
  }
}
