/** `write` with no data: a new directory, and the simulation of `write` as a whole. */
module FatMkdir {
  import opened FatLayout
  import opened FatChains
  import opened Volume
  import opened ShapeSteps
  import opened VolumeSteps
  import opened VolumeEdits
  import opened FatOps
  import opened FatTables
  import opened FatWrite
  import opened AbstractFs

  lemma NewDirFresh(tabs: Tables, depth: Depths, p: nat, self: Entry)
    requires p in tabs && HeaderOk(tabs, depth, p)
    requires self.Occupied() && self.attribute == ATTR_SUBDIRECTORY && self.filesize == 0
    ensures FreshTable(NewDirTable(self, tabs[p][0]), self.Id(), self.cluster, p)
  {
  }

  lemma SingleChain(f: Fat, k: nat)
    requires 3 <= k < CLUSTER_MAP_SIZE
    ensures LinkChain(f, [k]) == f[k := END_OF_FILE] && ToSet([k]) == {k}
  {
  }

  /** Storing a new directory's table, reserving its cluster and entering it in its parent. */
  lemma MkdirSteps(d: Disk, depth: Depths, p: nat, s: nat, self: Entry, g: Fat, data: Cluster)
    requires Inv(d, depth) && p in depth && p < IMAGE_CLUSTERS && self.cluster < IMAGE_CLUSTERS
    requires FreshChain(FatOf(d), TablesOf(d, depth.Keys), [self.cluster])
    requires g == LinkChain(FatOf(d), [self.cluster])
    requires CanAddDir(g, TablesOf(d, depth.Keys), depth, p, s, self, DecodeTable(data))
    requires HeadFree(TablesOf(d, depth.Keys), self.cluster)
    ensures var k := self.cluster;
      var d' := d[k := data][FAT_CLUSTER := EncodeFat(g)][p := EncodeTable(TableOf(d, p)[s := self])];
      && Inv(d', depth[k := depth[p] + 1])
      && Abs(d', depth[k := depth[p] + 1])
         == Abstract(Insert(Abs(d, depth).tree, p, self.Id(), SubDir(k))[k := Directory(self.name, p, map[])],
                     Abs(d, depth).free - {k})
  {
    var k := self.cluster;
    var d1 := d[k := data];
    assert [k][0] == k;
    WriteUnowned(d, depth, k, data);
    MapPhase(d1, depth, [k], g);
    assert ToSet([k]) == {k};
    var d2 := d1[FAT_CLUSTER := EncodeFat(g)];
    assert TablesOf(d2, depth.Keys)[p] == TablesOf(d, depth.Keys)[p];
    AddDirectory(d2, depth, p, s, self);
  }

  lemma MkdirAllowed(f: Fat, tabs: Tables, depth: Depths, p: nat, s: nat, self: Entry, k: nat)
    requires Shape(f, tabs, depth) && p in tabs && 3 <= k < CLUSTER_MAP_SIZE && f[k] == EMPTY_ENTRY
    requires 2 <= s < SLOTS && !tabs[p][s].Occupied() && NameFree(tabs[p], self.Id())
    requires self.Occupied() && self.attribute == ATTR_SUBDIRECTORY && self.filesize == 0
    requires self.cluster == k && self.ext == NO_EXT && self.Id() != BLANK_KEY
    ensures LinkChain(f, [k]) == f[k := END_OF_FILE]
    ensures CanAddDir(f[k := END_OF_FILE], tabs, depth, p, s, self, NewDirTable(self, tabs[p][0]))
    ensures HeadFree(tabs, k) && FreshChain(f, tabs, [k])
  {
    assert DirOk(f, tabs, depth, p);
    NewDirFresh(tabs, depth, p, self);
    FreeHead(f, tabs, depth, k);
    FreeIsUnowned(f, tabs, depth, k);
    SingleChain(f, k);
    LinkChainOk(f, [k]);
  }

  function DepthAfterMkdir(d: Disk, depth: Depths, p: nat): Depths
    requires p in depth
  {
    if |FreeList(FatOf(d))| > 0 then depth[FreeList(FatOf(d))[0] := depth[p] + 1] else depth
  }

  lemma RoomForMember(d: Disk, depth: Depths, p: nat)
    requires Inv(d, depth) && p in depth && p < IMAGE_CLUSTERS
    ensures p in Abs(d, depth).tree
    ensures FreeSlot(TableOf(d, p), 0) < SLOTS <==> |Abs(d, depth).tree[p].entries| < MEMBERS_MAX
  {
    var f, tabs := FatOf(d), TablesOf(d, depth.Keys);
    assert tabs[p] == TableOf(d, p);
    ShapeTidy(f, tabs, depth, p);
    assert DirOk(f, tabs, depth, p);
    FreeSlotRange(d, f, tabs, depth, p);
  }

  /** The three writes, in the order they are made. */
  function MkdirWrites(g: Fat, p: ImageCluster, t: Table, k: ImageCluster, nt: Table): seq<ClusterWrite> {
    [ClusterWrite(FAT_CLUSTER, EncodeFat(g)), ClusterWrite(p, EncodeTable(t)), ClusterWrite(k, EncodeTable(nt))]
  }

  lemma MkdirRun(d: Disk, depth: Depths, p: nat, s: nat, self: Entry)
    requires Inv(d, depth) && p in depth && p < IMAGE_CLUSTERS && 2 <= s < SLOTS
    requires 3 <= self.cluster < CLUSTER_MAP_SIZE && FatOf(d)[self.cluster] == EMPTY_ENTRY
    requires !TableOf(d, p)[s].Occupied() && NameFree(TableOf(d, p), self.Id())
    requires self.Occupied() && self.attribute == ATTR_SUBDIRECTORY && self.filesize == 0
    requires self.ext == NO_EXT && self.Id() != BLANK_KEY
    ensures var k := self.cluster;
      var t := TableOf(d, p);
      var d' := Replay(d, MkdirWrites(FatOf(d)[k := END_OF_FILE], p, t[s := self], k, NewDirTable(self, t[0])));
      && Inv(d', depth[k := depth[p] + 1])
      && Abs(d', depth[k := depth[p] + 1])
         == Abstract(Insert(Abs(d, depth).tree, p, self.Id(), SubDir(k))[k := Directory(self.name, p, map[])],
                     Abs(d, depth).free - {k})
  {
    hide Abs, DecodeTable, EncodeTable, DecodeFat, EncodeFat, Shape, NewDirTable, AllPadded, Replay;
    var f, tabs, t, k := FatOf(d), TablesOf(d, depth.Keys), TableOf(d, p), self.cluster;
    var nt := NewDirTable(self, t[0]);
    assert tabs[p] == t;
    DirRange(f, tabs, depth, p);
    MkdirAllowed(f, tabs, depth, p, s, self, k);
    DecodeEncodeTable(nt);
    MkdirReorder(d, f[k := END_OF_FILE], p, t[s := self], k, nt);
    MkdirSteps(d, depth, p, s, self, f[k := END_OF_FILE], EncodeTable(nt));
  }

  lemma MkdirReorder(d: Disk, g: Fat, p: ImageCluster, t: Table, k: ImageCluster, nt: Table)
    requires k != FAT_CLUSTER && k != p
    ensures Replay(d, MkdirWrites(g, p, t, k, nt))
         == d[k := EncodeTable(nt)][FAT_CLUSTER := EncodeFat(g)][p := EncodeTable(t)]
  {
    ReplayThree(d, ClusterWrite(FAT_CLUSTER, EncodeFat(g)), ClusterWrite(p, EncodeTable(t)),
                ClusterWrite(k, EncodeTable(nt)));
  }

  lemma MkdirSimulates(d: Disk, depth: Depths, p: nat, name: Name)
    requires Inv(d, depth) && p in depth && p < IMAGE_CLUSTERS && |FreeList(FatOf(d))| > 0
    requires FreeSlot(TableOf(d, p), 0) < SLOTS
    requires FindId(TableOf(d, p), Key(name, NO_EXT), 0) == SLOTS
    ensures var o := MkdirOutcome(d, p, name);
      && Inv(Replay(d, o.writes), DepthAfterMkdir(d, depth, p))
      && (Abs(Replay(d, o.writes), DepthAfterMkdir(d, depth, p)), o.code) == AbstractMkdir(Abs(d, depth), p, name)
  {
    var k := FreeList(FatOf(d))[0];
    SlotForMember(d, depth, p, Key(name, NO_EXT));
    RoomForMember(d, depth, p);
    MkdirRun(d, depth, p, FreeSlot(TableOf(d, p), 0), NewEntry(Key(name, NO_EXT), ATTR_SUBDIRECTORY, k, 0));
  }
}
