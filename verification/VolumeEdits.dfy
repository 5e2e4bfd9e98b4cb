/** Storing a directory table: a member added or removed, on disk and in the tree. */
module VolumeEdits {
  import opened FatLayout
  import opened FatChains
  import opened Volume
  import opened ShapeSteps
  import opened VolumeSteps

  type Tree = map<nat, Directory>

  function Insert(tree: Tree, p: nat, k: Key, item: Item): Tree
    requires p in tree
  {
    tree[p := tree[p].(entries := tree[p].entries[k := item])]
  }

  function Remove(tree: Tree, p: nat, k: Key): Tree
    requires p in tree
  {
    tree[p := tree[p].(entries := tree[p].entries - {k})]
  }

  lemma TablesStored(d: Disk, dirs: set<nat>, p: nat, t: Table)
    requires p in dirs && p < IMAGE_CLUSTERS
    ensures TablesOf(d[p := EncodeTable(t)], dirs) == TablesOf(d, dirs)[p := t]
  {
    DecodeEncodeTable(t);
  }

  /** Rewriting a live directory's own cluster touches no file. */
  lemma TableStored(d: Disk, f: Fat, p: nat, data: Cluster, tabs: Tables, depth: Depths)
    requires Shape(f, tabs, depth) && p in tabs && p < IMAGE_CLUSTERS && AllPadded(d, f, tabs)
    ensures TreeOf(d[p := data], f, tabs) == TreeOf(d, f, tabs)
    ensures AllPadded(d[p := data], f, tabs)
  {
    AllTidy(f, tabs, depth);
    forall c: nat, s: nat | Live(tabs, c, s)
      ensures SameFile(d, f, d[p := data], f, tabs[c][s])
    {
      if tabs[c][s].attribute != ATTR_SUBDIRECTORY {
        DirNotInFile(f, tabs, depth, p, c, s);
      }
    }
    TreeFrame(d, f, d[p := data], f, tabs);
  }

  lemma DirRange(f: Fat, tabs: Tables, depth: Depths, p: nat)
    requires Shape(f, tabs, depth) && p in tabs
    ensures 2 <= p < CLUSTER_MAP_SIZE
  {
    assert DirOk(f, tabs, depth, p);
  }

  /** Storing table `t` at `p` on a disk whose other tables already fit. */
  lemma StoreTable(d: Disk, depth: Depths, p: nat, t: Table, tabs: Tables)
    requires p in depth && p < IMAGE_CLUSTERS && TablesOf(d, depth.Keys)[p := t] == tabs
    requires Shape(FatOf(d), tabs, depth) && AllPadded(d, FatOf(d), tabs)
    ensures var d' := d[p := EncodeTable(t)];
      && Inv(d', depth) && FatOf(d') == FatOf(d) && TablesOf(d', depth.Keys) == tabs
      && Abs(d', depth) == Abstract(TreeOf(d, FatOf(d), tabs), FreeSet(FatOf(d)))
  {
    DirRange(FatOf(d), tabs, depth, p);
    TablesStored(d, depth.Keys, p, t);
    TableStored(d, FatOf(d), p, EncodeTable(t), tabs, depth);
  }

  // ---- adding a file ----

  lemma PaddedAfterSet(d: Disk, f: Fat, tabs: Tables, p: nat, s: nat, e: Entry)
    requires AllPadded(d, f, tabs) && p in tabs && s < SLOTS
    requires e.Occupied() ==> Padded(d, f, e)
    ensures AllPadded(d, f, SetSlot(tabs, p, s, e))
  {
    var tabs' := SetSlot(tabs, p, s, e);
    forall c: nat, i: nat | Live(tabs', c, i)
      ensures Padded(d, f, tabs'[c][i])
    {
      assert (c == p && i == s) || Live(tabs, c, i);
    }
  }

  lemma TreeWithFile(d: Disk, f: Fat, tabs: Tables, p: nat, s: nat, e: Entry)
    requires CanAddFile(f, tabs, p, s, e) && Tidy(tabs[p])
    ensures TreeOf(d, f, SetSlot(tabs, p, s, e)) == Insert(TreeOf(d, f, tabs), p, e.Id(), ItemOf(d, f, e))
  {
    EntriesSet(d, f, tabs[p], s, e);
  }

  lemma AddFile(d: Disk, depth: Depths, p: nat, s: nat, e: Entry)
    requires Inv(d, depth) && CanAddFile(FatOf(d), TablesOf(d, depth.Keys), p, s, e)
    requires Padded(d, FatOf(d), e) && p < IMAGE_CLUSTERS
    ensures var a := Abs(d, depth);
      var d' := d[p := EncodeTable(TableOf(d, p)[s := e])];
      && Inv(d', depth)
      && Abs(d', depth) == a.(tree := Insert(a.tree, p, e.Id(), ItemOf(d, FatOf(d), e)))
  {
    var f, tabs := FatOf(d), TablesOf(d, depth.Keys);
    var tabs' := SetSlot(tabs, p, s, e);
    AddFileShape(f, tabs, depth, p, s, e);
    DirRange(f, tabs, depth, p);
    ShapeTidy(f, tabs, depth, p);
    TreeWithFile(d, f, tabs, p, s, e);
    PaddedAfterSet(d, f, tabs, p, s, e);
    StoreTable(d, depth, p, tabs'[p], tabs');
  }

  // ---- removing a file ----

  lemma TreeWithoutSlot(d: Disk, f: Fat, tabs: Tables, p: nat, s: nat)
    requires Live(tabs, p, s) && Tidy(tabs[p])
    ensures TreeOf(d, f, SetSlot(tabs, p, s, ZERO_ENTRY)) == Remove(TreeOf(d, f, tabs), p, tabs[p][s].Id())
  {
    EntriesClear(d, f, tabs[p], s);
  }

  lemma RemoveFile(d: Disk, depth: Depths, p: nat, s: nat)
    requires Inv(d, depth) && CanRemoveFile(TablesOf(d, depth.Keys), p, s) && p < IMAGE_CLUSTERS
    ensures var a := Abs(d, depth);
      var d' := d[p := EncodeTable(TableOf(d, p)[s := ZERO_ENTRY])];
      && Inv(d', depth)
      && Abs(d', depth) == a.(tree := Remove(a.tree, p, TableOf(d, p)[s].Id()))
      && FatOf(d') == FatOf(d)
      && TablesOf(d', depth.Keys) == SetSlot(TablesOf(d, depth.Keys), p, s, ZERO_ENTRY)
  {
    var f, tabs := FatOf(d), TablesOf(d, depth.Keys);
    var tabs' := SetSlot(tabs, p, s, ZERO_ENTRY);
    RemoveFileShape(f, tabs, depth, p, s);
    DirRange(f, tabs, depth, p);
    ShapeTidy(f, tabs, depth, p);
    TreeWithoutSlot(d, f, tabs, p, s);
    PaddedAfterSet(d, f, tabs, p, s, ZERO_ENTRY);
    StoreTable(d, depth, p, tabs'[p], tabs');
  }

  // ---- adding an empty directory ----

  lemma FreshEmpty(d: Disk, f: Fat, t: Table, key: Key, k: nat, p: nat)
    requires FreshTable(t, key, k, p)
    ensures Entries(d, f, t) == map[]
  {
    assert Ids(t) == {};
  }

  lemma TreeWithDir(d: Disk, f: Fat, tabs: Tables, depth: Depths, p: nat, s: nat, e: Entry, t: Table)
    requires CanAddDir(f, tabs, depth, p, s, e, t) && Tidy(tabs[p])
    ensures TreeOf(d, f, AddDir(tabs, p, s, e, t))
         == Insert(TreeOf(d, f, tabs), p, e.Id(), SubDir(e.cluster))
              [e.cluster := Directory(e.name, p, map[])]
  {
    EntriesSet(d, f, tabs[p], s, e);
    FreshEmpty(d, f, t, e.Id(), e.cluster, p);
    assert t[0].Id() == e.Id();
  }

  lemma DirPadded(d: Disk, f: Fat, tabs: Tables, p: nat, s: nat, e: Entry, t: Table)
    requires AllPadded(d, f, tabs) && p in tabs && s < SLOTS && e.attribute == ATTR_SUBDIRECTORY
    requires forall i :: 2 <= i < SLOTS ==> t[i] == ZERO_ENTRY
    ensures AllPadded(d, f, AddDir(tabs, p, s, e, t))
  {
    PaddedAfterSet(d, f, tabs, p, s, e);
    var tabs' := AddDir(tabs, p, s, e, t);
    forall c: nat, i: nat | Live(tabs', c, i)
      ensures Padded(d, f, tabs'[c][i])
    {
      assert Live(SetSlot(tabs, p, s, e), c, i);
    }
  }

  lemma AddDirTables(d: Disk, dirs: set<nat>, p: nat, s: nat, e: Entry)
    requires p in dirs && p < IMAGE_CLUSTERS && s < SLOTS && e.cluster < IMAGE_CLUSTERS
    requires e.cluster !in dirs
    ensures TablesOf(d, dirs + {e.cluster})[p := TableOf(d, p)[s := e]]
         == AddDir(TablesOf(d, dirs), p, s, e, TableOf(d, e.cluster))
  {
  }

  lemma AddDirectory(d: Disk, depth: Depths, p: nat, s: nat, e: Entry)
    requires Inv(d, depth) && p < IMAGE_CLUSTERS && e.cluster < IMAGE_CLUSTERS
    requires CanAddDir(FatOf(d), TablesOf(d, depth.Keys), depth, p, s, e, TableOf(d, e.cluster))
    requires HeadFree(TablesOf(d, depth.Keys), e.cluster)
    ensures var a := Abs(d, depth);
      var d' := d[p := EncodeTable(TableOf(d, p)[s := e])];
      var depth' := depth[e.cluster := depth[p] + 1];
      && Inv(d', depth')
      && Abs(d', depth') == a.(tree := Insert(a.tree, p, e.Id(), SubDir(e.cluster))
                                         [e.cluster := Directory(e.name, p, map[])])
  {
    hide Shape, TreeOf, DecodeTable, EncodeTable, DecodeFat, HeadFree, Tidy, AllPadded;
    var f, tabs, k := FatOf(d), TablesOf(d, depth.Keys), e.cluster;
    var t := TableOf(d, k);
    var depth' := depth[k := depth[p] + 1];
    AddDirShape(f, tabs, depth, p, s, e, t);
    DirRange(f, tabs, depth, p);
    ShapeTidy(f, tabs, depth, p);
    TreeWithDir(d, f, tabs, depth, p, s, e, t);
    DirPadded(d, f, tabs, p, s, e, t);
    AddDirTables(d, depth.Keys, p, s, e);
    assert depth'.Keys == depth.Keys + {k};
    StoreTable(d, depth', p, TableOf(d, p)[s := e], AddDir(tabs, p, s, e, t));
  }

  // ---- removing an empty directory ----

  lemma RemoveDirectory(d: Disk, depth: Depths, p: nat, s: nat, k: nat)
    requires Inv(d, depth) && p < IMAGE_CLUSTERS
    requires CanRemoveDir(FatOf(d), TablesOf(d, depth.Keys), depth, p, s)
    requires k == TableOf(d, p)[s].cluster
    ensures var a := Abs(d, depth);
      var d' := d[p := EncodeTable(TableOf(d, p)[s := ZERO_ENTRY])];
      && Inv(d', depth - {k})
      && Abs(d', depth - {k}) == a.(tree := Remove(a.tree, p, TableOf(d, p)[s].Id()) - {k})
      && FatOf(d') == FatOf(d)
      && TablesOf(d', (depth - {k}).Keys) == RemoveDir(TablesOf(d, depth.Keys), p, s)
  {
    var f, tabs := FatOf(d), TablesOf(d, depth.Keys);
    var tabs' := RemoveDir(tabs, p, s);
    var depth' := depth - {k};
    RemoveDirectoryFits(d, f, tabs, depth, p, s);
    StoreTable(d, depth', p, TableOf(d, p)[s := ZERO_ENTRY], tabs');
  }

  lemma RemoveDirectoryFits(d: Disk, f: Fat, tabs: Tables, depth: Depths, p: nat, s: nat)
    requires CanRemoveDir(f, tabs, depth, p, s) && AllPadded(d, f, tabs) && p < IMAGE_CLUSTERS
    requires f == FatOf(d) && tabs == TablesOf(d, depth.Keys)
    ensures var k := tabs[p][s].cluster;
      var tabs' := RemoveDir(tabs, p, s);
      && Shape(f, tabs', depth - {k}) && AllPadded(d, f, tabs')
      && TreeOf(d, f, tabs') == Remove(TreeOf(d, f, tabs), p, tabs[p][s].Id()) - {k}
      && p in depth - {k}
      && TablesOf(d, (depth - {k}).Keys)[p := TableOf(d, p)[s := ZERO_ENTRY]] == tabs'
  {
    var k := tabs[p][s].cluster;
    assert (depth - {k}).Keys == depth.Keys - {k};
    RemoveDirShape(f, tabs, depth, p, s);
    RemoveDirTarget(f, tabs, depth, p, s);
    RemoveDirPadded(d, f, tabs, p, s);
    ShapeTidy(f, tabs, depth, p);
    TreeWithoutDir(d, f, tabs, p, s);
    RemoveDirTables(d, depth.Keys, p, s);
  }

  lemma RemoveDirPadded(d: Disk, f: Fat, tabs: Tables, p: nat, s: nat)
    requires AllPadded(d, f, tabs) && p in tabs && s < SLOTS
    ensures AllPadded(d, f, RemoveDir(tabs, p, s))
  {
    PaddedAfterSet(d, f, tabs, p, s, ZERO_ENTRY);
    PaddedSubset(d, f, SetSlot(tabs, p, s, ZERO_ENTRY), tabs[p][s].cluster);
  }

  lemma TreeWithoutDir(d: Disk, f: Fat, tabs: Tables, p: nat, s: nat)
    requires Live(tabs, p, s) && Tidy(tabs[p])
    ensures TreeOf(d, f, RemoveDir(tabs, p, s))
         == Remove(TreeOf(d, f, tabs), p, tabs[p][s].Id()) - {tabs[p][s].cluster}
  {
    TreeWithoutSlot(d, f, tabs, p, s);
  }

  lemma RemoveDirTables(d: Disk, dirs: set<nat>, p: nat, s: nat)
    requires p in dirs && p < IMAGE_CLUSTERS && s < SLOTS
    requires TableOf(d, p)[s].cluster != p
    ensures TablesOf(d, dirs - {TableOf(d, p)[s].cluster})[p := TableOf(d, p)[s := ZERO_ENTRY]]
         == RemoveDir(TablesOf(d, dirs), p, s)
  {
  }

  lemma PaddedSubset(d: Disk, f: Fat, tabs: Tables, k: nat)
    requires AllPadded(d, f, tabs)
    ensures AllPadded(d, f, tabs - {k})
  {
    var tabs' := tabs - {k};
    forall c: nat, i: nat | Live(tabs', c, i)
      ensures Padded(d, f, tabs'[c][i])
    {
      assert Live(tabs, c, i);
    }
  }
}
