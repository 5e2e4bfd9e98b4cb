/**
 * The five ways the structure of a volume changes: a member is added to or removed from a
 * directory (a file, or an empty directory), and the cluster map grows or loses an entry.
 */
module ShapeSteps {
  import opened FatLayout
  import opened FatChains
  import opened Volume

  function SetSlot(tabs: Tables, p: nat, s: nat, e: Entry): Tables
    requires p in tabs && s < SLOTS
  {
    tabs[p := tabs[p][s := e]]
  }

  /** `e` may join directory `p`: nothing occupied there carries its name. */
  predicate NameFree(t: Table, k: Key) {
    forall i :: 0 <= i < SLOTS && t[i].Occupied() ==> t[i].Id() != k
  }

  ghost predicate HeadFree(tabs: Tables, h: nat) {
    forall c: nat, s: nat :: Live(tabs, c, s) ==> tabs[c][s].cluster != h
  }

  lemma UniqueAfterSet(t: Table, s: nat, e: Entry)
    requires UniqueIds(t) && s < SLOTS && (e.Occupied() ==> NameFree(t, e.Id()))
    ensures UniqueIds(t[s := e])
  {
  }

  /** A directory stays held when a slot that did not hold it changes. */
  lemma HeldAfterSet(tabs: Tables, p: nat, s: nat, e: Entry, c: nat)
    requires p in tabs && 2 <= s < SLOTS && c in tabs && Held(tabs, c)
    requires !tabs[p][s].Occupied() || tabs[p][s].cluster != c
    ensures Held(SetSlot(tabs, p, s, e), c)
  {
    var q := ParentOf(tabs[c]);
    var i: nat :| Live(tabs, q, i) && tabs[q][i].cluster == c;
    var tabs' := SetSlot(tabs, p, s, e);
    assert ParentOf(tabs'[c]) == q;
    assert Live(tabs', q, i) && tabs'[q][i].cluster == c;
  }

  // ---- adding a file ----

  ghost predicate CanAddFile(f: Fat, tabs: Tables, p: nat, s: nat, e: Entry) {
    && p in tabs && 2 <= s < SLOTS && !tabs[p][s].Occupied()
    && e.Occupied() && e.Id() != BLANK_KEY && NameFree(tabs[p], e.Id())
    && FileEntryOk(f, tabs, e) && HeadFree(tabs, e.cluster)
  }

  lemma AddFileSlots(f: Fat, tabs: Tables, p: nat, s: nat, e: Entry, c: nat)
    requires CanAddFile(f, tabs, p, s, e) && c in tabs && SlotsOk(f, tabs, c)
    ensures SlotsOk(f, SetSlot(tabs, p, s, e), c)
  {
    var tabs' := SetSlot(tabs, p, s, e);
    forall i | 2 <= i < SLOTS
      ensures SlotOk(f, tabs', c, tabs'[c][i])
    {
      if c != p || i != s {
        assert SlotOk(f, tabs, c, tabs[c][i]);
      }
    }
  }

  lemma AddFileDir(f: Fat, tabs: Tables, depth: Depths, p: nat, s: nat, e: Entry, c: nat)
    requires CanAddFile(f, tabs, p, s, e) && c in tabs && DirOk(f, tabs, depth, c)
    ensures DirOk(f, SetSlot(tabs, p, s, e), depth, c)
  {
    AddFileSlots(f, tabs, p, s, e, c);
    if c == p {
      UniqueAfterSet(tabs[p], s, e);
    }
    if c != ROOT_CLUSTER {
      HeldAfterSet(tabs, p, s, e, c);
    }
  }

  lemma AddFileShape(f: Fat, tabs: Tables, depth: Depths, p: nat, s: nat, e: Entry)
    requires Shape(f, tabs, depth) && CanAddFile(f, tabs, p, s, e)
    ensures Shape(f, SetSlot(tabs, p, s, e), depth)
  {
    var tabs' := SetSlot(tabs, p, s, e);
    forall c | c in tabs'
      ensures DirOk(f, tabs', depth, c)
    {
      assert DirOk(f, tabs, depth, c);
      AddFileDir(f, tabs, depth, p, s, e, c);
    }
    HeadsAfterSet(tabs, p, s, e);
  }

  lemma HeadsAfterSet(tabs: Tables, p: nat, s: nat, e: Entry)
    requires HeadsUnique(tabs) && p in tabs && s < SLOTS
    requires e.Occupied() ==> HeadFree(tabs, e.cluster)
    ensures HeadsUnique(SetSlot(tabs, p, s, e))
  {
    var tabs' := SetSlot(tabs, p, s, e);
    forall c: nat, i: nat, c': nat, i': nat |
      Live(tabs', c, i) && Live(tabs', c', i') && tabs'[c][i].cluster == tabs'[c'][i'].cluster
      ensures c == c' && i == i'
    {
      if !(c == p && i == s) {
        assert Live(tabs, c, i);
      }
      if !(c' == p && i' == s) {
        assert Live(tabs, c', i');
      }
    }
  }

  // ---- removing a file ----

  predicate CanRemoveFile(tabs: Tables, p: nat, s: nat) {
    Live(tabs, p, s) && tabs[p][s].cluster !in tabs
  }

  lemma RemoveFileSlots(f: Fat, tabs: Tables, p: nat, s: nat, c: nat)
    requires CanRemoveFile(tabs, p, s) && c in tabs && SlotsOk(f, tabs, c)
    ensures SlotsOk(f, SetSlot(tabs, p, s, ZERO_ENTRY), c)
  {
    var tabs' := SetSlot(tabs, p, s, ZERO_ENTRY);
    forall i | 2 <= i < SLOTS
      ensures SlotOk(f, tabs', c, tabs'[c][i])
    {
      if c != p || i != s {
        assert SlotOk(f, tabs, c, tabs[c][i]);
      }
    }
  }

  lemma RemoveFileDir(f: Fat, tabs: Tables, depth: Depths, p: nat, s: nat, c: nat)
    requires CanRemoveFile(tabs, p, s) && c in tabs && DirOk(f, tabs, depth, c)
    ensures DirOk(f, SetSlot(tabs, p, s, ZERO_ENTRY), depth, c)
  {
    RemoveFileSlots(f, tabs, p, s, c);
    if c == p {
      UniqueAfterSet(tabs[p], s, ZERO_ENTRY);
    }
    if c != ROOT_CLUSTER {
      HeldAfterSet(tabs, p, s, ZERO_ENTRY, c);
    }
  }

  lemma RemoveFileShape(f: Fat, tabs: Tables, depth: Depths, p: nat, s: nat)
    requires Shape(f, tabs, depth) && CanRemoveFile(tabs, p, s)
    ensures Shape(f, SetSlot(tabs, p, s, ZERO_ENTRY), depth)
  {
    var tabs' := SetSlot(tabs, p, s, ZERO_ENTRY);
    forall c | c in tabs'
      ensures DirOk(f, tabs', depth, c)
    {
      assert DirOk(f, tabs, depth, c);
      RemoveFileDir(f, tabs, depth, p, s, c);
    }
    HeadsAfterSet(tabs, p, s, ZERO_ENTRY);
  }

  // ---- adding an empty directory ----

  /** `t` is the table of a directory nobody has written to yet. */
  predicate FreshTable(t: Table, key: Key, k: nat, p: nat) {
    && t[0].Occupied() && t[0].attribute == ATTR_SUBDIRECTORY && t[0].filesize == 0
    && t[0].cluster == k && t[0].Id() == key
    && t[1].Occupied() && t[1].attribute == ATTR_SUBDIRECTORY && t[1].filesize == 0
    && t[1].Id() == DOT_DOT_KEY && t[1].cluster == p
    && forall i :: 2 <= i < SLOTS ==> t[i] == ZERO_ENTRY
  }

  predicate CanAddDir(f: Fat, tabs: Tables, depth: Depths, p: nat, s: nat, e: Entry, t: Table) {
    && p in tabs && p in depth && 2 <= s < SLOTS && !tabs[p][s].Occupied()
    && e.Occupied() && e.attribute == ATTR_SUBDIRECTORY && e.filesize == 0 && e.ext == NO_EXT
    && e.Id() != BLANK_KEY && NameFree(tabs[p], e.Id())
    && 3 <= e.cluster && DirClusterOk(f, e.cluster) && e.cluster !in tabs
    && FreshTable(t, e.Id(), e.cluster, p)
  }

  function AddDir(tabs: Tables, p: nat, s: nat, e: Entry, t: Table): Tables
    requires p in tabs && s < SLOTS
  {
    SetSlot(tabs, p, s, e)[e.cluster := t]
  }

  lemma AddDirSlots(f: Fat, tabs: Tables, depth: Depths, p: nat, s: nat, e: Entry, t: Table, c: nat)
    requires CanAddDir(f, tabs, depth, p, s, e, t) && HeadFree(tabs, e.cluster)
    requires c in tabs && SlotsOk(f, tabs, c)
    ensures SlotsOk(f, AddDir(tabs, p, s, e, t), c)
  {
    var tabs' := AddDir(tabs, p, s, e, t);
    forall i | 2 <= i < SLOTS
      ensures SlotOk(f, tabs', c, tabs'[c][i])
    {
      if c != p || i != s {
        assert SlotOk(f, tabs, c, tabs[c][i]);
        if tabs[c][i] != ZERO_ENTRY {
          assert Live(tabs, c, i);
        }
      }
    }
  }

  lemma AddDirOld(f: Fat, tabs: Tables, depth: Depths, p: nat, s: nat, e: Entry, t: Table, c: nat)
    requires CanAddDir(f, tabs, depth, p, s, e, t) && HeadFree(tabs, e.cluster)
    requires c in tabs && DirOk(f, tabs, depth, c)
    ensures DirOk(f, AddDir(tabs, p, s, e, t), depth[e.cluster := depth[p] + 1], c)
  {
    AddDirSlots(f, tabs, depth, p, s, e, t, c);
    if c == p {
      UniqueAfterSet(tabs[p], s, e);
    }
    if c != ROOT_CLUSTER {
      HeldAfterSet(tabs, p, s, e, c);
      HeldIgnoresFresh(SetSlot(tabs, p, s, e), e.cluster, t, c);
    }
  }

  lemma HeldIgnoresFresh(tabs: Tables, k: nat, t: Table, c: nat)
    requires k !in tabs && c in tabs && Held(tabs, c)
    ensures Held(tabs[k := t], c)
  {
    var q := ParentOf(tabs[c]);
    var i: nat :| Live(tabs, q, i) && tabs[q][i].cluster == c;
    assert Live(tabs[k := t], q, i);
  }

  lemma AddDirNew(f: Fat, tabs: Tables, depth: Depths, p: nat, s: nat, e: Entry, t: Table)
    requires CanAddDir(f, tabs, depth, p, s, e, t)
    requires DirOk(f, tabs, depth, p)
    ensures DirOk(f, AddDir(tabs, p, s, e, t), depth[e.cluster := depth[p] + 1], e.cluster)
  {
    assert Live(AddDir(tabs, p, s, e, t), p, s);
    assert t[1].Id() == tabs[p][1].Id();
  }

  lemma AddDirAny(f: Fat, tabs: Tables, depth: Depths, p: nat, s: nat, e: Entry, t: Table, c: nat)
    requires Shape(f, tabs, depth) && CanAddDir(f, tabs, depth, p, s, e, t)
    requires HeadFree(tabs, e.cluster) && c in AddDir(tabs, p, s, e, t)
    ensures DirOk(f, AddDir(tabs, p, s, e, t), depth[e.cluster := depth[p] + 1], c)
  {
    if c == e.cluster {
      assert DirOk(f, tabs, depth, p);
      AddDirNew(f, tabs, depth, p, s, e, t);
    } else {
      assert DirOk(f, tabs, depth, c);
      AddDirOld(f, tabs, depth, p, s, e, t, c);
    }
  }

  lemma AddDirHeads(tabs: Tables, p: nat, s: nat, e: Entry, t: Table)
    requires HeadsUnique(tabs) && p in tabs && s < SLOTS && HeadFree(tabs, e.cluster)
    requires e.cluster !in tabs && forall i :: 2 <= i < SLOTS ==> t[i] == ZERO_ENTRY
    ensures HeadsUnique(AddDir(tabs, p, s, e, t))
  {
    HeadsAfterSet(tabs, p, s, e);
    HeadsIgnoreFresh(SetSlot(tabs, p, s, e), e.cluster, t);
  }

  lemma AddDirShape(f: Fat, tabs: Tables, depth: Depths, p: nat, s: nat, e: Entry, t: Table)
    requires Shape(f, tabs, depth) && CanAddDir(f, tabs, depth, p, s, e, t)
    requires HeadFree(tabs, e.cluster)
    ensures Shape(f, AddDir(tabs, p, s, e, t), depth[e.cluster := depth[p] + 1])
  {
    var k := e.cluster;
    var tabs' := AddDir(tabs, p, s, e, t);
    var depth' := depth[k := depth[p] + 1];
    assert tabs'.Keys == tabs.Keys + {k} == depth'.Keys;
    assert HeadsUnique(tabs') by {
      AddDirHeads(tabs, p, s, e, t);
    }
    forall c {:trigger DirOk(f, tabs', depth', c)} | c in tabs'
      ensures DirOk(f, tabs', depth', c)
    {
      AddDirAny(f, tabs, depth, p, s, e, t, c);
    }
  }

  lemma HeadsIgnoreFresh(tabs: Tables, k: nat, t: Table)
    requires HeadsUnique(tabs) && k !in tabs && forall i :: 2 <= i < SLOTS ==> t[i] == ZERO_ENTRY
    ensures HeadsUnique(tabs[k := t])
  {
    var tabs' := tabs[k := t];
    forall c: nat, i: nat, c': nat, i': nat |
      Live(tabs', c, i) && Live(tabs', c', i') && tabs'[c][i].cluster == tabs'[c'][i'].cluster
      ensures c == c' && i == i'
    {
      assert Live(tabs, c, i) && Live(tabs, c', i');
    }
  }

  // ---- removing an empty directory ----

  predicate EmptyTable(t: Table) {
    forall i :: 2 <= i < SLOTS ==> !t[i].Occupied()
  }

  function RemoveDir(tabs: Tables, p: nat, s: nat): Tables
    requires p in tabs && s < SLOTS
  {
    SetSlot(tabs, p, s, ZERO_ENTRY) - {tabs[p][s].cluster}
  }

  ghost predicate CanRemoveDir(f: Fat, tabs: Tables, depth: Depths, p: nat, s: nat) {
    && Shape(f, tabs, depth) && Live(tabs, p, s)
    && tabs[p][s].attribute == ATTR_SUBDIRECTORY && tabs[p][s].cluster in tabs
    && EmptyTable(tabs[tabs[p][s].cluster])
  }

  lemma RemoveDirTarget(f: Fat, tabs: Tables, depth: Depths, p: nat, s: nat)
    requires CanRemoveDir(f, tabs, depth, p, s)
    ensures var k := tabs[p][s].cluster;
      k != ROOT_CLUSTER && ParentOf(tabs[k]) == p && k != p && DirClusterOk(f, k) && k >= 3
  {
    assert DirOk(f, tabs, depth, p);
    assert SlotOk(f, tabs, p, tabs[p][s]);
    var k := tabs[p][s].cluster;
    assert DirOk(f, tabs, depth, k);
  }

  lemma RemoveDirSlots(f: Fat, tabs: Tables, depth: Depths, p: nat, s: nat, c: nat)
    requires CanRemoveDir(f, tabs, depth, p, s) && c in tabs && c != tabs[p][s].cluster
    ensures SlotsOk(f, RemoveDir(tabs, p, s), c)
  {
    RemoveDirTarget(f, tabs, depth, p, s);
    var tabs' := RemoveDir(tabs, p, s);
    assert DirOk(f, tabs, depth, c);
    forall i | 2 <= i < SLOTS
      ensures SlotOk(f, tabs', c, tabs'[c][i])
    {
      if c != p || i != s {
        assert SlotOk(f, tabs, c, tabs[c][i]);
        if tabs[c][i] != ZERO_ENTRY {
          assert Live(tabs, c, i);
          assert tabs[c][i].cluster != tabs[p][s].cluster;
        }
      }
    }
  }

  lemma RemoveDirRest(f: Fat, tabs: Tables, depth: Depths, p: nat, s: nat, c: nat)
    requires CanRemoveDir(f, tabs, depth, p, s) && c in tabs && c != tabs[p][s].cluster
    ensures DirOk(f, RemoveDir(tabs, p, s), depth - {tabs[p][s].cluster}, c)
  {
    var k := tabs[p][s].cluster;
    assert DirOk(f, tabs, depth, c);
    RemoveDirTarget(f, tabs, depth, p, s);
    RemoveDirSlots(f, tabs, depth, p, s, c);
    if c == p {
      UniqueAfterSet(tabs[p], s, ZERO_ENTRY);
    }
    if c != ROOT_CLUSTER {
      HeldAfterSet(tabs, p, s, ZERO_ENTRY, c);
      HeldWithoutEmpty(SetSlot(tabs, p, s, ZERO_ENTRY), k, c);
    }
  }

  /** An empty directory holds nobody, so dropping it leaves everyone held. */
  lemma HeldWithoutEmpty(tabs: Tables, k: nat, c: nat)
    requires k in tabs && EmptyTable(tabs[k]) && c in tabs && c != k && Held(tabs, c)
    ensures ParentOf(tabs[c]) != k
    ensures Held(tabs - {k}, c)
  {
    var q := ParentOf(tabs[c]);
    var i: nat :| Live(tabs, q, i) && tabs[q][i].cluster == c;
    assert Live(tabs - {k}, q, i);
  }

  lemma RemoveDirShape(f: Fat, tabs: Tables, depth: Depths, p: nat, s: nat)
    requires CanRemoveDir(f, tabs, depth, p, s)
    ensures Shape(f, RemoveDir(tabs, p, s), depth - {tabs[p][s].cluster})
  {
    var k := tabs[p][s].cluster;
    var tabs' := RemoveDir(tabs, p, s);
    RemoveDirTarget(f, tabs, depth, p, s);
    forall c | c in tabs'
      ensures DirOk(f, tabs', depth - {k}, c)
    {
      RemoveDirRest(f, tabs, depth, p, s, c);
    }
    HeadsAfterSet(tabs, p, s, ZERO_ENTRY);
    HeadsSubset(SetSlot(tabs, p, s, ZERO_ENTRY), k);
  }

  lemma HeadsSubset(tabs: Tables, k: nat)
    requires HeadsUnique(tabs)
    ensures HeadsUnique(tabs - {k})
  {
    var tabs' := tabs - {k};
    forall c: nat, i: nat, c': nat, i': nat |
      Live(tabs', c, i) && Live(tabs', c', i') && tabs'[c][i].cluster == tabs'[c'][i'].cluster
      ensures c == c' && i == i'
    {
      assert Live(tabs, c, i) && Live(tabs, c', i');
    }
  }

  // ---- changing the cluster map ----

  /** What the directory tables ask of the cluster map still holds in `g`. */
  ghost predicate MapServes(f: Fat, g: Fat, tabs: Tables) {
    && (forall c :: c in tabs && 2 <= c < CLUSTER_MAP_SIZE ==> g[c] == f[c] && NoPredecessor(g, c))
    && (forall c: nat, s: nat :: Live(tabs, c, s) && FileEntryOk(f, tabs, tabs[c][s]) ==>
          FileEntryOk(g, tabs, tabs[c][s]))
  }

  lemma ChangeMapShape(f: Fat, g: Fat, tabs: Tables, depth: Depths)
    requires Shape(f, tabs, depth) && FatOk(g) && MapServes(f, g, tabs)
    ensures Shape(g, tabs, depth)
  {
    forall c | c in tabs
      ensures DirOk(g, tabs, depth, c)
    {
      assert DirOk(f, tabs, depth, c);
      forall i | 2 <= i < SLOTS
        ensures SlotOk(g, tabs, c, tabs[c][i])
      {
        assert SlotOk(f, tabs, c, tabs[c][i]);
        assert tabs[c][i] == ZERO_ENTRY || Live(tabs, c, i);
      }
    }
  }

  /** A map that only adds entries, linking the new ones among themselves. */
  predicate MapGrows(f: Fat, g: Fat) {
    && FatOk(g)
    && (forall i :: 0 <= i < CLUSTER_MAP_SIZE && f[i] != EMPTY_ENTRY ==> g[i] == f[i])
    && (forall i :: 0 <= i < CLUSTER_MAP_SIZE && f[i] == EMPTY_ENTRY && 0 < g[i] < CLUSTER_MAP_SIZE ==>
          f[g[i]] == EMPTY_ENTRY)
  }

  lemma GrowKeepsChain(f: Fat, g: Fat, h: nat)
    requires FatOk(f) && MapGrows(f, g) && 3 <= h < CLUSTER_MAP_SIZE && f[h] != EMPTY_ENTRY
    ensures Chain(g, h) == Chain(f, h)
  {
    ChainWellFormed(f, h);
    ChainFrame(f, g, h);
  }

  lemma GrowKeepsNoPredecessor(f: Fat, g: Fat, h: nat)
    requires MapGrows(f, g) && 0 < h < CLUSTER_MAP_SIZE && f[h] != EMPTY_ENTRY && NoPredecessor(f, h)
    ensures NoPredecessor(g, h)
  {
  }

  lemma GrowMapShape(f: Fat, g: Fat, tabs: Tables, depth: Depths)
    requires Shape(f, tabs, depth) && MapGrows(f, g)
    ensures Shape(g, tabs, depth)
  {
    forall c | c in tabs && 2 <= c < CLUSTER_MAP_SIZE
      ensures g[c] == f[c] && NoPredecessor(g, c)
    {
      assert DirOk(f, tabs, depth, c);
      GrowKeepsNoPredecessor(f, g, c);
    }
    forall c: nat, s: nat | Live(tabs, c, s) && FileEntryOk(f, tabs, tabs[c][s])
      ensures FileEntryOk(g, tabs, tabs[c][s])
    {
      GrowKeepsNoPredecessor(f, g, tabs[c][s].cluster);
      GrowKeepsChain(f, g, tabs[c][s].cluster);
    }
    ChangeMapShape(f, g, tabs, depth);
  }

  /** Entry `k` ends a chain nobody links to and belongs to no directory and no file. */
  ghost predicate Clearable(f: Fat, tabs: Tables, k: nat) {
    3 <= k && DirClusterOk(f, k) && k !in tabs && HeadFree(tabs, k)
  }

  lemma ClearKeepsChain(f: Fat, k: nat, h: nat)
    requires FatOk(f) && DirClusterOk(f, k) && 3 <= h < CLUSTER_MAP_SIZE && h != k
    ensures Chain(f[k := EMPTY_ENTRY], h) == Chain(f, h)
  {
    if k in Chain(f, h) {
      var q := ChainPredecessor(f, h, k);
    }
    ChainFrame(f, f[k := EMPTY_ENTRY], h);
  }

  lemma ClearFatOk(f: Fat, k: nat)
    requires FatOk(f) && 3 <= k && DirClusterOk(f, k)
    ensures FatOk(f[k := EMPTY_ENTRY])
    ensures FreeSet(f[k := EMPTY_ENTRY]) == FreeSet(f) + {k}
  {
    var g := f[k := EMPTY_ENTRY];
    forall i | 3 <= i < CLUSTER_MAP_SIZE
      ensures LinkOk(g, i)
    {
      assert LinkOk(f, i);
    }
  }

  lemma ClearMapShape(f: Fat, tabs: Tables, depth: Depths, k: nat)
    requires Shape(f, tabs, depth) && Clearable(f, tabs, k)
    ensures Shape(f[k := EMPTY_ENTRY], tabs, depth)
  {
    var g := f[k := EMPTY_ENTRY];
    ClearFatOk(f, k);
    forall c | c in tabs && 2 <= c < CLUSTER_MAP_SIZE
      ensures g[c] == f[c] && NoPredecessor(g, c)
    {
      assert DirOk(f, tabs, depth, c);
    }
    forall c: nat, s: nat | Live(tabs, c, s) && FileEntryOk(f, tabs, tabs[c][s])
      ensures FileEntryOk(g, tabs, tabs[c][s])
    {
      ClearKeepsChain(f, k, tabs[c][s].cluster);
    }
    ChangeMapShape(f, g, tabs, depth);
  }
}
