/**
 * The elementary disk updates every file system operation is made of, and what each does to
 * the volume: whether it stays well-formed, and which tree it then stands for.
 */
module VolumeSteps {
  import opened FatLayout
  import opened FatChains
  import opened Volume
  import opened ShapeSteps

  // ---- tables as maps from names to items ----

  /** Every slot is blank or occupied under a name that is not blank, and names are unique. */
  predicate Tidy(t: Table) {
    && (forall i :: 0 <= i < SLOTS ==> t[i] == ZERO_ENTRY || (t[i].Occupied() && t[i].Id() != BLANK_KEY))
    && UniqueIds(t)
  }

  lemma ShapeTidy(f: Fat, tabs: Tables, depth: Depths, c: nat)
    requires Shape(f, tabs, depth) && c in tabs
    ensures Tidy(tabs[c])
  {
    assert DirOk(f, tabs, depth, c);
    TableFull(f, tabs, depth, c);
  }

  lemma EntriesAt(d: Disk, f: Fat, t: Table, s: nat)
    requires Tidy(t) && 2 <= s < SLOTS && t[s].Occupied()
    ensures t[s].Id() in Entries(d, f, t) && Entries(d, f, t)[t[s].Id()] == ItemOf(d, f, t[s])
    ensures FindId(t, t[s].Id(), 0) == FindId(t, t[s].Id(), 2) == s
  {
    FindUnique(t, s, 0);
    FindUnique(t, s, 2);
    assert t[s].Id() in Ids(t);
  }

  lemma EntryHasSlot(d: Disk, f: Fat, t: Table, k: Key) returns (s: nat)
    requires k in Entries(d, f, t)
    ensures 2 <= s < SLOTS && t[s].Occupied() && t[s].Id() == k
  {
    assert k in Ids(t);
    s :| 2 <= s < SLOTS && t[s].Occupied() && t[s].Id() == k;
  }

  /** Tables with the same members, holding the same items, list the same entries. */
  lemma EntriesFrame(d: Disk, f: Fat, d': Disk, f': Fat, t: Table)
    requires Tidy(t)
    requires forall s :: 2 <= s < SLOTS && t[s].Occupied() ==> ItemOf(d', f', t[s]) == ItemOf(d, f, t[s])
    ensures Entries(d', f', t) == Entries(d, f, t)
  {
    forall k | k in Entries(d, f, t)
      ensures k in Entries(d', f', t) && Entries(d', f', t)[k] == Entries(d, f, t)[k]
    {
      var s := EntryHasSlot(d, f, t, k);
      EntriesAt(d, f, t, s);
      EntriesAt(d', f', t, s);
    }
    assert Entries(d', f', t).Keys == Entries(d, f, t).Keys;
  }

  /** An entry survives a change of a slot other than its own. */
  lemma EntryKept(d: Disk, f: Fat, t: Table, s: nat, e: Entry, k: Key)
    requires Tidy(t) && 2 <= s < SLOTS && Tidy(t[s := e])
    requires k in Entries(d, f, t) && (t[s].Occupied() ==> t[s].Id() != k)
    ensures k in Entries(d, f, t[s := e]) && Entries(d, f, t[s := e])[k] == Entries(d, f, t)[k]
  {
    var i := EntryHasSlot(d, f, t, k);
    EntriesAt(d, f, t, i);
    assert t[s := e][i] == t[i];
    EntriesAt(d, f, t[s := e], i);
  }

  lemma TidyAfterSet(t: Table, s: nat, e: Entry)
    requires Tidy(t) && s < SLOTS
    requires e == ZERO_ENTRY || (e.Occupied() && e.Id() != BLANK_KEY && NameFree(t, e.Id()))
    ensures Tidy(t[s := e])
  {
    UniqueAfterSet(t, s, e);
  }

  /** A map agreeing with `m` on its keys and holding nothing else but `k` is `m` with `k` set. */
  lemma MapAdded<V>(m: map<Key, V>, m': map<Key, V>, k: Key, v: V)
    requires k in m' && m'[k] == v
    requires forall x :: x in m && x != k ==> x in m' && m'[x] == m[x]
    requires forall x :: x in m' && x != k ==> x in m
    ensures m' == m[k := v]
  {
  }

  lemma MapRemoved<V>(m: map<Key, V>, m': map<Key, V>, k: Key, v: V)
    requires m == m'[k := v] && k !in m'
    ensures m' == m - {k}
  {
  }

  lemma EntriesKept(d: Disk, f: Fat, t: Table, s: nat, e: Entry)
    requires Tidy(t) && 2 <= s < SLOTS && Tidy(t[s := e])
    ensures forall k :: k in Entries(d, f, t) && (t[s].Occupied() ==> t[s].Id() != k) ==>
      k in Entries(d, f, t[s := e]) && Entries(d, f, t[s := e])[k] == Entries(d, f, t)[k]
  {
    forall k | k in Entries(d, f, t) && (t[s].Occupied() ==> t[s].Id() != k)
      ensures k in Entries(d, f, t[s := e]) && Entries(d, f, t[s := e])[k] == Entries(d, f, t)[k]
    {
      EntryKept(d, f, t, s, e, k);
    }
  }

  lemma EntryNotYet(d: Disk, f: Fat, t: Table, k: Key)
    requires NameFree(t, k)
    ensures k !in Entries(d, f, t)
  {
  }

  lemma EntriesSet(d: Disk, f: Fat, t: Table, s: nat, e: Entry)
    requires Tidy(t) && 2 <= s < SLOTS && !t[s].Occupied()
    requires e.Occupied() && e.Id() != BLANK_KEY && NameFree(t, e.Id())
    ensures Tidy(t[s := e])
    ensures e.Id() !in Entries(d, f, t)
    ensures Entries(d, f, t[s := e]) == Entries(d, f, t)[e.Id() := ItemOf(d, f, e)]
  {
    TidyAfterSet(t, s, e);
    EntryNotYet(d, f, t, e.Id());
    EntriesSetBody(d, f, t, t[s := e], s);
  }

  lemma EntriesSetBody(d: Disk, f: Fat, t: Table, t': Table, s: nat)
    requires Tidy(t) && 2 <= s < SLOTS && !t[s].Occupied() && Tidy(t')
    requires t' == t[s := t'[s]] && t'[s].Occupied()
    ensures Entries(d, f, t') == Entries(d, f, t)[t'[s].Id() := ItemOf(d, f, t'[s])]
  {
    EntriesAt(d, f, t', s);
    assert t'[s := t[s]] == t;
    EntriesKept(d, f, t, s, t'[s]);
    EntriesKept(d, f, t', s, t[s]);
    MapAdded(Entries(d, f, t), Entries(d, f, t'), t'[s].Id(), ItemOf(d, f, t'[s]));
  }

  lemma EntriesClear(d: Disk, f: Fat, t: Table, s: nat)
    requires Tidy(t) && 2 <= s < SLOTS && t[s].Occupied()
    ensures Tidy(t[s := ZERO_ENTRY])
    ensures Entries(d, f, t[s := ZERO_ENTRY]) == Entries(d, f, t) - {t[s].Id()}
  {
    var t' := t[s := ZERO_ENTRY];
    TidyAfterSet(t, s, ZERO_ENTRY);
    assert t == t'[s := t[s]];
    EntriesSetBody(d, f, t', t, s);
    EntryNotYet(d, f, t', t[s].Id()) by {
      assert NameFree(t', t[s].Id());
    }
    MapRemoved(Entries(d, f, t), Entries(d, f, t'), t[s].Id(), ItemOf(d, f, t[s]));
  }

  lemma EntriesEmpty(d: Disk, f: Fat, t: Table)
    requires Tidy(t)
    ensures Entries(d, f, t) == map[] <==> EmptyTable(t)
  {
    if EmptyTable(t) {
      if k :| k in Entries(d, f, t) {
        var s := EntryHasSlot(d, f, t, k);
      }
    } else {
      var s :| 2 <= s < SLOTS && t[s].Occupied();
      EntriesAt(d, f, t, s);
    }
  }

  // ---- files untouched by a change elsewhere ----

  /** Seen from entry `e`, disk and map have not changed. */
  predicate SameFile(d: Disk, f: Fat, d': Disk, f': Fat, e: Entry) {
    || e.attribute == ATTR_SUBDIRECTORY
    || e.cluster >= CLUSTER_MAP_SIZE
    || (Chain(f', e.cluster) == Chain(f, e.cluster)
        && forall x :: x in Chain(f, e.cluster) ==> d'[x] == d[x])
  }

  lemma {:induction false} RawFrame(d: Disk, d': Disk, ch: seq<nat>)
    requires forall i :: 0 <= i < |ch| ==> ch[i] < CLUSTER_MAP_SIZE && d'[ch[i]] == d[ch[i]]
    ensures Raw(d', ch) == Raw(d, ch)
  {
    if ch != [] {
      RawFrame(d, d', ch[1..]);
    }
  }

  lemma SameFileItem(d: Disk, f: Fat, d': Disk, f': Fat, e: Entry)
    requires SameFile(d, f, d', f', e)
    ensures ItemOf(d', f', e) == ItemOf(d, f, e)
    ensures Padded(d, f, e) ==> Padded(d', f', e)
  {
    if e.attribute != ATTR_SUBDIRECTORY && e.cluster < CLUSTER_MAP_SIZE {
      RawFrame(d, d', Chain(f, e.cluster));
    }
  }

  ghost predicate FilesKept(d: Disk, f: Fat, d': Disk, f': Fat, tabs: Tables) {
    forall c: nat, s: nat {:trigger Live(tabs, c, s)} ::
      Live(tabs, c, s) ==> SameFile(d, f, d', f', tabs[c][s])
  }

  lemma DirFrame(d: Disk, f: Fat, d': Disk, f': Fat, tabs: Tables, c: nat)
    requires FilesKept(d, f, d', f', tabs) && c in tabs && Tidy(tabs[c])
    ensures DirOf(d', f', tabs[c]) == DirOf(d, f, tabs[c])
  {
    forall s | 2 <= s < SLOTS && tabs[c][s].Occupied()
      ensures ItemOf(d', f', tabs[c][s]) == ItemOf(d, f, tabs[c][s])
    {
      assert Live(tabs, c, s);
      SameFileItem(d, f, d', f', tabs[c][s]);
    }
    EntriesFrame(d, f, d', f', tabs[c]);
  }

  lemma TreeFrame(d: Disk, f: Fat, d': Disk, f': Fat, tabs: Tables)
    requires FilesKept(d, f, d', f', tabs) && AllPadded(d, f, tabs)
    requires forall c :: c in tabs ==> Tidy(tabs[c])
    ensures TreeOf(d', f', tabs) == TreeOf(d, f, tabs)
    ensures AllPadded(d', f', tabs)
  {
    forall c | c in tabs
      ensures DirOf(d', f', tabs[c]) == DirOf(d, f, tabs[c])
    {
      DirFrame(d, f, d', f', tabs, c);
    }
    forall c: nat, s: nat | Live(tabs, c, s)
      ensures Padded(d', f', tabs[c][s])
    {
      SameFileItem(d, f, d', f', tabs[c][s]);
    }
  }

  lemma AllTidy(f: Fat, tabs: Tables, depth: Depths)
    requires Shape(f, tabs, depth)
    ensures forall c :: c in tabs ==> Tidy(tabs[c])
  {
    forall c | c in tabs
      ensures Tidy(tabs[c])
    {
      ShapeTidy(f, tabs, depth, c);
    }
  }

  // ---- writing a cluster nobody owns ----

  /** `x` is neither a live directory nor part of a live file. */
  ghost predicate Unowned(f: Fat, tabs: Tables, x: nat) {
    && 3 <= x && x !in tabs
    && forall c: nat, s: nat {:trigger Live(tabs, c, s)} ::
         (Live(tabs, c, s) && tabs[c][s].attribute != ATTR_SUBDIRECTORY
          && tabs[c][s].cluster < CLUSTER_MAP_SIZE)
         ==> x !in Chain(f, tabs[c][s].cluster)
  }

  lemma FatElsewhere(d: Disk, x: nat, data: Cluster)
    requires x < IMAGE_CLUSTERS && x != FAT_CLUSTER
    ensures FatOf(d[x := data]) == FatOf(d)
  {
  }

  lemma TablesElsewhere(d: Disk, dirs: set<nat>, x: nat, data: Cluster)
    requires x < IMAGE_CLUSTERS && x !in dirs
    ensures TablesOf(d[x := data], dirs) == TablesOf(d, dirs)
  {
  }

  /** Writing an unowned cluster changes nothing the volume stands for. */
  lemma WriteUnowned(d: Disk, depth: Depths, x: nat, data: Cluster)
    requires Inv(d, depth) && x < IMAGE_CLUSTERS
    requires Unowned(FatOf(d), TablesOf(d, depth.Keys), x)
    ensures Inv(d[x := data], depth) && Abs(d[x := data], depth) == Abs(d, depth)
    ensures FatOf(d[x := data]) == FatOf(d)
    ensures TablesOf(d[x := data], depth.Keys) == TablesOf(d, depth.Keys)
  {
    var d' := d[x := data];
    var f := FatOf(d);
    var tabs := TablesOf(d, depth.Keys);
    FatElsewhere(d, x, data);
    TablesElsewhere(d, depth.Keys, x, data);
    AllTidy(f, tabs, depth);
    forall c: nat, s: nat | Live(tabs, c, s)
      ensures SameFile(d, f, d', f, tabs[c][s])
    {
    }
    TreeFrame(d, f, d', f, tabs);
  }

  /** Free clusters, and clusters past the map, belong to nobody. */
  lemma FreeIsUnowned(f: Fat, tabs: Tables, depth: Depths, x: nat)
    requires Shape(f, tabs, depth) && 3 <= x
    requires x < CLUSTER_MAP_SIZE ==> f[x] == EMPTY_ENTRY
    ensures Unowned(f, tabs, x)
  {
    assert x in tabs ==> DirOk(f, tabs, depth, x);
    forall c: nat, s: nat | Live(tabs, c, s) && tabs[c][s].attribute != ATTR_SUBDIRECTORY
                            && tabs[c][s].cluster < CLUSTER_MAP_SIZE
      ensures x !in Chain(f, tabs[c][s].cluster)
    {
      LiveFile(f, tabs, depth, c, s);
      ChainWellFormed(f, tabs[c][s].cluster);
    }
  }

  lemma LiveFile(f: Fat, tabs: Tables, depth: Depths, c: nat, s: nat)
    requires Shape(f, tabs, depth) && Live(tabs, c, s)
    ensures if tabs[c][s].attribute == ATTR_SUBDIRECTORY then DirEntryOk(tabs, c, tabs[c][s])
            else FileEntryOk(f, tabs, tabs[c][s])
    ensures tabs[c][s].Id() != BLANK_KEY
  {
    assert DirOk(f, tabs, depth, c);
    assert SlotOk(f, tabs, c, tabs[c][s]);
  }

  /** No file's chain runs through a directory's cluster. */
  lemma DirNotInFile(f: Fat, tabs: Tables, depth: Depths, p: nat, c: nat, s: nat)
    requires Shape(f, tabs, depth) && p in tabs && Live(tabs, c, s)
    requires tabs[c][s].attribute != ATTR_SUBDIRECTORY
    ensures tabs[c][s].cluster < CLUSTER_MAP_SIZE && p !in Chain(f, tabs[c][s].cluster)
  {
    LiveFile(f, tabs, depth, c, s);
    assert DirOk(f, tabs, depth, p);
    if p in Chain(f, tabs[c][s].cluster) {
      var q := ChainPredecessor(f, tabs[c][s].cluster, p);
    }
  }

  // ---- storing another cluster map ----

  ghost predicate ChainsKept(f: Fat, g: Fat, tabs: Tables) {
    forall c: nat, s: nat {:trigger Live(tabs, c, s)} ::
      Live(tabs, c, s) && tabs[c][s].attribute != ATTR_SUBDIRECTORY && tabs[c][s].cluster < CLUSTER_MAP_SIZE
      ==> Chain(g, tabs[c][s].cluster) == Chain(f, tabs[c][s].cluster)
  }

  /** Storing a map that serves the same directories keeps the tree; only the free set changes. */
  lemma WriteMap(d: Disk, depth: Depths, g: Fat)
    requires Inv(d, depth) && Shape(g, TablesOf(d, depth.Keys), depth)
    requires ChainsKept(FatOf(d), g, TablesOf(d, depth.Keys))
    ensures var d' := d[FAT_CLUSTER := EncodeFat(g)];
      && Inv(d', depth) && Abs(d', depth) == Abs(d, depth).(free := FreeSet(g))
      && FatOf(d') == g && TablesOf(d', depth.Keys) == TablesOf(d, depth.Keys)
  {
    var f := FatOf(d);
    var tabs := TablesOf(d, depth.Keys);
    var d' := d[FAT_CLUSTER := EncodeFat(g)];
    DecodeEncodeFat(g);
    assert FAT_CLUSTER in tabs ==> DirOk(f, tabs, depth, FAT_CLUSTER);
    TablesElsewhere(d, depth.Keys, FAT_CLUSTER, EncodeFat(g));
    AllTidy(f, tabs, depth);
    forall c: nat, s: nat | Live(tabs, c, s)
      ensures SameFile(d, f, d', g, tabs[c][s])
    {
      if tabs[c][s].attribute != ATTR_SUBDIRECTORY {
        LiveFile(f, tabs, depth, c, s);
        ChainWellFormed(f, tabs[c][s].cluster);
      }
    }
    TreeFrame(d, f, d', g, tabs);
  }

  lemma WriteGrownMap(d: Disk, depth: Depths, g: Fat)
    requires Inv(d, depth) && MapGrows(FatOf(d), g)
    ensures var d' := d[FAT_CLUSTER := EncodeFat(g)];
      && Inv(d', depth) && Abs(d', depth) == Abs(d, depth).(free := FreeSet(g))
      && FatOf(d') == g && TablesOf(d', depth.Keys) == TablesOf(d, depth.Keys)
  {
    var f := FatOf(d);
    var tabs := TablesOf(d, depth.Keys);
    GrowMapShape(f, g, tabs, depth);
    forall c: nat, s: nat | Live(tabs, c, s) && tabs[c][s].attribute != ATTR_SUBDIRECTORY
                            && tabs[c][s].cluster < CLUSTER_MAP_SIZE
      ensures Chain(g, tabs[c][s].cluster) == Chain(f, tabs[c][s].cluster)
    {
      LiveFile(f, tabs, depth, c, s);
      GrowKeepsChain(f, g, tabs[c][s].cluster);
    }
    WriteMap(d, depth, g);
  }

  lemma WriteClearedMap(d: Disk, depth: Depths, k: nat)
    requires Inv(d, depth) && Clearable(FatOf(d), TablesOf(d, depth.Keys), k)
    ensures var d' := d[FAT_CLUSTER := EncodeFat(FatOf(d)[k := EMPTY_ENTRY])];
      && Inv(d', depth) && Abs(d', depth) == Abs(d, depth).(free := FreeSet(FatOf(d)) + {k})
  {
    var f := FatOf(d);
    var tabs := TablesOf(d, depth.Keys);
    var g := f[k := EMPTY_ENTRY];
    ClearMapShape(f, tabs, depth, k);
    ClearFatOk(f, k);
    forall c: nat, s: nat | Live(tabs, c, s) && tabs[c][s].attribute != ATTR_SUBDIRECTORY
                            && tabs[c][s].cluster < CLUSTER_MAP_SIZE
      ensures Chain(g, tabs[c][s].cluster) == Chain(f, tabs[c][s].cluster)
    {
      LiveFile(f, tabs, depth, c, s);
      ClearKeepsChain(f, k, tabs[c][s].cluster);
    }
    WriteMap(d, depth, g);
  }
}
