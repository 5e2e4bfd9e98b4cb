/** `write` on a well-formed volume: it simulates the abstract write, and files appear atomically. */
module FatWrite {
  import opened Bytes
  import opened FatLayout
  import opened FatChains
  import opened Volume
  import opened ShapeSteps
  import opened VolumeSteps
  import opened VolumeEdits
  import opened FatOps
  import opened FatTables
  import opened AbstractFs

  // ---- replaying writes ----

  lemma {:induction false} ReplayUnowned(d: Disk, depth: Depths, w: seq<ClusterWrite>)
    requires Inv(d, depth)
    requires forall i :: 0 <= i < |w| ==> Unowned(FatOf(d), TablesOf(d, depth.Keys), w[i].at)
    ensures Inv(Replay(d, w), depth) && Abs(Replay(d, w), depth) == Abs(d, depth)
    ensures FatOf(Replay(d, w)) == FatOf(d)
    ensures TablesOf(Replay(d, w), depth.Keys) == TablesOf(d, depth.Keys)
    decreases |w|
  {
    if w != [] {
      var v := w[..|w| - 1];
      ReplayUnowned(d, depth, v);
      WriteUnowned(Replay(d, v), depth, w[|w| - 1].at, w[|w| - 1].data);
    }
  }

  // ---- file data ----

  lemma ClustersStep(data: seq<byte>)
    requires |data| >= CLUSTER_SIZE
    ensures ClustersFor(data) == ClustersFor(data[CLUSTER_SIZE..]) + 1
  {
    var a, b := ClustersFor(data), ClustersFor(data[CLUSTER_SIZE..]);
    assert |data| <= a * 2048 < |data| + 2048;
    assert |data| - 2048 <= b * 2048 < |data|;
  }

  lemma ChunkShift(data: seq<byte>, i: nat)
    requires |data| >= CLUSTER_SIZE && (i + 1) * CLUSTER_SIZE <= |data|
    ensures Chunk(data, i + 1) == Chunk(data[CLUSTER_SIZE..], i)
  {
  }

  /** A chain holding the chunks of `data` reads back as `data` followed by zeros. */
  lemma {:induction false} RawChunks(d: Disk, ch: seq<nat>, data: seq<byte>)
    requires InMap(ch) && |data| > 0 && |ch| == ClustersFor(data)
    requires forall i :: 0 <= i < |ch| ==> d[ch[i]] == Chunk(data, i)
    ensures Raw(d, ch) == data + Zeros(CLUSTER_SIZE * |ch| - |data|)
    decreases |ch|
  {
    if |data| <= CLUSTER_SIZE {
      assert |ch| == 1 && ch[1..] == [];
      assert Raw(d, ch) == Chunk(data, 0);
    } else {
      var rest := data[CLUSTER_SIZE..];
      forall i | 0 <= i < |ch| - 1
        ensures d[ch[1..][i]] == Chunk(rest, i)
      {
        ChunkShift(data, i);
        hide Chunk;
        assert d[ch[i + 1]] == Chunk(data, i + 1);
      }
      ClustersStep(data);
      RawChunks(d, ch[1..], rest);
      assert Chunk(data, 0) == data[..CLUSTER_SIZE];
      assert data == data[..CLUSTER_SIZE] + rest;
    }
  }

  lemma DataStored(d: Disk, data: seq<byte>, ch: seq<nat>)
    requires InMap(ch) && StrictlyUp(ch) && |data| > 0 && |ch| == ClustersFor(data)
    ensures Raw(Replay(d, DataWrites(data, ch)), ch) == data + Zeros(CLUSTER_SIZE * |ch| - |data|)
  {
    var w := DataWrites(data, ch);
    forall i | 0 <= i < |ch|
      ensures Replay(d, w)[ch[i]] == Chunk(data, i)
    {
      ReplayAt(d, w, i);
    }
    RawChunks(Replay(d, w), ch, data);
  }

  // ---- the chain `write` allocates ----

  lemma FreeHead(f: Fat, tabs: Tables, depth: Depths, x: nat)
    requires Shape(f, tabs, depth) && 3 <= x < CLUSTER_MAP_SIZE && f[x] == EMPTY_ENTRY
    ensures x !in tabs && HeadFree(tabs, x)
  {
    FreeIsUnowned(f, tabs, depth, x);
    forall c: nat, s: nat | Live(tabs, c, s)
      ensures tabs[c][s].cluster != x
    {
      LiveFile(f, tabs, depth, c, s);
      assert tabs[c][s].attribute != ATTR_SUBDIRECTORY ==> x !in Chain(f, tabs[c][s].cluster);
    }
  }

  lemma LinkGrows(f: Fat, ch: seq<nat>)
    requires FatOk(f) && InMap(ch) && StrictlyUp(ch) && |ch| > 0
    requires forall i :: 0 <= i < |ch| ==> f[ch[i]] == EMPTY_ENTRY
    ensures MapGrows(f, LinkChain(f, ch))
  {
    var g := LinkChain(f, ch);
    LinkChainOk(f, ch);
    LinkChainAt(f, ch);
    forall i | 0 <= i < CLUSTER_MAP_SIZE && f[i] == EMPTY_ENTRY && 0 < g[i] < CLUSTER_MAP_SIZE
      ensures f[g[i]] == EMPTY_ENTRY
    {
      if i in ch {
        LinkChainInside(f, ch, i);
      }
    }
  }

  // ---- writing a file ----

  /** Clusters in ascending order, all free and nobody's. */
  ghost predicate FreshChain(f: Fat, tabs: Tables, ch: seq<nat>) {
    && InMap(ch) && StrictlyUp(ch) && |ch| > 0
    && (forall i :: 0 <= i < |ch| ==> f[ch[i]] == EMPTY_ENTRY)
    && (forall i :: 0 <= i < |ch| ==> Unowned(f, tabs, ch[i]))
  }

  lemma FreeListFresh(f: Fat, tabs: Tables, depth: Depths, n: nat)
    requires Shape(f, tabs, depth) && 0 < n <= |FreeList(f)|
    ensures FreshChain(f, tabs, FreeList(f)[..n])
  {
    var ch := FreeList(f)[..n];
    forall i | 0 <= i < |ch|
      ensures Unowned(f, tabs, ch[i])
    {
      FreeIsUnowned(f, tabs, depth, ch[i]);
    }
  }

  /** After the data clusters, in any number, nothing has changed for anyone. */
  lemma DataPhase(d: Disk, depth: Depths, data: seq<byte>, ch: seq<nat>, k: nat)
    requires Inv(d, depth) && FreshChain(FatOf(d), TablesOf(d, depth.Keys), ch)
    requires k <= |ch| <= ClustersFor(data)
    ensures var d' := Replay(d, DataWrites(data, ch)[..k]);
      && Inv(d', depth) && Abs(d', depth) == Abs(d, depth)
      && FatOf(d') == FatOf(d) && TablesOf(d', depth.Keys) == TablesOf(d, depth.Keys)
  {
    ReplayUnowned(d, depth, DataWrites(data, ch)[..k]);
  }

  /** After the cluster map, the new chain is reserved but the tree is still the old one. */
  lemma MapPhase(d: Disk, depth: Depths, ch: seq<nat>, g: Fat)
    requires Inv(d, depth) && FreshChain(FatOf(d), TablesOf(d, depth.Keys), ch)
    requires g == LinkChain(FatOf(d), ch)
    ensures var d' := d[FAT_CLUSTER := EncodeFat(g)];
      && Inv(d', depth) && FatOf(d') == g && TablesOf(d', depth.Keys) == TablesOf(d, depth.Keys)
      && Abs(d', depth) == Abs(d, depth).(free := Abs(d, depth).free - ToSet(ch))
  {
    LinkGrows(FatOf(d), ch);
    LinkChainOk(FatOf(d), ch);
    assert (set x | x in ch) == ToSet(ch);
    WriteGrownMap(d, depth, g);
  }

  /** The entry `write` makes for a file may join directory `p`. */
  lemma FileCanBeAdded(f: Fat, tabs: Tables, depth: Depths, p: nat, s: nat, e: Entry, ch: seq<nat>)
    requires Shape(f, tabs, depth) && p in tabs && 2 <= s < SLOTS && !tabs[p][s].Occupied()
    requires FreshChain(f, tabs, ch) && e.cluster == ch[0] && e.attribute == 0 && e.filesize > 0
    requires |ch| == CeilDiv(e.filesize, CLUSTER_SIZE)
    requires e.Occupied() && NameFree(tabs[p], e.Id()) && e.Id() != BLANK_KEY
    ensures CanAddFile(LinkChain(f, ch), tabs, p, s, e)
  {
    LinkChainOk(f, ch);
    LinkChainAt(f, ch);
    LinkChainInside(f, ch, ch[0]);
    FreeHead(f, tabs, depth, ch[0]);
  }

  lemma FileReadsBack(d: Disk, data: seq<byte>, ch: seq<nat>, g: Fat, e: Entry, d': Disk)
    requires InMap(ch) && StrictlyUp(ch) && 0 < |data| < 0x1_0000_0000 && |ch| == ClustersFor(data)
    requires Chain(g, ch[0]) == ch && e.cluster == ch[0] && e.attribute == 0 && e.filesize == |data|
    requires d' == Replay(d, DataWrites(data, ch))[FAT_CLUSTER := EncodeFat(g)]
    ensures ItemOf(d', g, e) == File(data) && Padded(d', g, e)
  {
    DataStored(d, data, ch);
    RawFrame(Replay(d, DataWrites(data, ch)), d', ch);
    assert (data + Zeros(CLUSTER_SIZE * |ch| - |data|))[..|data|] == data;
  }

  /** The last write, of the parent's table, adds the file, its bytes exactly `data`. */
  lemma TablePhase(d: Disk, depth: Depths, data: seq<byte>, ch: seq<nat>, p: nat, s: nat, e: Entry, d': Disk)
    requires Inv(d, depth) && FreshChain(FatOf(d), TablesOf(d, depth.Keys), ch)
    requires 0 < |data| < 0x1_0000_0000 && |ch| == ClustersFor(data)
    requires d' == Replay(d, DataWrites(data, ch))[FAT_CLUSTER := EncodeFat(LinkChain(FatOf(d), ch))]
    requires p in depth && p < IMAGE_CLUSTERS && 2 <= s < SLOTS && !TableOf(d, p)[s].Occupied()
    requires e.cluster == ch[0] && e.attribute == 0 && e.filesize == |data| && e.Occupied()
    requires NameFree(TableOf(d, p), e.Id()) && e.Id() != BLANK_KEY
    ensures var d'' := d'[p := EncodeTable(TableOf(d, p)[s := e])];
      Inv(d'', depth)
      && Abs(d'', depth) == Abstract(Insert(Abs(d, depth).tree, p, e.Id(), File(data)),
                                     Abs(d, depth).free - ToSet(ch))
  {
    var f, tabs := FatOf(d), TablesOf(d, depth.Keys);
    var w := DataWrites(data, ch);
    DataPhase(d, depth, data, ch, |ch|);
    assert w[..|ch|] == w;
    MapPhase(Replay(d, w), depth, ch, LinkChain(f, ch));
    LinkChainAt(f, ch);
    FileReadsBack(d, data, ch, LinkChain(f, ch), e, d');
    FileCanBeAdded(f, tabs, depth, p, s, e, ch);
    assert TablesOf(d', depth.Keys)[p] == tabs[p];
    AddFile(d', depth, p, s, e);
  }

  /** The prefixes of a run of writes ending in `a` and `b`. */
  lemma PrefixWrites(d: Disk, v: seq<ClusterWrite>, a: ClusterWrite, b: ClusterWrite, k: nat)
    requires k <= |v| + 2
    ensures Replay(d, (v + [a, b])[..k])
         == if k <= |v| then Replay(d, v[..k])
            else if k == |v| + 1 then Replay(d, v)[a.at := a.data]
            else Replay(d, v)[a.at := a.data][b.at := b.data]
  {
    var w := v + [a, b];
    if k <= |v| {
      assert w[..k] == v[..k];
    } else if k == |v| + 1 {
      assert w[..k][..k - 1] == v;
    } else {
      assert w[..k][..k - 1] == v + [a];
      assert (v + [a])[..|v|] == v;
    }
  }

  lemma SlotForMember(d: Disk, depth: Depths, p: nat, key: Key)
    requires Inv(d, depth) && p in depth && p < IMAGE_CLUSTERS
    requires FindId(TableOf(d, p), key, 0) == SLOTS && FreeSlot(TableOf(d, p), 0) < SLOTS
    ensures NameFree(TableOf(d, p), key) && key != BLANK_KEY
    ensures 2 <= FreeSlot(TableOf(d, p), 0) && !TableOf(d, p)[FreeSlot(TableOf(d, p), 0)].Occupied()
  {
    var f, tabs := FatOf(d), TablesOf(d, depth.Keys);
    var t := TableOf(d, p);
    assert tabs[p] == t;
    ShapeTidy(f, tabs, depth, p);
    assert DirOk(f, tabs, depth, p);
    FreeSlotRange(d, f, tabs, depth, p);
    NotFoundIsFree(t, key);
    assert t[FreeSlot(t, 0)] == ZERO_ENTRY;
  }

  /** The writes of a file: its data, the cluster map, the parent's table. */
  function FileSteps(data: seq<byte>, ch: seq<nat>, g: Fat, p: ImageCluster, t: Table): seq<ClusterWrite>
    requires InMap(ch) && |ch| <= ClustersFor(data)
  {
    DataWrites(data, ch) + [ClusterWrite(FAT_CLUSTER, EncodeFat(g)), ClusterWrite(p, EncodeTable(t))]
  }

  lemma StepsAtomic(d: Disk, depth: Depths, data: seq<byte>, ch: seq<nat>, p: nat, s: nat, e: Entry, k: nat)
    requires Inv(d, depth) && FreshChain(FatOf(d), TablesOf(d, depth.Keys), ch)
    requires 0 < |data| < 0x1_0000_0000 && |ch| == ClustersFor(data) && k <= |ch| + 2
    requires p in depth && p < IMAGE_CLUSTERS && 2 <= s < SLOTS && !TableOf(d, p)[s].Occupied()
    requires e.cluster == ch[0] && e.attribute == 0 && e.filesize == |data| && e.Occupied()
    requires NameFree(TableOf(d, p), e.Id()) && e.Id() != BLANK_KEY
    ensures var d' := Replay(d, FileSteps(data, ch, LinkChain(FatOf(d), ch), p, TableOf(d, p)[s := e])[..k]);
      && Inv(d', depth)
      && Abs(d', depth) ==
           if k <= |ch| then Abs(d, depth)
           else if k == |ch| + 1 then Abs(d, depth).(free := Abs(d, depth).free - ToSet(ch))
           else Abstract(Insert(Abs(d, depth).tree, p, e.Id(), File(data)), Abs(d, depth).free - ToSet(ch))
  {
    hide Inv, Abs, DecodeTable, EncodeTable, DecodeFat, EncodeFat, LinkChain, Unowned, Replay, NameFree;
    var v, g := DataWrites(data, ch), LinkChain(FatOf(d), ch);
    assert v[..|ch|] == v;
    PrefixWrites(d, v, ClusterWrite(FAT_CLUSTER, EncodeFat(g)),
                 ClusterWrite(p, EncodeTable(TableOf(d, p)[s := e])), k);
    if k <= |ch| {
      DataPhase(d, depth, data, ch, k);
    } else if k == |ch| + 1 {
      DataPhase(d, depth, data, ch, |ch|);
      MapPhase(Replay(d, v), depth, ch, g);
    } else {
      TablePhase(d, depth, data, ch, p, s, e, Replay(d, v)[FAT_CLUSTER := EncodeFat(g)]);
    }
  }

  /**
   * Crash atomicity: stop after any number of the cluster writes of a successful file `write`
   * and the volume is well-formed and shows the old tree; only the last write shows the new one.
   */
  lemma FileWriteAtomic(d: Disk, depth: Depths, p: nat, key: Key, data: seq<byte>, k: nat)
    requires Inv(d, depth) && p in depth && p < IMAGE_CLUSTERS && 0 < |data| < 0x1_0000_0000
    requires FindId(TableOf(d, p), key, 0) == SLOTS && FreeSlot(TableOf(d, p), 0) < SLOTS
    requires ClustersFor(data) <= |FreeList(FatOf(d))|
    requires k <= |WriteFileOutcome(d, p, key, data).writes|
    ensures var w := WriteFileOutcome(d, p, key, data).writes;
      var d' := Replay(d, w[..k]);
      && Inv(d', depth)
      && (k < |w| ==> Abs(d', depth).tree == Abs(d, depth).tree)
      && (k < |w| - 1 ==> Abs(d', depth).free == Abs(d, depth).free)
      && (k == |w| ==> Abs(d', depth) == Abstract(Insert(Abs(d, depth).tree, p, key, File(data)),
                         Abs(d, depth).free - ToSet(FreeList(FatOf(d))[..ClustersFor(data)])))
  {
    var ch := FreeList(FatOf(d))[..ClustersFor(data)];
    FreeListFresh(FatOf(d), TablesOf(d, depth.Keys), depth, |ch|);
    SlotForMember(d, depth, p, key);
    StepsAtomic(d, depth, data, ch, p, FreeSlot(TableOf(d, p), 0), NewEntry(key, 0, ch[0], |data|), k);
  }
}
