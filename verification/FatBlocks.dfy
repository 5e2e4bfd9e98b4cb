/**
 * Crashes between blocks: a cluster is stored as four blocks, one after the other, and a file
 * `write` may stop after any of them.
 */
module FatBlocks {
  import opened Bytes
  import opened FatLayout
  import opened FatChains
  import opened Volume
  import opened ShapeSteps
  import opened VolumeSteps
  import opened VolumeEdits
  import opened FatOps
  import opened AbstractFs
  import opened FatTables
  import opened FatWrite
  import opened FatDelete
  import opened FatRead

  // ---- block writes ----

  /** A cluster of which the first `r` blocks have been stored anew. */
  function Torn(was: Cluster, now: Cluster, r: nat): Cluster
    requires r <= CLUSTER_BLOCK_COUNT
  {
    now[..BLOCK_SIZE * r] + was[BLOCK_SIZE * r..]
  }

  /** Block `r` of the cluster write `w` is stored. */
  function StoreBlock(d: Disk, w: ClusterWrite, r: nat): Disk
    requires r < CLUSTER_BLOCK_COUNT
  {
    var c := d[w.at];
    d[w.at := c[..BLOCK_SIZE * r] + w.data[BLOCK_SIZE * r..BLOCK_SIZE * (r + 1)] + c[BLOCK_SIZE * (r + 1)..]]
  }

  /** The disk after the first `k` block writes of `w`. */
  function AfterBlocks(d: Disk, w: seq<ClusterWrite>, k: nat): Disk
    requires k <= CLUSTER_BLOCK_COUNT * |w|
  {
    if k == 0 then d
    else StoreBlock(AfterBlocks(d, w, k - 1), w[(k - 1) / CLUSTER_BLOCK_COUNT], (k - 1) % CLUSTER_BLOCK_COUNT)
  }

  lemma TornNext(was: Cluster, now: Cluster, r: nat)
    requires r < CLUSTER_BLOCK_COUNT
    ensures var c := Torn(was, now, r);
      c[..BLOCK_SIZE * r] + now[BLOCK_SIZE * r..BLOCK_SIZE * (r + 1)] + c[BLOCK_SIZE * (r + 1)..]
      == Torn(was, now, r + 1)
  {
  }

  lemma TornEnds(was: Cluster, now: Cluster)
    ensures Torn(was, now, 0) == was && Torn(was, now, CLUSTER_BLOCK_COUNT) == now
  {
  }

  /** After `4 * q + r` blocks `q` clusters are stored, and the first `r` blocks of the next. */
  lemma {:induction false} AfterBlocksIs(d: Disk, w: seq<ClusterWrite>, q: nat, r: nat)
    requires q < |w| && r <= CLUSTER_BLOCK_COUNT
    ensures var b := Replay(d, w[..q]);
      AfterBlocks(d, w, CLUSTER_BLOCK_COUNT * q + r) == b[w[q].at := Torn(b[w[q].at], w[q].data, r)]
    decreases q, r
  {
    hide Torn, Replay, StoreBlock, AfterBlocks;
    var b, k := Replay(d, w[..q]), CLUSTER_BLOCK_COUNT * q + r;
    TornEnds(b[w[q].at], w[q].data);
    if r > 0 {
      AfterBlocksIs(d, w, q, r - 1);
      assert (k - 1) / CLUSTER_BLOCK_COUNT == q && (k - 1) % CLUSTER_BLOCK_COUNT == r - 1;
      NextBlock(d, w, k);
      StoreTorn(b, w[q], r - 1);
    } else if q > 0 {
      AfterBlocksIs(d, w, q - 1, CLUSTER_BLOCK_COUNT);
      TornEnds(Replay(d, w[..q - 1])[w[q - 1].at], w[q - 1].data);
      ReplayOneMore(d, w, q - 1);
    } else {
      ReplayNone(d);
      NoBlocks(d, w);
      assert w[..0] == [];
    }
  }

  lemma NoBlocks(d: Disk, w: seq<ClusterWrite>)
    ensures AfterBlocks(d, w, 0) == d
  {
  }

  lemma NextBlock(d: Disk, w: seq<ClusterWrite>, k: nat)
    requires 0 < k <= CLUSTER_BLOCK_COUNT * |w|
    ensures AfterBlocks(d, w, k)
         == StoreBlock(AfterBlocks(d, w, k - 1), w[(k - 1) / CLUSTER_BLOCK_COUNT], (k - 1) % CLUSTER_BLOCK_COUNT)
  {
    hide StoreBlock;
  }

  lemma StoreTorn(b: Disk, w: ClusterWrite, r: nat)
    requires r < CLUSTER_BLOCK_COUNT
    ensures StoreBlock(b[w.at := Torn(b[w.at], w.data, r)], w, r) == b[w.at := Torn(b[w.at], w.data, r + 1)]
  {
    hide Torn;
    TornNext(b[w.at], w.data, r);
  }

  lemma ReplayOneMore(d: Disk, w: seq<ClusterWrite>, q: nat)
    requires q < |w|
    ensures Replay(d, w[..q + 1]) == Replay(d, w[..q])[w[q].at := w[q].data]
  {
    assert w[..q + 1][..q] == w[..q];
  }

  lemma ReplayNone(d: Disk)
    ensures Replay(d, []) == d
  {
  }

  /** Stored to the last block, the writes are those of whole clusters. */
  lemma AllBlocks(d: Disk, w: seq<ClusterWrite>)
    ensures AfterBlocks(d, w, CLUSTER_BLOCK_COUNT * |w|) == Replay(d, w)
  {
    if w == [] {
      ReplayNone(d);
    } else {
      var q := |w| - 1;
      AfterBlocksIs(d, w, q, CLUSTER_BLOCK_COUNT);
      TornEnds(Replay(d, w[..q])[w[q].at], w[q].data);
      hide Torn, Replay, AfterBlocks;
      ReplayOneMore(d, w, q);
      assert w[..q + 1] == w;
    }
  }

  // ---- half-written maps and tables ----

  /** A half-written map holds the new entries up to a point and the old ones behind it. */
  lemma TornMap(was: Cluster, g: Fat, r: nat, i: nat)
    requires r <= CLUSTER_BLOCK_COUNT && i < CLUSTER_MAP_SIZE
    ensures DecodeFat(Torn(was, EncodeFat(g), r))[i] == if i < 128 * r then g[i] else DecodeFat(was)[i]
  {
    hide EncodeFat;
    var c := Torn(was, EncodeFat(g), r);
    EncodedMapBytes(g, i);
    if i < 128 * r {
      assert MapBytes(c, i) == MapBytes(EncodeFat(g), i);
    } else {
      assert MapBytes(c, i) == MapBytes(was, i);
    }
  }

  /** The bytes of a table that differ when one entry does are those of its slot. */
  lemma TableByte(was: Cluster, s: nat, e: Entry, j: nat)
    requires s < SLOTS && j < CLUSTER_SIZE && j / 32 != s
    ensures EncodeTable(DecodeTable(was)[s := e])[j] == was[j]
  {
    EncodeDecodeByte(was, j);
    hide DecodeTable, EncodeEntry, DecodeEntry;
  }

  /** A table that changes in one slot is never seen half-written: one of its blocks holds the slot. */
  lemma TornTable(was: Cluster, s: nat, e: Entry, r: nat)
    requires s < SLOTS && r <= CLUSTER_BLOCK_COUNT
    ensures var now := EncodeTable(DecodeTable(was)[s := e]);
      Torn(was, now, r) == if r <= s / 16 then was else now
  {
    hide EncodeTable, DecodeTable;
    var now := EncodeTable(DecodeTable(was)[s := e]);
    forall j | 0 <= j < CLUSTER_SIZE
      ensures Torn(was, now, r)[j] == if r <= s / 16 then was[j] else now[j]
    {
      if j / 32 != s {
        TableByte(was, s, e, j);
      }
    }
  }

  // ---- volumes with a half-written map ----

  /**
   * A volume but for its map: with the map `g` in place it is well-formed, and the map that is
   * there agrees with `g` on every entry `g` has in use. Entries `g` has free may hold anything,
   * such as the links of a chain that was being reserved, but lead to no map or boot cluster.
   */
  ghost predicate Patched(d: Disk, depth: Depths, g: Fat) {
    && Inv(d[FAT_CLUSTER := EncodeFat(g)], depth)
    && Coherent(FatOf(d), g) && NoPredecessor(FatOf(d), FAT_CLUSTER)
  }

  /** What such a disk stands for. */
  function PatchedAbs(d: Disk, depth: Depths, g: Fat): Abstract {
    Abs(d[FAT_CLUSTER := EncodeFat(g)], depth)
  }

  lemma MapNotLinked(f: Fat)
    requires FatOk(f)
    ensures NoPredecessor(f, FAT_CLUSTER)
  {
    forall i | 0 <= i < CLUSTER_MAP_SIZE
      ensures f[i] != FAT_CLUSTER
    {
      assert i >= 3 ==> LinkOk(f, i);
    }
  }

  /** A well-formed volume is one whose own map fits. */
  lemma WholeIsPatched(d: Disk, depth: Depths)
    requires Inv(d, depth)
    ensures Patched(d, depth, FatOf(d)) && PatchedAbs(d, depth, FatOf(d)) == Abs(d, depth)
  {
    hide Inv, DecodeFat, EncodeFat, Abs;
    EncodeDecodeFat(d[FAT_CLUSTER]);
    assert d[FAT_CLUSTER := EncodeFat(FatOf(d))] == d;
    InvFatOk(d, depth);
    MapNotLinked(FatOf(d));
  }

  lemma InvFatOk(d: Disk, depth: Depths)
    requires Inv(d, depth)
    ensures FatOk(FatOf(d))
  {
    InvShape(d, depth);
    hide Inv;
  }

  /** A walk that the map never leads to the map's own cluster does not depend on that cluster. */
  lemma {:induction false} WalkElsewhere(d: Disk, d': Disk, m: Fat, c: nat, n: nat)
    requires c != FAT_CLUSTER && NoPredecessor(m, FAT_CLUSTER)
    requires forall x :: 0 <= x < IMAGE_CLUSTERS && x != FAT_CLUSTER ==> d[x] == d'[x]
    ensures Walk(d, m, c, n) == Walk(d', m, c, n)
    decreases n
  {
    if n > 0 && c < CLUSTER_MAP_SIZE {
      WalkElsewhere(d, d', m, m[c], n - 1);
    }
  }

  /** No slot of a live directory names the map's cluster. */
  lemma NoSlotAtMap(d: Disk, depth: Depths, p: nat, s: nat)
    requires Inv(d, depth) && p in depth && p < IMAGE_CLUSTERS && s < SLOTS
    ensures TableOf(d, p)[s].cluster != FAT_CLUSTER && p != FAT_CLUSTER
  {
    hide Inv, TreeOf, TablesOf, DecodeTable, DecodeFat, FileEntryOk;
    HeaderFacts(d, depth, p);
    LiveAboveMap(d, depth, p);
    LiveAboveMap(d, depth, TableOf(d, p)[1].cluster);
    if s >= 2 {
      if TableOf(d, p)[s].Occupied() {
        MemberFacts(d, depth, p, s);
        MemberAboveMap(d, depth, p, s);
      } else {
        BlankSlot(d, depth, p, s);
      }
    }
  }

  lemma LiveAboveMap(d: Disk, depth: Depths, p: nat)
    requires Inv(d, depth) && p in depth
    ensures 2 <= p
  {
    InvShape(d, depth);
    hide Inv;
    DirRange(FatOf(d), TablesOf(d, depth.Keys), depth, p);
  }

  lemma MemberAboveMap(d: Disk, depth: Depths, p: nat, s: nat)
    requires Inv(d, depth) && p in depth && p < IMAGE_CLUSTERS
    requires 2 <= s < SLOTS && TableOf(d, p)[s].Occupied()
    ensures TableOf(d, p)[s].cluster != FAT_CLUSTER
  {
    hide Inv, TreeOf, TablesOf, DecodeTable, DecodeFat;
    MemberFacts(d, depth, p, s);
    var e := TableOf(d, p)[s];
    if e.filesize == 0 {
      LiveAboveMap(d, depth, e.cluster);
    }
  }

  /** Everything on it reads as the tree says, by the map that is there. */
  lemma PatchedReads(d: Disk, depth: Depths, g: Fat, p: nat, key: Key, bufferSize: nat)
    requires Patched(d, depth, g) && p in depth && p < IMAGE_CLUSTERS
    ensures p in PatchedAbs(d, depth, g).tree
    ensures ReadAnswer(PatchedAbs(d, depth, g), p, d[0], key, bufferSize,
                       ReadOutcome(d, FatOf(d), p, key, bufferSize))
  {
    hide Inv, Abs, DecodeTable, DecodeFat, EncodeFat, Coherent, NoPredecessor, ReadAnswer, Walk, FindId;
    var d1, m := d[FAT_CLUSTER := EncodeFat(g)], FatOf(d);
    MapIs(d, g);
    NoSlotAtMap(d1, depth, p, 0);
    ReadAnswers(d1, depth, m, p, key, bufferSize);
    var s := FindId(TableOf(d, p), key, 0);
    assert TableOf(d1, p) == TableOf(d, p);
    if s < SLOTS {
      NoSlotAtMap(d1, depth, p, s);
      WalkElsewhere(d, d1, m, TableOf(d, p)[s].cluster, ReadCount(TableOf(d, p)[s].filesize));
    }
  }

  lemma MapIs(d: Disk, g: Fat)
    ensures FatOf(d[FAT_CLUSTER := EncodeFat(g)]) == g
  {
    DecodeEncodeFat(g);
    hide DecodeFat, EncodeFat;
  }

  /** The same of its directories, by name. */
  lemma PatchedLists(d: Disk, depth: Depths, g: Fat, p: nat, name: Name)
    requires Patched(d, depth, g) && p in depth && p < IMAGE_CLUSTERS
    ensures p in PatchedAbs(d, depth, g).tree
    ensures ReadDirectoryAnswer(PatchedAbs(d, depth, g), p, d[0], name, ReadDirectoryOutcome(d, p, name))
  {
    hide Inv, Abs, DecodeTable, DecodeFat, EncodeFat, Coherent, NoPredecessor, ReadDirectoryAnswer, FindName;
    var d1 := d[FAT_CLUSTER := EncodeFat(g)];
    NoSlotAtMap(d1, depth, p, 0);
    ReadDirectoryAnswers(d1, depth, p, name);
    assert TableOf(d1, p) == TableOf(d, p);
    var s := if name == DOT then 0 else FindName(TableOf(d, p), name, 1);
    if s < SLOTS {
      NoSlotAtMap(d1, depth, p, s);
    }
  }

  // ---- stopping between blocks ----

  /** While the map is being stored the old map still fits. */
  lemma HalfMapPatched(d: Disk, depth: Depths, g: Fat, r: nat)
    requires Inv(d, depth) && r <= CLUSTER_BLOCK_COUNT && FatOk(g) && Coherent(g, FatOf(d))
    ensures var d' := d[FAT_CLUSTER := Torn(d[FAT_CLUSTER], EncodeFat(g), r)];
      Patched(d', depth, FatOf(d)) && PatchedAbs(d', depth, FatOf(d)) == Abs(d, depth)
  {
    hide Inv, Abs, DecodeFat, EncodeFat, Torn;
    var f := FatOf(d);
    var d' := d[FAT_CLUSTER := Torn(d[FAT_CLUSTER], EncodeFat(g), r)];
    EncodeDecodeFat(d[FAT_CLUSTER]);
    assert d'[FAT_CLUSTER := EncodeFat(f)] == d;
    InvFatOk(d, depth);
    MapNotLinked(f);
    MapNotLinked(g);
    forall i | 0 <= i < CLUSTER_MAP_SIZE
      ensures FatOf(d')[i] == f[i] || FatOf(d')[i] == g[i]
    {
      TornMap(d[FAT_CLUSTER], g, r, i);
    }
  }

  /** The file's chain linked in, the map still agrees on what was in use. */
  lemma LinkedFits(f: Fat, ch: seq<nat>)
    requires FatOk(f) && InMap(ch) && StrictlyUp(ch) && |ch| > 0
    requires forall i :: 0 <= i < |ch| ==> f[ch[i]] == EMPTY_ENTRY
    ensures FatOk(LinkChain(f, ch)) && Coherent(LinkChain(f, ch), f)
  {
    LinkChainOk(f, ch);
    LinkChainAt(f, ch);
    forall i | 0 <= i < CLUSTER_MAP_SIZE && f[i] != EMPTY_ENTRY
      ensures LinkChain(f, ch)[i] == f[i]
    {
      assert i !in ch;
    }
  }

  /** The parts of a file `write`: `ch` its clusters, `s` its slot. */
  lemma FileParts(d: Disk, p: nat, key: Key, data: seq<byte>, ch: seq<nat>, s: nat, t: Table, w: seq<ClusterWrite>)
    requires p < IMAGE_CLUSTERS && 0 < |data| < 0x1_0000_0000 && s == FreeSlot(TableOf(d, p), 0) && s < SLOTS
    requires ClustersFor(data) <= |FreeList(FatOf(d))| && ch == FreeList(FatOf(d))[..ClustersFor(data)]
    requires |ch| > 0 && InMap(ch) && t == TableOf(d, p)[s := NewEntry(key, 0, ch[0], |data|)]
    requires w == WriteFileOutcome(d, p, key, data).writes
    ensures |w| == |ch| + 2 && w[..|ch|] == DataWrites(data, ch)
    ensures forall i :: 0 <= i < |ch| ==> w[i].at == ch[i]
    ensures w[|ch|] == ClusterWrite(FAT_CLUSTER, EncodeFat(LinkChain(FatOf(d), ch)))
    ensures w[|ch| + 1] == ClusterWrite(p, EncodeTable(t))
  {
    hide DecodeTable, EncodeTable, DecodeFat, EncodeFat, LinkChain, FreeList, FreeSlot, DataWrites;
    var v := DataWrites(data, ch);
    var a, b := ClusterWrite(FAT_CLUSTER, EncodeFat(LinkChain(FatOf(d), ch))), ClusterWrite(p, EncodeTable(t));
    assert w == v + [a, b];
    PartsOf(v, a, b);
    DataAt(data, ch);
  }

  lemma PartsOf(v: seq<ClusterWrite>, a: ClusterWrite, b: ClusterWrite)
    ensures var w := v + [a, b];
      w[..|v|] == v && w[|v|] == a && w[|v| + 1] == b && forall i :: 0 <= i < |v| ==> w[i] == v[i]
  {
  }

  lemma DataAt(data: seq<byte>, ch: seq<nat>)
    requires InMap(ch) && |ch| <= ClustersFor(data)
    ensures forall i :: 0 <= i < |ch| ==> DataWrites(data, ch)[i].at == ch[i]
  {
    hide Chunk;
  }

  /** A crash among the data blocks: nobody owns the cluster being stored. */
  lemma CrashInData(d: Disk, depth: Depths, p: nat, data: seq<byte>, ch: seq<nat>, q: nat, b: Disk, c: Cluster)
    requires Inv(d, depth) && FreshChain(FatOf(d), TablesOf(d, depth.Keys), ch)
    requires |ch| <= ClustersFor(data) && q < |ch| && b == Replay(d, DataWrites(data, ch)[..q])
    ensures Inv(b[ch[q] := c], depth) && Abs(b[ch[q] := c], depth) == Abs(d, depth)
  {
    hide Inv, Abs, TablesOf, Unowned, DecodeFat, Replay;
    DataPhase(d, depth, data, ch, q);
    WriteUnowned(b, depth, ch[q], c);
  }

  /** A crash while the map is stored: the old map still fits. */
  lemma CrashInMap(d: Disk, depth: Depths, data: seq<byte>, ch: seq<nat>, b: Disk, r: nat)
    requires Inv(d, depth) && FreshChain(FatOf(d), TablesOf(d, depth.Keys), ch) && r < CLUSTER_BLOCK_COUNT
    requires |ch| <= ClustersFor(data) && b == Replay(d, DataWrites(data, ch)[..|ch|])
    ensures var d' := b[FAT_CLUSTER := Torn(b[FAT_CLUSTER], EncodeFat(LinkChain(FatOf(d), ch)), r)];
      Patched(d', depth, FatOf(d)) && PatchedAbs(d', depth, FatOf(d)) == Abs(d, depth)
  {
    hide Inv, Abs, TablesOf, Unowned, DecodeFat, EncodeFat, Replay, Torn, LinkChain, Patched, PatchedAbs, Coherent;
    DataPhase(d, depth, data, ch, |ch|);
    InvFatOk(d, depth);
    LinkedFits(FatOf(d), ch);
    HalfMapPatched(b, depth, LinkChain(FatOf(d), ch), r);
  }

  /** A crash while the parent's table is stored: the block with the slot is there or it is not. */
  lemma CrashInTable(d: Disk, depth: Depths, data: seq<byte>, ch: seq<nat>, p: nat, s: nat, e: Entry, b: Disk, r: nat)
    requires Inv(d, depth) && FreshChain(FatOf(d), TablesOf(d, depth.Keys), ch) && r < CLUSTER_BLOCK_COUNT
    requires |ch| <= ClustersFor(data) && p in depth && p < IMAGE_CLUSTERS && s < SLOTS
    requires b == Replay(d, DataWrites(data, ch)[..|ch|])[FAT_CLUSTER := EncodeFat(LinkChain(FatOf(d), ch))]
    ensures var now := EncodeTable(TableOf(d, p)[s := e]);
      b[p := Torn(b[p], now, r)] == if r <= s / 16 then b else b[p := now]
  {
    hide Inv, Abs, Unowned, DecodeFat, EncodeFat, DecodeTable, EncodeTable, Replay, Torn, LinkChain;
    DataPhase(d, depth, data, ch, |ch|);
    MapPhase(Replay(d, DataWrites(data, ch)[..|ch|]), depth, ch, LinkChain(FatOf(d), ch));
    assert TablesOf(b, depth.Keys)[p] == TablesOf(d, depth.Keys)[p];
    TornTable(b[p], s, e, r);
  }

  /**
   * Crash atomicity, block by block: stop after any number of the block writes of a successful
   * file `write` and, but for links in the map that nothing refers to, the volume is well-formed.
   * It shows the old tree until the one block of the parent's table that holds the new file's
   * slot is stored, and from then on the new one; everything reads accordingly.
   */
  lemma FileWriteBlockAtomic(d: Disk, depth: Depths, p: nat, key: Key, data: seq<byte>, k: nat) returns (g: Fat)
    requires Inv(d, depth) && p in depth && p < IMAGE_CLUSTERS && 0 < |data| < 0x1_0000_0000
    requires FindId(TableOf(d, p), key, 0) == SLOTS && FreeSlot(TableOf(d, p), 0) < SLOTS
    requires ClustersFor(data) <= |FreeList(FatOf(d))|
    requires k <= CLUSTER_BLOCK_COUNT * |WriteFileOutcome(d, p, key, data).writes|
    ensures var w := WriteFileOutcome(d, p, key, data).writes;
      var d' := AfterBlocks(d, w, k);
      && p in Abs(d, depth).tree && Patched(d', depth, g)
      && PatchedAbs(d', depth, g).tree ==
           if k <= CLUSTER_BLOCK_COUNT * (|w| - 1) + FreeSlot(TableOf(d, p), 0) / 16 then Abs(d, depth).tree
           else Insert(Abs(d, depth).tree, p, key, File(data))
  {
    hide Inv, Abs, TablesOf, DecodeFat, EncodeFat, DecodeTable, EncodeTable, Replay, Torn, LinkChain, AfterBlocks;
    hide Patched, PatchedAbs, Coherent, FreshChain, FreeList, FreeSlot, FindId, WriteFileOutcome;
    var w, s := WriteFileOutcome(d, p, key, data).writes, FreeSlot(TableOf(d, p), 0);
    var ch, e := FreeList(FatOf(d))[..ClustersFor(data)], NewEntry(key, 0, FreeList(FatOf(d))[0], |data|);
    var q, r, n := k / CLUSTER_BLOCK_COUNT, k % CLUSTER_BLOCK_COUNT, |ch|;
    InvFresh(d, depth, n);
    FreshInMap(FatOf(d), TablesOf(d, depth.Keys), ch);
    FileParts(d, p, key, data, ch, s, TableOf(d, p)[s := e], w);
    HeaderFacts(d, depth, p);
    FileWriteAtomic(d, depth, p, key, data, q);
    if q == |w| {
      AllBlocks(d, w);
      assert w[..q] == w;
      WholeIsPatched(Replay(d, w), depth);
      g := FatOf(Replay(d, w));
      return;
    }
    var b := Replay(d, w[..q]);
    AfterBlocksIs(d, w, q, r);
    if q < n {
      assert w[..q] == w[..n][..q];
      CrashInData(d, depth, p, data, ch, q, b, Torn(b[w[q].at], w[q].data, r));
      g := FatOf(AfterBlocks(d, w, k));
      WholeIsPatched(AfterBlocks(d, w, k), depth);
    } else if q == n {
      assert w[..n] == w[..n][..n];
      CrashInMap(d, depth, data, ch, b, r);
      g := FatOf(d);
    } else {
      ReplayOneMore(d, w, n);
      ReplayOneMore(d, w, n + 1);
      assert w[..n] == w[..n][..n] && w[..n + 2] == w;
      CrashInTable(d, depth, data, ch, p, s, e, b, r);
      FileWriteAtomic(d, depth, p, key, data, |w|);
      g := FatOf(AfterBlocks(d, w, k));
      WholeIsPatched(AfterBlocks(d, w, k), depth);
    }
  }

  lemma FreshInMap(f: Fat, tabs: Tables, ch: seq<nat>)
    requires FreshChain(f, tabs, ch)
    ensures InMap(ch) && |ch| > 0
  {
    hide Unowned;
  }

  lemma InvFresh(d: Disk, depth: Depths, n: nat)
    requires Inv(d, depth) && 0 < n <= |FreeList(FatOf(d))|
    ensures FreshChain(FatOf(d), TablesOf(d, depth.Keys), FreeList(FatOf(d))[..n])
  {
    InvShape(d, depth);
    hide Inv, Shape, FreshChain;
    FreeListFresh(FatOf(d), TablesOf(d, depth.Keys), depth, n);
  }
}
