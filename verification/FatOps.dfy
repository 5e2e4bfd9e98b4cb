/**
 * What each file system operation does, as a function of the disk it starts from: its return
 * code, the cluster map it leaves in memory, and the clusters it writes, in order.
 */
module FatOps {
  import opened Bytes
  import opened FatLayout
  import opened FatChains
  import opened Volume

  datatype ClusterWrite = ClusterWrite(at: ImageCluster, data: Cluster)

  /** The disk after the writes of `w`. */
  function Replay(d: Disk, w: seq<ClusterWrite>): Disk
  {
    if w == [] then d
    else Replay(d, w[..|w| - 1])[w[|w| - 1].at := w[|w| - 1].data]
  }

  lemma {:induction false} ReplayAppend(d: Disk, v: seq<ClusterWrite>, w: seq<ClusterWrite>)
    ensures Replay(d, v + w) == Replay(Replay(d, v), w)
    decreases |w|
  {
    if w == [] {
      assert v + w == v;
    } else {
      ReplayAppend(d, v, w[..|w| - 1]);
      assert (v + w)[..|v + w| - 1] == v + w[..|w| - 1];
    }
  }

  /** The order of writes to different clusters makes no difference in the end. */
  lemma ReplayThree(d: Disk, a: ClusterWrite, b: ClusterWrite, c: ClusterWrite)
    ensures Replay(d, [a, b, c]) == d[a.at := a.data][b.at := b.data][c.at := c.data]
    ensures a.at != c.at && b.at != c.at ==>
      Replay(d, [a, b, c]) == d[c.at := c.data][a.at := a.data][b.at := b.data]
  {
    assert [a, b, c][..2] == [a, b] && [a, b][..1] == [a] && [a][..0] == [];
    assert Replay(d, [a]) == d[a.at := a.data];
    assert Replay(d, [a, b]) == Replay(d, [a])[b.at := b.data];
  }

  /** Clusters that no write names keep their bytes. */
  lemma {:induction false} ReplayElsewhere(d: Disk, w: seq<ClusterWrite>, x: nat)
    requires x < IMAGE_CLUSTERS && forall i :: 0 <= i < |w| ==> w[i].at != x
    ensures Replay(d, w)[x] == d[x]
    decreases |w|
  {
    if w != [] {
      ReplayElsewhere(d, w[..|w| - 1], x);
    }
  }

  /** Writes to different clusters all last. */
  lemma {:induction false} ReplayAt(d: Disk, w: seq<ClusterWrite>, k: nat)
    requires k < |w| && forall i :: k < i < |w| ==> w[i].at != w[k].at
    ensures Replay(d, w)[w[k].at] == w[k].data
    decreases |w|
  {
    if k < |w| - 1 {
      ReplayAt(d, w[..|w| - 1], k);
    }
  }

  /** The result of an operation that may write. */
  datatype Outcome = Outcome(code: int, fat: Fat, writes: seq<ClusterWrite>)

  // ---- searching a directory table ----

  /** The first slot from `from` on that holds nothing; SLOTS if the table is full. */
  function FreeSlot(t: Table, from: nat): (s: nat)
    requires from <= SLOTS
    ensures from <= s <= SLOTS
    ensures s < SLOTS ==> !t[s].Occupied()
    ensures forall i :: from <= i < s ==> t[i].Occupied()
    decreases SLOTS - from
  {
    if from == SLOTS || !t[from].Occupied() then from else FreeSlot(t, from + 1)
  }

  /** The first slot from `from` on with this name, whatever its extension. */
  function FindName(t: Table, name: Name, from: nat): (s: nat)
    requires from <= SLOTS
    ensures from <= s <= SLOTS
    ensures s < SLOTS ==> t[s].name == name
    ensures forall i :: from <= i < s ==> t[i].name != name
    decreases SLOTS - from
  {
    if from == SLOTS || t[from].name == name then from else FindName(t, name, from + 1)
  }

  predicate HasMembers(t: Table) {
    exists i :: 2 <= i < SLOTS && t[i].Occupied()
  }

  // ---- write ----

  /** The `i`-th cluster's worth of `data`, filled up with zeros. */
  function Chunk(data: seq<byte>, i: nat): Cluster
    requires i * CLUSTER_SIZE <= |data|
  {
    if |data| - i * CLUSTER_SIZE >= CLUSTER_SIZE then data[i * CLUSTER_SIZE .. i * CLUSTER_SIZE + CLUSTER_SIZE]
    else data[i * CLUSTER_SIZE ..] + Zeros(CLUSTER_SIZE - (|data| - i * CLUSTER_SIZE))
  }

  function ClustersFor(data: seq<byte>): nat {
    CeilDiv(|data|, CLUSTER_SIZE)
  }

  function DataWrites(data: seq<byte>, ch: seq<nat>): (w: seq<ClusterWrite>)
    requires InMap(ch) && |ch| <= ClustersFor(data)
    ensures |w| == |ch|
  {
    seq(|ch|, i requires 0 <= i < |ch| => ClusterWrite(ch[i], Chunk(data, i)))
  }

  function FreeList(f: Fat): (a: seq<nat>)
    ensures InMap(a) && StrictlyUp(a)
    ensures forall i :: 0 <= i < |a| ==> f[a[i]] == EMPTY_ENTRY
  {
    Ascending(FreeSet(f), 3)
  }

  /** A file in clusters `ch`, entered in slot `s`: its data, the map and the parent's table are stored. */
  function FileOutcome(f: Fat, t: Table, s: nat, parent: ImageCluster, key: Key, data: seq<byte>, ch: seq<nat>): Outcome
    requires s < SLOTS && InMap(ch) && 0 < |ch| <= ClustersFor(data) && |data| < 0x1_0000_0000
  {
    var g := LinkChain(f, ch);
    var e := NewEntry(key, 0, ch[0], |data|);
    Outcome(0, g, DataWrites(data, ch)
                  + [ClusterWrite(FAT_CLUSTER, EncodeFat(g)), ClusterWrite(parent, EncodeTable(t[s := e]))])
  }

  function WriteFileOutcome(d: Disk, parent: nat, key: Key, data: seq<byte>): Outcome
    requires parent < IMAGE_CLUSTERS && 0 < |data| < 0x1_0000_0000
    requires FreeSlot(TableOf(d, parent), 0) < SLOTS
  {
    var f, t := FatOf(d), TableOf(d, parent);
    var need := ClustersFor(data);
    if need > |FreeList(f)| then Outcome(-1, LinkPairs(f, FreeList(f)), [])
    else FileOutcome(f, t, FreeSlot(t, 0), parent, key, data, FreeList(f)[..need])
  }

  /** The table of a directory just created in cluster `k`; `up` is slot 0 of its parent. */
  function NewDirTable(self: Entry, up: Entry): Table {
    seq<Entry>(SLOTS, i => if i == 0 then self else if i == 1 then up.(name := DOT_DOT) else ZERO_ENTRY)
  }

  function MkdirOutcome(d: Disk, parent: nat, name: Name): Outcome
    requires parent < IMAGE_CLUSTERS && |FreeList(FatOf(d))| > 0
  {
    var f, t := FatOf(d), TableOf(d, parent);
    var s := FreeSlot(t, 0);
    if s == SLOTS then Outcome(-1, f, [])
    else
      var k := FreeList(f)[0];
      var g := f[k := END_OF_FILE];
      var self := NewEntry(Key(name, NO_EXT), ATTR_SUBDIRECTORY, k, 0);
      Outcome(0, g, [ClusterWrite(FAT_CLUSTER, EncodeFat(g)),
                     ClusterWrite(parent, EncodeTable(t[s := self])),
                     ClusterWrite(k, EncodeTable(NewDirTable(self, t[0])))])
  }

  /** `write` stops before looking at the size: no free cluster, no such directory, name taken. */
  predicate WriteRefused(d: Disk, parent: nat, key: Key)
    requires parent < IMAGE_CLUSTERS
  {
    || FreeList(FatOf(d)) == []
    || !TableOf(d, parent)[0].Occupied()
    || FindId(TableOf(d, parent), key, 0) < SLOTS
  }

  /** `write`; empty data means a directory is to be created. */
  function WriteOutcome(d: Disk, parent: nat, key: Key, data: seq<byte>): Outcome
    requires parent < IMAGE_CLUSTERS && |data| < 0x1_0000_0000
    requires WriteRefused(d, parent, key) || data == [] || FreeSlot(TableOf(d, parent), 0) < SLOTS
  {
    if FreeList(FatOf(d)) == [] || !TableOf(d, parent)[0].Occupied() then Outcome(-1, FatOf(d), [])
    else if FindId(TableOf(d, parent), key, 0) < SLOTS then Outcome(1, FatOf(d), [])
    else if data == [] then MkdirOutcome(d, parent, key.name)
    else WriteFileOutcome(d, parent, key, data)
  }

  // ---- delete ----

  function ZeroWrites(ch: seq<nat>): (w: seq<ClusterWrite>)
    requires forall i :: 0 <= i < |ch| ==> ch[i] < CLUSTER_MAP_SIZE
    ensures |w| == |ch|
  {
    seq(|ch|, i requires 0 <= i < |ch| => ClusterWrite(ch[i], ZERO_CLUSTER))
  }

  /** The entry found leads only to clusters of the map, and its chain ends properly. */
  predicate DeletableEntry(d: Disk, e: Entry) {
    || e.cluster == ROOT_CLUSTER
    || (e.filesize == 0 && e.cluster < IMAGE_CLUSTERS
        && (HasMembers(TableOf(d, e.cluster)) || e.cluster < CLUSTER_MAP_SIZE))
    || (e.filesize != 0 && e.cluster < CLUSTER_MAP_SIZE
        && FatOf(d)[Last(Chain(FatOf(d), e.cluster))] == END_OF_FILE)
  }

  predicate DeleteDefined(d: Disk, parent: nat, key: Key)
    requires parent < IMAGE_CLUSTERS
  {
    var s := FindId(TableOf(d, parent), key, 0);
    s < SLOTS ==> DeletableEntry(d, TableOf(d, parent)[s])
  }

  function DeleteOutcome(d: Disk, parent: nat, key: Key): Outcome
    requires parent < IMAGE_CLUSTERS && DeleteDefined(d, parent, key)
  {
    var f, t := FatOf(d), TableOf(d, parent);
    var s := FindId(t, key, 0);
    if s == SLOTS then Outcome(1, f, [])
    else
      var e := t[s];
      var drop := ClusterWrite(parent, EncodeTable(t[s := ZERO_ENTRY]));
      if e.cluster == ROOT_CLUSTER then Outcome(-1, f, [])
      else if e.filesize == 0 then
        if HasMembers(TableOf(d, e.cluster)) then Outcome(2, f, [])
        else
          var g := f[e.cluster := EMPTY_ENTRY];
          Outcome(0, g, [ClusterWrite(e.cluster, ZERO_CLUSTER), ClusterWrite(FAT_CLUSTER, EncodeFat(g)), drop])
      else Outcome(0, f, ZeroWrites(Chain(f, e.cluster)) + [drop])
  }

  // ---- read and read_directory ----

  /**
   * What a reading operation returns and stores in the caller's buffer. `complete` is false when
   * the operation went on to a cluster number outside the disk or the map; `data` is what it
   * had stored before that.
   */
  datatype Reading = Reading(code: int, data: seq<byte>, complete: bool)

  /**
   * Clusters `c`, `m[c]`, `m[m[c]]`, ... : `n` of them, or as far as the numbers stay on the disk
   * and in the map. The successor is looked up after every cluster, even the last.
   */
  function Walk(d: Disk, m: Fat, c: nat, n: nat): (r: Reading)
    ensures |r.data| <= n * CLUSTER_SIZE
    decreases n
  {
    if n == 0 then Reading(0, [], true)
    else if c >= IMAGE_CLUSTERS then Reading(0, [], false)
    else if c >= CLUSTER_MAP_SIZE then Reading(0, d[c], false)
    else
      var rest := Walk(d, m, m[c], n - 1);
      Reading(0, d[c] + rest.data, rest.complete)
  }

  /** The number of clusters `read` fetches: none when its 32-bit size check wraps around. */
  function ReadCount(filesize: uint32): nat {
    var count := filesize / CLUSTER_SIZE + 1;
    if (count * CLUSTER_SIZE) % 0x1_0000_0000 < filesize then 0 else count
  }

  /** `read`, which uses the cluster map `m` held in memory. */
  function ReadOutcome(d: Disk, m: Fat, parent: nat, key: Key, bufferSize: nat): Reading
    requires parent < IMAGE_CLUSTERS
  {
    var t := TableOf(d, parent);
    var s := FindId(t, key, 0);
    if s == SLOTS then Reading(2, [], true)
    else if t[s].attribute == 1 || bufferSize == 0 then Reading(1, [], true)
    else Walk(d, m, t[s].cluster, ReadCount(t[s].filesize))
  }

  function ReadDirectoryOutcome(d: Disk, parent: nat, name: Name): Reading
    requires parent < IMAGE_CLUSTERS
  {
    var t := TableOf(d, parent);
    var s := if name == DOT then 0 else FindName(t, name, 1);
    if s == SLOTS then Reading(2, [], true)
    else if t[s].cluster < IMAGE_CLUSTERS then Reading(0, d[t[s].cluster], true)
    else Reading(0, [], false)
  }

  // ---- create_fat32 ----

  /** The map and root table `create_fat32` writes; `name` is what it copies from "root". */
  function FirstMap(): Fat {
    seq<uint32>(CLUSTER_MAP_SIZE, i => if i == 0 then CLUSTER_0_VALUE else if i == 1 then CLUSTER_1_VALUE else 0)
  }

  function RootTable(name: Name): Table {
    var self := NewEntry(Key(name, NO_EXT), ATTR_SUBDIRECTORY, ROOT_CLUSTER, 0);
    NewDirTable(self, self)
  }

  function CreateWrites(name: Name): seq<ClusterWrite>
  {
    [ClusterWrite(FAT_CLUSTER, EncodeFat(FirstMap())),
     ClusterWrite(FAT_CLUSTER, EncodeFat(FirstMap()[ROOT_CLUSTER := END_OF_FILE])),
     ClusterWrite(ROOT_CLUSTER, EncodeTable(RootTable(name)))]
  }
}
