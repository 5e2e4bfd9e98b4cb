/** What single steps of the driver's loops do, in terms of the outcome functions. */
module FatSteps {
  import opened Bytes
  import opened FatLayout
  import opened FatChains
  import opened Volume
  import opened FatOps
  import opened BlockDevice

  function ClusterToLba(cluster: nat): nat {
    cluster * CLUSTER_BLOCK_COUNT
  }

  lemma ClusterBlocks(bytes: seq<byte>, c: nat)
    requires |bytes| == IMAGE_SIZE && c < IMAGE_CLUSTERS
    ensures bytes[BLOCK_SIZE * ClusterToLba(c) .. BLOCK_SIZE * (ClusterToLba(c) + CLUSTER_BLOCK_COUNT)]
         == ClustersOf(bytes)[c]
  {
  }

  /** Overwriting with 2048 bytes of `src`, byte by byte. */
  lemma ClusterBytes(dest: seq<byte>, to: nat, src: seq<byte>, from: nat)
    requires to + 2048 <= |dest| && from + 2048 <= |src|
    ensures forall k :: 0 <= k < |dest| ==>
      Overwrite(dest, to, src[from .. from + 2048])[k]
      == if to <= k < to + 2048 then src[from + k - to] else dest[k]
  {
    var mid := src[from .. from + 2048];
    forall k | 0 <= k < |dest|
      ensures Overwrite(dest, to, mid)[k] == if to <= k < to + 2048 then src[from + k - to] else dest[k]
    {
      if to <= k < to + 2048 {
        assert mid[k - to] == src[from + k - to];
      }
    }
  }

  lemma ClusterOverwritten(bytes: seq<byte>, c: nat, data: Cluster)
    requires |bytes| == IMAGE_SIZE && c < IMAGE_CLUSTERS
    ensures ClustersOf(Overwrite(bytes, BLOCK_SIZE * ClusterToLba(c), data)) == ClustersOf(bytes)[c := data]
  {
    OverwriteCluster(bytes, c, data);
    assert BLOCK_SIZE * ClusterToLba(c) == CLUSTER_SIZE * c;
  }

  // ---- the free list as the allocation loop walks it ----

  lemma FreeListFrom(f: Fat, index: nat)
    requires 3 <= index <= CLUSTER_MAP_SIZE && forall i :: 3 <= i < index ==> f[i] != EMPTY_ENTRY
    ensures FreeList(f) == Ascending(FreeSet(f), index)
  {
    AscendingSkip(FreeSet(f), 3, index);
  }

  /** The clusters linked so far: ascending, free in `f`, and all below `from`. */
  predicate LinkedSoFar(f: Fat, ch: seq<nat>, from: nat) {
    && InMap(ch) && StrictlyUp(ch) && (ch != [] ==> Last(ch) < from) && 3 <= from <= CLUSTER_MAP_SIZE
    && FreeList(f) == ch + Ascending(FreeSet(f), from)
  }

  /** Linking them has not touched the entries still ahead. */
  lemma UnlinkedAbove(f: Fat, ch: seq<nat>, from: nat)
    requires LinkedSoFar(f, ch, from)
    ensures forall j :: from <= j < CLUSTER_MAP_SIZE ==> LinkPairs(f, ch)[j] == f[j]
  {
    LinkPairsAt(f, ch);
    forall j | from <= j < CLUSTER_MAP_SIZE
      ensures j !in DropLast(ch)
    {
    }
  }

  lemma UpByOne(ch: seq<nat>, x: nat)
    requires InMap(ch) && StrictlyUp(ch) && (ch != [] ==> Last(ch) < x) && 3 <= x < CLUSTER_MAP_SIZE
    ensures InMap(ch + [x]) && StrictlyUp(ch + [x]) && Last(ch + [x]) == x
  {
  }

  /** The next free entry is the next cluster of the free list; if there is none, the list is done. */
  lemma NextInFreeList(f: Fat, ch: seq<nat>, from: nat, found: nat)
    requires LinkedSoFar(f, ch, from) && from <= found <= CLUSTER_MAP_SIZE
    requires forall j :: from <= j < found ==> f[j] != EMPTY_ENTRY
    requires found < CLUSTER_MAP_SIZE ==> f[found] == EMPTY_ENTRY
    ensures if found == CLUSTER_MAP_SIZE then FreeList(f) == ch
            else LinkedSoFar(f, ch + [found], found + 1)
  {
    AscendingSkip(FreeSet(f), from, found);
    AscendingHere(f, found);
    hide FreeSet, Ascending, FreeList;
    if found < CLUSTER_MAP_SIZE {
      UpByOne(ch, found);
      Rejoin(ch, found, Ascending(FreeSet(f), found + 1));
    } else {
      assert ch + [] == ch;
    }
  }

  lemma AscendingHere(f: Fat, x: nat)
    requires x <= CLUSTER_MAP_SIZE && (x < CLUSTER_MAP_SIZE ==> 3 <= x && f[x] == EMPTY_ENTRY)
    ensures Ascending(FreeSet(f), x)
         == if x < CLUSTER_MAP_SIZE then [x] + Ascending(FreeSet(f), x + 1) else []
  {
    assert x < CLUSTER_MAP_SIZE ==> x in FreeSet(f);
  }

  lemma Rejoin(ch: seq<nat>, x: nat, rest: seq<nat>)
    ensures ch + ([x] + rest) == (ch + [x]) + rest
  {
  }

  lemma NothingLinked(f: Fat, index: nat)
    requires 3 <= index <= CLUSTER_MAP_SIZE && forall i :: 3 <= i < index ==> f[i] != EMPTY_ENTRY
    ensures LinkedSoFar(f, [], index) && LinkPairs(f, []) == f
  {
    FreeListFrom(f, index);
  }

  lemma LinkedIsPrefix(f: Fat, ch: seq<nat>, from: nat)
    requires LinkedSoFar(f, ch, from)
    ensures |ch| <= |FreeList(f)| && FreeList(f)[..|ch|] == ch
  {
  }

  lemma LinkNext(f: Fat, ch: seq<nat>, x: nat)
    requires InMap(ch) && 3 <= x < CLUSTER_MAP_SIZE
    ensures InMap(ch + [x])
    ensures LinkPairs(f, ch + [x]) == if ch == [] then f else LinkPairs(f, ch)[Last(ch) := x]
    ensures LinkChain(f, ch + [x]) == LinkPairs(f, ch + [x])[x := END_OF_FILE]
  {
    assert DropLast(ch + [x]) == ch;
  }

  // ---- file data, and new tables, as bytes ----

  lemma ChunkBuilt(data: seq<byte>, i: nat, n: nat)
    requires i * CLUSTER_SIZE <= |data|
    requires n == if |data| - i * CLUSTER_SIZE >= CLUSTER_SIZE then CLUSTER_SIZE else |data| - i * CLUSTER_SIZE
    ensures Overwrite(Zeros(CLUSTER_SIZE), 0, data[i * CLUSTER_SIZE .. i * CLUSTER_SIZE + n]) == Chunk(data, i)
  {
  }

  function TwoEntries(a: seq<byte>, b: seq<byte>): Cluster
    requires |a| == |b| == 32
  {
    Overwrite(Zeros(CLUSTER_SIZE), 0, a + b)
  }

  lemma TwoEntriesAt(a: seq<byte>, b: seq<byte>, i: nat)
    requires |a| == |b| == 32 && i < SLOTS
    ensures EntryBytes(TwoEntries(a, b), i) == if i == 0 then a else if i == 1 then b else Zeros(32)
  {
    var c := TwoEntries(a, b);
    assert |c[32 * i .. 32 * i + 32]| == 32;
    if i >= 2 {
      assert forall k :: 64 <= k < CLUSTER_SIZE ==> c[k] == 0;
    }
  }

  /** A new directory's cluster: two entries, then zeros. */
  lemma NewTableBytes(self: Entry, up: Entry)
    ensures EncodeTable(NewDirTable(self, up)) == TwoEntries(EncodeEntry(self), EncodeEntry(up.(name := DOT_DOT)))
  {
    var a, b := EncodeEntry(self), EncodeEntry(up.(name := DOT_DOT));
    var c := TwoEntries(a, b);
    ZeroEntryBytes();
    DecodeEncodeEntry(self);
    DecodeEncodeEntry(up.(name := DOT_DOT));
    hide EncodeEntry, DecodeEntry, Zeros, TwoEntries, EntryBytes;
    forall i | 0 <= i < SLOTS
      ensures DecodeTable(c)[i] == NewDirTable(self, up)[i]
    {
      TwoEntriesAt(a, b, i);
    }
    assert DecodeTable(c) == NewDirTable(self, up);
    EncodeDecodeTable(c);
  }

  lemma LinkedNext(f: Fat, ch: seq<nat>, i: nat)
    requires InMap(ch) && StrictlyUp(ch) && i < |ch|
    ensures 3 <= ch[i] < CLUSTER_MAP_SIZE
    ensures i + 1 < |ch| ==> LinkChain(f, ch)[ch[i]] == ch[i + 1]
  {
    LinkChainAt(f, ch);
  }

  lemma DataWritesNext(d: Disk, data: seq<byte>, ch: seq<nat>, i: nat)
    requires InMap(ch) && i < |ch| <= ClustersFor(data)
    ensures var w := DataWrites(data, ch);
      && i * CLUSTER_SIZE <= |data|
      && w[..i + 1] == w[..i] + [ClusterWrite(ch[i], Chunk(data, i))]
      && Replay(d, w[..i + 1]) == Replay(d, w[..i])[ch[i] := Chunk(data, i)]
  {
    var w := DataWrites(data, ch);
    assert w[..i + 1][..i] == w[..i];
  }

  /** One more cluster fetched by `read`. */
  lemma WalkOne(d: Disk, m: Fat, c: nat, n: nat, done: seq<byte>)
    requires n > 0 && c < CLUSTER_MAP_SIZE
    ensures Reading(0, done + Walk(d, m, c, n).data, Walk(d, m, c, n).complete)
         == Reading(0, (done + d[c]) + Walk(d, m, m[c], n - 1).data, Walk(d, m, m[c], n - 1).complete)
  {
    assert done + (d[c] + Walk(d, m, m[c], n - 1).data) == (done + d[c]) + Walk(d, m, m[c], n - 1).data;
  }

  // ---- tying the methods' steps to the outcomes ----

  lemma {:induction false} AscendingHeadLeast(s: set<nat>, from: nat)
    requires |Ascending(s, from)| > 0
    ensures forall i :: from <= i < Ascending(s, from)[0] ==> i !in s
    decreases CLUSTER_MAP_SIZE - from
  {
    if from !in s {
      AscendingHeadLeast(s, from + 1);
    }
  }

  /** `k` is the first free map entry from 1 on. */
  predicate IsFirstFree(f: Fat, k: nat) {
    1 <= k < CLUSTER_MAP_SIZE && f[k] == EMPTY_ENTRY && forall i :: 1 <= i < k ==> f[i] != EMPTY_ENTRY
  }

  lemma FirstFreeUnique(f: Fat, k: nat, index: nat)
    requires IsFirstFree(f, k) && 1 <= index <= CLUSTER_MAP_SIZE
    requires index < CLUSTER_MAP_SIZE ==> f[index] == EMPTY_ENTRY
    requires forall i :: 1 <= i < index ==> f[i] != EMPTY_ENTRY
    ensures index == k
  {
  }

  lemma FirstOfFreeList(f: Fat)
    requires |FreeList(f)| > 0 && f[1] != EMPTY_ENTRY && f[2] != EMPTY_ENTRY
    ensures 3 <= FreeList(f)[0] && IsFirstFree(f, FreeList(f)[0])
  {
    AscendingHeadLeast(FreeSet(f), 3);
    var k := FreeList(f)[0];
    forall i | 1 <= i < k
      ensures f[i] != EMPTY_ENTRY
    {
      assert i >= 3 ==> i !in FreeSet(f);
    }
  }

  lemma FreeListHead(f: Fat, index: nat)
    requires 3 <= index < CLUSTER_MAP_SIZE && f[index] == EMPTY_ENTRY
    ensures |FreeList(f)| > 0
  {
    AscendingComplete(FreeSet(f), 3, index);
  }

  lemma ReplayTwoMore(d: Disk, v: seq<ClusterWrite>, a: ClusterWrite, b: ClusterWrite)
    ensures Replay(d, v + [a, b]) == Replay(d, v)[a.at := a.data][b.at := b.data]
  {
    assert (v + [a, b])[..|v| + 1] == v + [a];
    assert (v + [a])[..|v|] == v;
  }

  lemma MkdirOutcomeSteps(d: Disk, parent: ImageCluster, name: Name, k: ImageCluster, s: nat, t: Table, self: Entry)
    requires k < CLUSTER_MAP_SIZE && FreeList(FatOf(d)) != [] && k == FreeList(FatOf(d))[0]
    requires t == TableOf(d, parent) && s == FreeSlot(t, 0) && s < SLOTS
    requires self == NewEntry(Key(name, NO_EXT), ATTR_SUBDIRECTORY, k, 0)
    ensures var g := FatOf(d)[k := END_OF_FILE];
      var w := [ClusterWrite(FAT_CLUSTER, EncodeFat(g)), ClusterWrite(parent, EncodeTable(t[s := self])),
                ClusterWrite(k, EncodeTable(NewDirTable(self, t[0])))];
      && MkdirOutcome(d, parent, name) == Outcome(0, g, w)
      && Replay(d, w) == d[w[0].at := w[0].data][w[1].at := w[1].data][w[2].at := w[2].data]
  {
    hide EncodeFat, EncodeTable, DecodeFat, DecodeTable, FreeSlot, Replay, FreeList, NewEntry, NewDirTable;
    var g := FatOf(d)[k := END_OF_FILE];
    ReplayThree(d, ClusterWrite(FAT_CLUSTER, EncodeFat(g)), ClusterWrite(parent, EncodeTable(t[s := self])),
                ClusterWrite(k, EncodeTable(NewDirTable(self, t[0]))));
  }

  lemma MkdirOutcomeFull(d: Disk, parent: nat, name: Name)
    requires parent < IMAGE_CLUSTERS && |FreeList(FatOf(d))| > 0 && FreeSlot(TableOf(d, parent), 0) == SLOTS
    ensures MkdirOutcome(d, parent, name) == Outcome(-1, FatOf(d), []) && Replay(d, []) == d
  {
  }

  lemma FileOutcomeFails(d: Disk, parent: nat, key: Key, data: seq<byte>)
    requires parent < IMAGE_CLUSTERS && 0 < |data| < 0x1_0000_0000 && FreeSlot(TableOf(d, parent), 0) < SLOTS
    requires ClustersFor(data) > |FreeList(FatOf(d))|
    ensures WriteFileOutcome(d, parent, key, data) == Outcome(-1, LinkPairs(FatOf(d), FreeList(FatOf(d))), [])
    ensures Replay(d, []) == d
  {
  }

  /** The clusters `write` takes for `data`: the first ones of the free list. */
  predicate Taking(d: Disk, data: seq<byte>, ch: seq<nat>) {
    InMap(ch) && |ch| == ClustersFor(data) > 0 && ch <= FreeList(FatOf(d))
  }

  /** A file's data, its map and its parent's table, each stored in turn. */
  lemma FileOutcomeSteps(d: Disk, parent: ImageCluster, key: Key, data: seq<byte>, ch: seq<nat>, t: Table, c: Cluster)
    requires 0 < |data| < 0x1_0000_0000 && FreeSlot(TableOf(d, parent), 0) < SLOTS && Taking(d, data, ch)
    requires t == TableOf(d, parent)[FreeSlot(TableOf(d, parent), 0) := NewEntry(key, 0, ch[0], |data|)]
    requires c == EncodeTable(t)
    ensures var g, v := LinkChain(FatOf(d), ch), DataWrites(data, ch);
      var w := v + [ClusterWrite(FAT_CLUSTER, EncodeFat(g)), ClusterWrite(parent, c)];
      && WriteFileOutcome(d, parent, key, data) == Outcome(0, g, w)
      && Replay(d, w) == Replay(d, v)[FAT_CLUSTER := EncodeFat(g)][parent := c]
  {
    hide LinkChain, DataWrites, EncodeFat, EncodeTable, DecodeFat, DecodeTable, FreeList, FreeSlot, Replay;
    var g, v := LinkChain(FatOf(d), ch), DataWrites(data, ch);
    assert FreeList(FatOf(d))[..ClustersFor(data)] == ch;
    ReplayTwoMore(d, v, ClusterWrite(FAT_CLUSTER, EncodeFat(g)), ClusterWrite(parent, c));
  }

  lemma WholeCluster(before: seq<byte>, data: Cluster)
    requires |before| == CLUSTER_SIZE
    ensures Overwrite(before, 0, data) == data
  {
  }

  lemma WholeZero(bytes: seq<byte>, before: seq<byte>)
    requires |before| == CLUSTER_SIZE && bytes == Overwrite(before, 0, Zeros(CLUSTER_SIZE))
    ensures bytes == ZERO_CLUSTER
  {
  }

  /** The deletion loop stands at `current`, the `i`-th cluster of chain `ch`. */
  predicate AtLink(f: Fat, ch: seq<nat>, i: nat, current: nat) {
    && (forall j :: 0 <= j < |ch| ==> ch[j] < CLUSTER_MAP_SIZE)
    && i < |ch| && current < CLUSTER_MAP_SIZE && ch[i..] == Chain(f, current)
    && f[Last(ch)] == END_OF_FILE
  }

  lemma ZeroWritesStart(d: Disk, f: Fat, c: nat)
    requires c < CLUSTER_MAP_SIZE && f[Last(Chain(f, c))] == END_OF_FILE
    ensures var ch := Chain(f, c);
      AtLink(f, ch, 0, c) && Replay(d, ZeroWrites(ch)[..0]) == d && ZeroWrites(ch)[..0] == []
      && ZeroWrites(ch)[..|ch|] == ZeroWrites(ch)
  {
  }

  lemma ZeroWritesStep(d: Disk, ch: seq<nat>, i: nat, w: seq<ClusterWrite>)
    requires (forall j :: 0 <= j < |ch| ==> ch[j] < CLUSTER_MAP_SIZE) && i < |ch| && w == ZeroWrites(ch)
    ensures w[..i + 1] == w[..i] + [ClusterWrite(ch[i], ZERO_CLUSTER)]
    ensures Replay(d, w[..i + 1]) == Replay(d, w[..i])[ch[i] := ZERO_CLUSTER]
  {
    assert w[..i + 1][..i] == w[..i];
  }

  /** One more cluster of a chain zeroed. */
  lemma ZeroWritesNext(d: Disk, f: Fat, ch: seq<nat>, i: nat, current: nat, w: seq<ClusterWrite>)
    requires AtLink(f, ch, i, current) && w == ZeroWrites(ch)
    ensures i < |ch| == |w| && current < CLUSTER_MAP_SIZE
    ensures w[..i + 1] == w[..i] + [ClusterWrite(current, ZERO_CLUSTER)]
    ensures Replay(d, w[..i + 1]) == Replay(d, w[..i])[current := ZERO_CLUSTER]
    ensures if f[current] == END_OF_FILE then i + 1 == |ch| else AtLink(f, ch, i + 1, f[current])
  {
    ZeroWritesStep(d, ch, i, w);
    hide Replay, ZeroWrites;
    assert ch[i] == ch[i..][0] == current;
    assert ch[i + 1..] == ch[i..][1..];
    assert Last(ch) == Last(ch[i..]);
    if !(current < f[current] < CLUSTER_MAP_SIZE) {
      assert ch[i..] == [current];
    } else {
      assert ch[i..] == [current] + Chain(f, f[current]);
    }
  }

  lemma DeleteDirSteps(d: Disk, parent: nat, key: Key, s: nat)
    requires parent < IMAGE_CLUSTERS && DeleteDefined(d, parent, key)
    requires s == FindId(TableOf(d, parent), key, 0) && s < SLOTS
    requires var e := TableOf(d, parent)[s];
      e.cluster != ROOT_CLUSTER && e.filesize == 0 && e.cluster < IMAGE_CLUSTERS && !HasMembers(TableOf(d, e.cluster))
    ensures var t := TableOf(d, parent);
      var k := t[s].cluster;
      && k < CLUSTER_MAP_SIZE
      && var g := FatOf(d)[k := EMPTY_ENTRY];
      var w := [ClusterWrite(k, ZERO_CLUSTER), ClusterWrite(FAT_CLUSTER, EncodeFat(g)),
                ClusterWrite(parent, EncodeTable(t[s := ZERO_ENTRY]))];
      && DeleteOutcome(d, parent, key) == Outcome(0, g, w)
      && Replay(d, w) == d[w[0].at := w[0].data][w[1].at := w[1].data][w[2].at := w[2].data]
  {
    var t := TableOf(d, parent);
    var k := t[s].cluster;
    ReplayThree(d, ClusterWrite(k, ZERO_CLUSTER), ClusterWrite(FAT_CLUSTER, EncodeFat(FatOf(d)[k := EMPTY_ENTRY])),
                ClusterWrite(parent, EncodeTable(t[s := ZERO_ENTRY])));
  }

  lemma DeleteFileSteps(d: Disk, parent: nat, key: Key, s: nat)
    requires parent < IMAGE_CLUSTERS && DeleteDefined(d, parent, key)
    requires s == FindId(TableOf(d, parent), key, 0) && s < SLOTS
    requires TableOf(d, parent)[s].cluster != ROOT_CLUSTER && TableOf(d, parent)[s].filesize != 0
    ensures var t := TableOf(d, parent);
      && t[s].cluster < CLUSTER_MAP_SIZE && FatOf(d)[Last(Chain(FatOf(d), t[s].cluster))] == END_OF_FILE
      && var zw, drop := ZeroWrites(Chain(FatOf(d), t[s].cluster)),
                         ClusterWrite(parent, EncodeTable(t[s := ZERO_ENTRY]));
      && DeleteOutcome(d, parent, key) == Outcome(0, FatOf(d), zw + [drop])
      && Replay(d, zw + [drop]) == Replay(d, zw)[parent := drop.data]
  {
    var t := TableOf(d, parent);
    var zw := ZeroWrites(Chain(FatOf(d), t[s].cluster));
    assert (zw + [ClusterWrite(parent, EncodeTable(t[s := ZERO_ENTRY]))])[..|zw|] == zw;
  }

  // ---- the walk of `read`, one cluster at a time ----

  lemma NothingRead(bytes: seq<byte>)
    ensures Overwrite(bytes, 0, []) == bytes
  {
  }

  lemma WalkNone(d: Disk, m: Fat, c: nat, n: nat)
    ensures Walk(d, m, c, n) == Reading(0, [] + Walk(d, m, c, n).data, Walk(d, m, c, n).complete)
  {
  }

  lemma WalkDone(d: Disk, m: Fat, c: nat, got: seq<byte>)
    ensures Reading(0, got + Walk(d, m, c, 0).data, Walk(d, m, c, 0).complete) == Reading(0, got, true)
  {
    assert got + [] == got;
  }

  lemma WalkOff(d: Disk, m: Fat, c: nat, n: nat, got: seq<byte>)
    requires n > 0 && c >= CLUSTER_MAP_SIZE
    ensures Reading(0, got + Walk(d, m, c, n).data, Walk(d, m, c, n).complete)
         == Reading(0, if c < IMAGE_CLUSTERS then got + d[c] else got, false)
  {
    assert got + [] == got;
  }

  lemma WalkRoom(d: Disk, m: Fat, c: nat, n: nat)
    requires n > 0 && c < IMAGE_CLUSTERS
    ensures |Walk(d, m, c, n).data| >= CLUSTER_SIZE
  {
  }

  // ---- the boot sector ----

  // The five lines of text the signature begins with.
  const LINE_0: seq<byte> := [67, 111, 117, 114, 115, 101, 32, 32, 32, 32, 32, 32, 32, 32, 32, 32]
  const LINE_1: seq<byte> := [68, 101, 115, 105, 103, 110, 101, 100, 32, 98, 121, 32, 32, 32, 32, 32]
  const LINE_2: seq<byte> := [76, 97, 98, 32, 83, 105, 115, 116, 101, 114, 32, 73, 84, 66, 32, 32]
  const LINE_3: seq<byte> := [77, 97, 100, 101, 32, 119, 105, 116, 104, 32, 60, 51, 32, 32, 32, 32]
  const LINE_4: seq<byte> := [45, 45, 45, 45, 45, 45, 45, 45, 45, 45, 45, 50, 48, 50, 52, 10]

  /** The 512 bytes that mark an initialised storage. */
  function Signature(): (s: seq<byte>)
    ensures |s| == BLOCK_SIZE
  {
    LINE_0 + LINE_1 + LINE_2 + LINE_3 + LINE_4 + Zeros(430) + [79, 107]
  }

  /** The bytes are the characters of `t`. */
  predicate Reads(b: seq<byte>, t: string) {
    |b| == |t| && forall k :: 0 <= k < |t| ==> b[k] == t[k] as int
  }

  /** The boot block as it reads: text, zeros, and "Ok" at its end; the rest of the cluster stays. */
  predicate BootWritten(c: Cluster, c': Cluster) {
    && Reads(c'[0..16], "Course          ") && Reads(c'[16..32], "Designed by     ")
    && Reads(c'[32..48], "Lab Sister ITB  ") && Reads(c'[48..64], "Made with <3    ")
    && Reads(c'[64..80], "-----------2024\n")
    && (forall k :: 80 <= k < 510 ==> c'[k] == 0) && Reads(c'[510..512], "Ok")
    && c'[512..] == c[512..]
  }

  lemma LinesRead()
    ensures Reads(LINE_0, "Course          ") && Reads(LINE_1, "Designed by     ")
    ensures Reads(LINE_2, "Lab Sister ITB  ") && Reads(LINE_3, "Made with <3    ")
    ensures Reads(LINE_4, "-----------2024\n")
  {
  }

  lemma SignatureParts()
    ensures var b := Signature();
      && b[0..16] == LINE_0 && b[16..32] == LINE_1 && b[32..48] == LINE_2 && b[48..64] == LINE_3 && b[64..80] == LINE_4
      && (forall k :: 80 <= k < 510 ==> b[k] == 0) && Reads(b[510..512], "Ok")
  {
  }

  lemma BootOnDisk(d: Disk)
    ensures BootWritten(d[0], SignedDisk(d)[0])
  {
    hide Signature, Reads;
    LinesRead();
    SignatureParts();
    var b, c := Signature(), SignedDisk(d)[0];
    assert c[0..16] == b[0..16] && c[16..32] == b[16..32] && c[32..48] == b[32..48] && c[48..64] == b[48..64];
    assert c[64..80] == b[64..80] && c[510..512] == b[510..512];
  }

  predicate Signed(d: Disk) {
    d[0][..BLOCK_SIZE] == Signature()
  }

  /** The disk with the signature written over its first block. */
  function SignedDisk(d: Disk): (r: Disk)
    ensures Signed(r)
  {
    OverwriteFront(d[0], Signature());
    d[0 := Overwrite(d[0], 0, Signature())]
  }

  lemma OverwriteFront(bytes: seq<byte>, data: seq<byte>)
    requires |data| <= |bytes|
    ensures Overwrite(bytes, 0, data)[..|data|] == data
  {
  }

  lemma BootSector(bytes: seq<byte>)
    requires |bytes| == IMAGE_SIZE
    ensures bytes[0 .. BLOCK_SIZE] == ClustersOf(bytes)[0][..BLOCK_SIZE]
  {
  }

  lemma BootSigned(bytes: seq<byte>)
    requires |bytes| == IMAGE_SIZE
    ensures ClustersOf(Overwrite(bytes, 0, Signature())) == SignedDisk(ClustersOf(bytes))
  {
    hide Signature;
    var bytes' := Overwrite(bytes, 0, Signature());
    forall c | 0 <= c < IMAGE_CLUSTERS
      ensures ClustersOf(bytes')[c] == SignedDisk(ClustersOf(bytes))[c]
    {
      if c > 0 {
        assert CLUSTER_SIZE <= CLUSTER_SIZE * c;
      }
    }
  }

  lemma FirstMapFree()
    ensures IsFirstFree(FirstMap(), ROOT_CLUSTER)
  {
  }

  lemma CreateSteps(d: Disk, name: Name)
    ensures var w := CreateWrites(name);
      && Replay(d, w) == d[FAT_CLUSTER := w[0].data][FAT_CLUSTER := w[1].data][ROOT_CLUSTER := w[2].data]
      && w == [ClusterWrite(FAT_CLUSTER, EncodeFat(FirstMap()))]
              + [ClusterWrite(FAT_CLUSTER, EncodeFat(FirstMap()[ROOT_CLUSTER := END_OF_FILE])),
                 ClusterWrite(ROOT_CLUSTER, EncodeTable(RootTable(name)))]
  {
    var w := CreateWrites(name);
    assert w == [w[0], w[1], w[2]];
    ReplayThree(d, w[0], w[1], w[2]);
  }

  lemma NoWritesYet(d: Disk, l: seq<ClusterWrite>)
    ensures Replay(d, []) == d && l + [] == l
  {
  }
}
