/**
 * The bytes on disk: what single bytes of the map and of directory tables mean, and which bytes
 * an operation changes. Offsets and values are those of the structures, written out.
 */
module FatImage {
  import opened Bytes
  import opened FatLayout
  import opened FatChains
  import opened Volume
  import opened FatOps

  // ---- numbers and entries as bytes ----

  /** The two bytes from `at` on hold `v`, low byte first. */
  predicate Holds16(c: seq<byte>, at: nat, v: uint16)
    requires at + 2 <= |c|
  {
    c[at] == v % 256 && c[at + 1] == v / 256
  }

  /** The four bytes from `at` on hold `v`, low byte first. */
  predicate Holds32(c: seq<byte>, at: nat, v: uint32)
    requires at + 4 <= |c|
  {
    c[at] == v % 256 && c[at + 1] == v / 256 % 256 && c[at + 2] == v / 65536 % 256 && c[at + 3] == v / 16777216
  }

  /** What those four bytes hold. */
  function Number32(c: seq<byte>, at: nat): (v: uint32)
    requires at + 4 <= |c|
  {
    c[at] as int + 256 * (c[at + 1] as int) + 65536 * (c[at + 2] as int) + 16777216 * (c[at + 3] as int)
  }

  lemma Le16Bytes(b: seq<byte>)
    requires |b| == 2
    ensures Holds16(b, 0, FromLe16(b))
  {
  }

  lemma Le32Bytes(b: seq<byte>)
    requires |b| == 4
    ensures FromLe32(b) == Number32(b, 0) && Holds32(b, 0, FromLe32(b))
  {
    var low, high := FromLe16(b[..2]), FromLe16(b[2..]);
    assert low == b[0] as int + 256 * (b[1] as int) && high == b[2] as int + 256 * (b[3] as int);
  }

  /** The 32 bytes of slot `s`. */
  function Slot(c: Cluster, s: nat): (b: seq<byte>)
    requires s < 64
    ensures |b| == 32 && forall k :: 0 <= k < 32 ==> b[k] == c[32 * s + k]
  {
    c[32 * s .. 32 * s + 32]
  }

  /** Slot `s` carries the mark of one in use. */
  predicate Marked(c: Cluster, s: nat)
    requires s < 64
  {
    c[32 * s + 12] == 0xAA
  }

  /** Entry `i` of the map. */
  function Link(m: Cluster, i: nat): uint32
    requires i < 512
  {
    Number32(m, 4 * i)
  }

  /** The 32 bytes `b` are the directory entry `e`: which field stands where. */
  predicate EntryImage(b: seq<byte>, e: Entry)
    requires |b| == 32
  {
    && b[0..8] == e.name && b[8..11] == e.ext && b[11] == e.attribute && b[12] == e.userAttribute
    && b[13] == e.undelete && Holds16(b, 14, e.createTime) && Holds16(b, 16, e.createDate)
    && Holds16(b, 18, e.accessDate) && Holds16(b, 20, e.cluster / 65536)
    && Holds16(b, 22, e.modifiedTime) && Holds16(b, 24, e.modifiedDate) && Holds16(b, 26, e.cluster % 65536)
    && Holds32(b, 28, e.filesize)
  }

  /** The high half of the cluster number is at offset 20 of an entry, the low half at 26. */
  lemma DecodedImage(b: seq<byte>)
    requires |b| == 32
    ensures EntryImage(b, DecodeEntry(b))
  {
    hide FromLe16, FromLe32;
    var e := DecodeEntry(b);
    Le16Bytes(b[14..16]);
    Le16Bytes(b[16..18]);
    Le16Bytes(b[18..20]);
    Le16Bytes(b[22..24]);
    Le16Bytes(b[24..26]);
    Le32Bytes(b[28..32]);
    ClusterHalves(b, e.cluster);
  }

  lemma ClusterHalves(b: seq<byte>, cluster: uint32)
    requires |b| == 32 && cluster == FromLe32(b[26..28] + b[20..22])
    ensures Holds16(b, 20, cluster / 65536) && Holds16(b, 26, cluster % 65536)
  {
    hide FromLe32;
    var c := b[26..28] + b[20..22];
    Le32Bytes(c);
    assert c[0] == b[26] && c[1] == b[27] && c[2] == b[20] && c[3] == b[21];
    assert cluster == (b[26] as int + 256 * (b[27] as int)) + 65536 * (b[20] as int + 256 * (b[21] as int));
  }

  /** A table on disk: entry `s` is the 32 bytes from `32 * s` on, and the bytes say its fields. */
  lemma TableImage(c: Cluster, s: nat)
    requires s < 64
    ensures EntryImage(Slot(c, s), DecodeTable(c)[s])
    ensures DecodeTable(c)[s].Occupied() <==> Marked(c, s)
  {
    hide DecodeEntry;
    DecodedImage(EntryBytes(c, s));
  }

  /** The map on disk: entry `i` is the four bytes from `4 * i` on, low byte first. */
  lemma MapImage(c: Cluster, i: nat)
    requires i < 512
    ensures DecodeFat(c)[i] == Link(c, i) && Holds32(c, 4 * i, DecodeFat(c)[i])
  {
    Le32Bytes(MapBytes(c, i));
  }

  // ---- what a store changes ----

  /** The 32 bytes of an entry as `write` makes it: the fields it does not name are zero. */
  predicate NewImage(b: seq<byte>, key: Key, attribute: byte, cluster: uint32, size: uint32)
    requires |b| == 32
  {
    && b[0..8] == key.name && b[8..11] == key.ext && b[11] == attribute && b[12] == 0xAA
    && (forall k :: 13 <= k < 20 ==> b[k] == 0) && (forall k :: 22 <= k < 26 ==> b[k] == 0)
    && Holds16(b, 20, cluster / 65536) && Holds16(b, 26, cluster % 65536) && Holds32(b, 28, size)
  }

  /** Outside slot `s` the clusters are the same. */
  predicate SameBut(c: Cluster, c': Cluster, s: nat) {
    forall k :: 0 <= k < 2048 && k / 32 != s ==> c'[k] == c[k]
  }

  /** Storing a table changed in one slot changes the 32 bytes of that slot. */
  lemma StoredSlot(c: Cluster, s: nat, e: Entry)
    requires s < 64
    ensures var c' := EncodeTable(DecodeTable(c)[s := e]);
      && EntryImage(Slot(c', s), e) && Slot(c', s) == EncodeEntry(e) && SameBut(c, c', s)
  {
    hide EntryImage, EncodeEntry, DecodeEntry;
    var t := DecodeTable(c);
    var c' := EncodeTable(t[s := e]);
    DecodeEncodeTable(t[s := e]);
    TableImage(c', s);
    EncodedEntryBytes(t[s := e], s);
    forall k | 0 <= k < 2048 && k / 32 != s
      ensures c'[k] == c[k]
    {
      EncodeDecodeByte(c, k);
    }
  }

  lemma NewEntryImage(b: seq<byte>, key: Key, attribute: byte, cluster: uint32, size: uint32)
    requires |b| == 32 && EntryImage(b, NewEntry(key, attribute, cluster, size))
    ensures NewImage(b, key, attribute, cluster, size)
  {
    assert b[14] == b[15] == b[16] == b[17] == b[18] == b[19] == 0;
    assert b[22] == b[23] == b[24] == b[25] == 0;
  }

  /** Storing a map changes the four bytes of each entry that changed, and no others. */
  lemma StoredMap(c: Cluster, g: Fat, i: nat)
    requires i < 512
    ensures Holds32(EncodeFat(g), 4 * i, g[i]) && Link(EncodeFat(g), i) == g[i]
    ensures g[i] == DecodeFat(c)[i] ==> forall j :: 4 * i <= j < 4 * i + 4 ==> EncodeFat(g)[j] == c[j]
  {
    hide EncodeFat, DecodeFat;
    DecodeEncodeFat(g);
    MapImage(EncodeFat(g), i);
    MapImage(c, i);
  }

  // ---- where things go ----

  /** Slot `s` is the first one that is not marked as in use. */
  predicate FirstUnused(c: Cluster, s: nat) {
    s < 64 && !Marked(c, s) && forall i :: 0 <= i < s ==> Marked(c, i)
  }

  /** `ch` are the lowest-numbered free clusters of the map, from 3 on, in ascending order. */
  predicate LowestFree(m: Cluster, ch: seq<nat>) {
    && (forall i :: 0 <= i < |ch| ==> 3 <= ch[i] < 512 && Link(m, ch[i]) == 0)
    && (forall i, j :: 0 <= i < j < |ch| ==> ch[i] < ch[j])
    && (forall x: nat, i :: 0 <= i < |ch| && 3 <= x < ch[i] && x !in ch ==> Link(m, x) != 0)
  }

  lemma FreeSlotImage(c: Cluster)
    ensures var s := FreeSlot(DecodeTable(c), 0);
      if s < 64 then FirstUnused(c, s) else forall i :: 0 <= i < 64 ==> Marked(c, i)
  {
    hide DecodeTable, FreeSlot, Marked, EntryImage;
    var t := DecodeTable(c);
    forall i | 0 <= i < 64
      ensures t[i].Occupied() <==> Marked(c, i)
    {
      TableImage(c, i);
    }
  }

  lemma MapNumbers(m: Cluster)
    ensures forall x :: 0 <= x < 512 ==> DecodeFat(m)[x] == Link(m, x)
  {
    hide DecodeFat, Link, Holds32;
    forall x | 0 <= x < 512
      ensures DecodeFat(m)[x] == Link(m, x)
    {
      MapImage(m, x);
    }
  }

  lemma BelowInPrefix(a: seq<nat>, n: nat, i: nat, x: nat)
    requires StrictlyUp(a) && i < n <= |a| && x in a && x < a[i]
    ensures x in a[..n]
  {
    var j :| 0 <= j < |a| && a[j] == x;
    assert a[..n][j] == x;
  }

  lemma FreeListImage(m: Cluster, n: nat)
    requires n <= |FreeList(DecodeFat(m))|
    ensures LowestFree(m, FreeList(DecodeFat(m))[..n])
  {
    hide DecodeFat, Link, Ascending;
    var f := DecodeFat(m);
    var a := FreeList(f);
    MapNumbers(m);
    forall x: nat, i | 0 <= i < n && 3 <= x < a[i] && x !in a[..n]
      ensures Link(m, x) != 0
    {
      if f[x] == 0 {
        AscendingComplete(FreeSet(f), 3, x);
        BelowInPrefix(a, n, i, x);
        assert false;
      }
    }
  }

  // ---- lookups ----

  /** The cluster number of an entry, from its two halves. */
  function ClusterIn(b: seq<byte>): uint32
    requires |b| == 32
  {
    b[26] as int + 256 * (b[27] as int) + 65536 * (b[20] as int + 256 * (b[21] as int))
  }

  predicate WithId(c: Cluster, s: nat, key: Key)
    requires s < 64
  {
    Slot(c, s)[0..8] == key.name && Slot(c, s)[8..11] == key.ext
  }

  /** Slot `s` is the first with this name and extension. */
  predicate FirstWithId(c: Cluster, s: nat, key: Key)
    requires s < 64
  {
    WithId(c, s, key) && forall i :: 0 <= i < s ==> !WithId(c, i, key)
  }

  predicate WithName(c: Cluster, s: nat, name: Name)
    requires s < 64
  {
    Slot(c, s)[0..8] == name
  }

  /** Slot `s` is the first after the directory's own with this name. */
  predicate FirstWithName(c: Cluster, s: nat, name: Name)
    requires 1 <= s < 64
  {
    WithName(c, s, name) && forall i :: 1 <= i < s ==> !WithName(c, i, name)
  }

  lemma SlotNumbers(c: Cluster, s: nat)
    requires s < 64
    ensures DecodeTable(c)[s].cluster == ClusterIn(Slot(c, s))
    ensures DecodeTable(c)[s].filesize == Number32(Slot(c, s), 28)
    ensures DecodeTable(c)[s].attribute == Slot(c, s)[11]
  {
    hide DecodeTable, Slot;
    TableImage(c, s);
    NumbersIn(Slot(c, s), DecodeTable(c)[s]);
  }

  lemma NumbersIn(b: seq<byte>, e: Entry)
    requires |b| == 32 && EntryImage(b, e)
    ensures e.cluster == ClusterIn(b) && e.filesize == Number32(b, 28) && e.attribute == b[11]
  {
    hide EntryImage;
    NumberFields(b, e);
    Joined16(b, 20, e.cluster / 65536);
    Joined16(b, 26, e.cluster % 65536);
    Joined32(b, 28, e.filesize);
  }

  lemma NumberFields(b: seq<byte>, e: Entry)
    requires |b| == 32 && EntryImage(b, e)
    ensures Holds16(b, 20, e.cluster / 65536) && Holds16(b, 26, e.cluster % 65536) && Holds32(b, 28, e.filesize)
    ensures e.attribute == b[11]
  {
    hide Holds16, Holds32;
  }

  lemma Joined16(b: seq<byte>, at: nat, v: uint16)
    requires at + 2 <= |b| && Holds16(b, at, v)
    ensures v == b[at] as int + 256 * (b[at + 1] as int)
  {
  }

  lemma Joined32(b: seq<byte>, at: nat, v: uint32)
    requires at + 4 <= |b| && Holds32(b, at, v)
    ensures v == Number32(b, at)
  {
    assert v / 256 / 256 == v / 65536 && v / 65536 / 256 == v / 16777216;
  }

  lemma SlotNames(c: Cluster, key: Key)
    ensures forall i {:trigger WithId(c, i, key)} {:trigger WithName(c, i, key.name)} {:trigger DecodeTable(c)[i]} ::
      0 <= i < 64 ==>
      (WithId(c, i, key) <==> DecodeTable(c)[i].Id() == key)
      && (WithName(c, i, key.name) <==> DecodeTable(c)[i].name == key.name)
  {
    hide DecodeTable, Slot;
    forall i | 0 <= i < 64
      ensures WithId(c, i, key) <==> DecodeTable(c)[i].Id() == key
      ensures WithName(c, i, key.name) <==> DecodeTable(c)[i].name == key.name
    {
      TableImage(c, i);
    }
  }

  lemma FoundId(c: Cluster, s: nat, key: Key)
    requires s < 64 && FirstWithId(c, s, key)
    ensures FindId(DecodeTable(c), key, 0) == s
  {
    hide DecodeTable, WithId, FindId;
    SlotNames(c, key);
    var r := FindId(DecodeTable(c), key, 0);
    assert r < 64 ==> DecodeTable(c)[r].Id() == key;
  }

  // ---- write: a file ----

  /** The parent's own cluster is not free, and not the map's. */
  predicate ParentInUse(d: Disk, p: nat) {
    p < 2048 && p != 1 && (p < 512 ==> Link(d[1], p) != 0)
  }

  /**
   * Disk `d'` is `d` with a new file: its entry in slot `s` of the parent, the first unused one,
   * its clusters `ch`, the lowest free ones, linked in order and closed by 0x0FFFFFFF, its bytes
   * in them in order, zeros behind them, and nothing else changed.
   */
  predicate FileStored(d: Disk, d': Disk, p: nat, key: Key, data: seq<byte>, s: nat, ch: seq<nat>)
    requires p < 2048 && 0 < |data| < 0x1_0000_0000
  {
    && FirstUnused(d[p], s) && LowestFree(d[1], ch)
    && 2048 * |ch| - 2048 < |data| <= 2048 * |ch|
    && NewImage(Slot(d'[p], s), key, 0, ch[0], |data|) && SameBut(d[p], d'[p], s)
    && (forall i :: 0 <= i < |ch| - 1 ==> Link(d'[1], ch[i]) == ch[i + 1]) && Link(d'[1], ch[|ch| - 1]) == 0x0FFF_FFFF
    && (forall k :: 0 <= k < 2048 && k / 4 !in ch ==> d'[1][k] == d[1][k])
    && (forall i, j :: 0 <= i < |ch| && 0 <= j < 2048 ==>
          d'[ch[i]][j] == if 2048 * i + j < |data| then data[2048 * i + j] else 0)
    && (forall x :: 0 <= x < 2048 && x != 1 && x != p && x !in ch ==> d'[x] == d[x])
  }

  lemma ChunkByte(data: seq<byte>, i: nat, j: nat)
    requires i * 2048 <= |data| && j < 2048
    ensures Chunk(data, i)[j] == if 2048 * i + j < |data| then data[2048 * i + j] else 0
  {
  }

  /** The disk after a file's data, the map and its parent's table have been stored. */
  lemma FileClusters(d: Disk, data: seq<byte>, ch: seq<nat>, g: Fat, p: ImageCluster, c: Cluster)
    requires InMap(ch) && StrictlyUp(ch) && 0 < |ch| == ClustersFor(data) && p != 1 && p !in ch
    ensures var d' := Replay(d, DataWrites(data, ch) + [ClusterWrite(FAT_CLUSTER, EncodeFat(g)), ClusterWrite(p, c)]);
      && d'[p] == c && d'[1] == EncodeFat(g)
      && (forall i :: 0 <= i < |ch| ==> d'[ch[i]] == Chunk(data, i))
      && (forall x :: 0 <= x < 2048 && x != 1 && x != p && x !in ch ==> d'[x] == d[x])
  {
    hide EncodeFat, Replay, Chunk;
    var n := |ch|;
    var w := DataWrites(data, ch) + [ClusterWrite(FAT_CLUSTER, EncodeFat(g)), ClusterWrite(p, c)];
    ReplayAt(d, w, n + 1);
    ReplayAt(d, w, n);
    forall i | 0 <= i < n
      ensures Replay(d, w)[ch[i]] == Chunk(data, i)
    {
      assert w[i] == ClusterWrite(ch[i], Chunk(data, i));
      ReplayAt(d, w, i);
    }
    forall x | 0 <= x < 2048 && x != 1 && x != p && x !in ch
      ensures Replay(d, w)[x] == d[x]
    {
      ReplayElsewhere(d, w, x);
    }
  }

  /** The map after a chain has been linked: the links of the chain, and no other byte changed. */
  lemma FileMap(c: Cluster, ch: seq<nat>)
    requires InMap(ch) && StrictlyUp(ch) && |ch| > 0
    ensures var m := EncodeFat(LinkChain(DecodeFat(c), ch));
      && (forall i :: 0 <= i < |ch| - 1 ==> Link(m, ch[i]) == ch[i + 1]) && Link(m, ch[|ch| - 1]) == 0x0FFF_FFFF
      && (forall k :: 0 <= k < 2048 && k / 4 !in ch ==> m[k] == c[k])
  {
    hide EncodeFat, DecodeFat, LinkChain, Link;
    var f := DecodeFat(c);
    var g := LinkChain(f, ch);
    LinkChainAt(f, ch);
    StoredMap(c, g, ch[|ch| - 1]);
    forall i | 0 <= i < |ch| - 1
      ensures Link(EncodeFat(g), ch[i]) == ch[i + 1]
    {
      StoredMap(c, g, ch[i]);
    }
    forall k | 0 <= k < 2048 && k / 4 !in ch
      ensures EncodeFat(g)[k] == c[k]
    {
      StoredMap(c, g, k / 4);
    }
  }

  /** What a successful `write` of a file leaves on disk, byte by byte. */
  lemma FileOnDisk(d: Disk, p: nat, key: Key, data: seq<byte>) returns (s: nat, ch: seq<nat>)
    requires ParentInUse(d, p) && 0 < |data| < 0x1_0000_0000
    requires FreeSlot(TableOf(d, p), 0) < SLOTS && WriteFileOutcome(d, p, key, data).code == 0
    ensures FileStored(d, Replay(d, WriteFileOutcome(d, p, key, data).writes), p, key, data, s, ch)
  {
    hide EncodeTable, DecodeTable, EncodeFat, DecodeFat, LinkChain, LinkPairs, Replay, FreeSlot, NewEntry;
    hide Link, NewImage, SameBut, EntryImage, FreeList, Chunk;
    var f, need := FatOf(d), ClustersFor(data);
    s, ch := FreeSlot(TableOf(d, p), 0), FreeList(f)[..need];
    var g := LinkChain(f, ch);
    var t := TableOf(d, p)[s := NewEntry(key, 0, ch[0], |data|)];
    FreeSlotImage(d[p]);
    FreeListImage(d[1], need);
    StoredSlot(d[p], s, NewEntry(key, 0, ch[0], |data|));
    NewEntryImage(Slot(EncodeTable(t), s), key, 0, ch[0], |data|);
    MapNumbers(d[1]);
    FileClusters(d, data, ch, g, p, EncodeTable(t));
    FileMap(d[1], ch);
    forall i, j | 0 <= i < |ch| && 0 <= j < 2048
      ensures Chunk(data, i)[j] == if 2048 * i + j < |data| then data[2048 * i + j] else 0
    {
      ChunkByte(data, i, j);
    }
  }

  // ---- write: a directory ----

  /** An unused slot is 32 zero bytes. */
  lemma ZeroEntryImage()
    ensures EncodeEntry(ZERO_ENTRY) == Zeros(32)
  {
    hide DecodeEntry, EncodeEntry;
    ZeroEntryBytes();
    EncodeDecodeEntry(Zeros(32));
  }

  /** Only the first eight bytes of an entry depend on its name. */
  lemma Renamed(e: Entry, name: Name)
    ensures EncodeEntry(e.(name := name))[..8] == name
    ensures EncodeEntry(e.(name := name))[8..] == EncodeEntry(e)[8..]
  {
  }

  /** A new directory's cluster: its own entry, its parent's under the name "..", and zeros. */
  predicate DirectoryImage(c: Cluster, self: seq<byte>, up: seq<byte>)
    requires |self| == |up| == 32
  {
    && Slot(c, 0) == self && Slot(c, 1)[..8] == [46, 46, 0, 0, 0, 0, 0, 0] && Slot(c, 1)[8..] == up[8..]
    && forall k :: 64 <= k < 2048 ==> c[k] == 0
  }

  lemma NewDirectoryImage(self: Entry, up: Entry)
    ensures DirectoryImage(EncodeTable(NewDirTable(self, up)), EncodeEntry(self), EncodeEntry(up))
  {
    hide EncodeEntry;
    var t := NewDirTable(self, up);
    var c := EncodeTable(t);
    EncodedEntryBytes(t, 0);
    EncodedEntryBytes(t, 1);
    Renamed(up, DOT_DOT);
    ZeroEntryImage();
    forall k | 64 <= k < 2048
      ensures c[k] == 0
    {
      assert t[k / 32] == ZERO_ENTRY;
    }
  }

  /**
   * Disk `d'` is `d` with a new directory: its entry in slot `s` of the parent, the first unused
   * one, its table in cluster `k`, the lowest free one, and nothing else changed.
   */
  predicate DirectoryStored(d: Disk, d': Disk, p: nat, name: Name, s: nat, k: nat)
    requires p < 2048
  {
    && FirstUnused(d[p], s) && LowestFree(d[1], [k]) && k < 512
    && NewImage(Slot(d'[p], s), Key(name, [0, 0, 0]), 0x10, k, 0) && SameBut(d[p], d'[p], s)
    && DirectoryImage(d'[k], Slot(d'[p], s), Slot(d[p], 0))
    && Link(d'[1], k) == 0x0FFF_FFFF && (forall j :: 0 <= j < 2048 && j / 4 != k ==> d'[1][j] == d[1][j])
    && (forall x :: 0 <= x < 2048 && x != 1 && x != p && x != k ==> d'[x] == d[x])
  }

  lemma SlotEncoded(c: Cluster, s: nat)
    requires s < 64
    ensures EncodeEntry(DecodeTable(c)[s]) == Slot(c, s)
  {
    hide EncodeEntry, DecodeEntry;
    EncodeDecodeEntry(EntryBytes(c, s));
  }

  lemma LowestOne(m: Cluster)
    requires |FreeList(DecodeFat(m))| > 0
    ensures LowestFree(m, [FreeList(DecodeFat(m))[0]])
  {
    hide FreeList, LowestFree;
    FreeListImage(m, 1);
    assert FreeList(DecodeFat(m))[..1] == [FreeList(DecodeFat(m))[0]];
  }

  /** What a successful `write` of a directory leaves on disk, byte by byte. */
  lemma DirectoryOnDisk(d: Disk, p: nat, name: Name) returns (s: nat, k: nat)
    requires ParentInUse(d, p) && |FreeList(FatOf(d))| > 0 && MkdirOutcome(d, p, name).code == 0
    ensures DirectoryStored(d, Replay(d, MkdirOutcome(d, p, name).writes), p, name, s, k)
  {
    hide EncodeTable, DecodeTable, EncodeFat, DecodeFat, Replay, FreeSlot, NewEntry, NewDirTable, EncodeEntry;
    hide Link, NewImage, SameBut, EntryImage, FreeList, DirectoryImage;
    var f, t := FatOf(d), TableOf(d, p);
    s, k := FreeSlot(t, 0), FreeList(f)[0];
    var self := NewEntry(Key(name, NO_EXT), ATTR_SUBDIRECTORY, k, 0);
    var g := f[k := END_OF_FILE];
    FreeSlotImage(d[p]);
    LowestOne(d[1]);
    StoredSlot(d[p], s, self);
    NewEntryImage(Slot(EncodeTable(t[s := self]), s), Key(name, NO_EXT), ATTR_SUBDIRECTORY, k, 0);
    NewDirectoryImage(self, t[0]);
    SlotEncoded(d[p], 0);
    MapNumbers(d[1]);
    ReplayThree(d, ClusterWrite(1, EncodeFat(g)), ClusterWrite(p, EncodeTable(t[s := self])),
                ClusterWrite(k, EncodeTable(NewDirTable(self, t[0]))));
    StoredMap(d[1], g, k);
    forall j | 0 <= j < 2048 && j / 4 != k
      ensures EncodeFat(g)[j] == d[1][j]
    {
      StoredMap(d[1], g, j / 4);
    }
  }

  /** What a successful `write` leaves on disk: a file, or without data a directory. */
  ghost predicate Stored(d: Disk, d': Disk, p: nat, key: Key, data: seq<byte>)
    requires p < 2048 && |data| < 0x1_0000_0000
  {
    if data == [] then exists s: nat, k: nat :: DirectoryStored(d, d', p, key.name, s, k)
    else exists s: nat, ch: seq<nat> :: FileStored(d, d', p, key, data, s, ch)
  }

  lemma WrittenOnDisk(d: Disk, p: nat, key: Key, data: seq<byte>)
    requires p < 2048 && |data| < 0x1_0000_0000
    requires WriteRefused(d, p, key) || data == [] || FreeSlot(TableOf(d, p), 0) < SLOTS
    ensures var o := WriteOutcome(d, p, key, data);
      o.code == 0 && ParentInUse(d, p) ==> Stored(d, Replay(d, o.writes), p, key, data)
  {
    hide MkdirOutcome, WriteFileOutcome, FreeList, FindId, FreeSlot, DecodeTable, DecodeFat, ParentInUse;
    hide FileStored, DirectoryStored;
    if WriteOutcome(d, p, key, data).code == 0 && ParentInUse(d, p) {
      if data == [] {
        var s, k := DirectoryOnDisk(d, p, key.name);
      } else {
        var s, ch := FileOnDisk(d, p, key, data);
      }
    }
  }

  // ---- a new volume ----

  /**
   * What `create_fat32` leaves in clusters 1 and 2: the reserved values 0x0FFFFFF0 and 0x0FFFFFFF,
   * the root's chain of one cluster, all else free; and a root that is its own parent.
   */
  predicate VolumeCreated(d: Disk, d': Disk, name: Name) {
    && Link(d'[1], 0) == 0x0FFF_FFF0 && Link(d'[1], 1) == 0x0FFF_FFFF && Link(d'[1], 2) == 0x0FFF_FFFF
    && (forall i :: 3 <= i < 512 ==> Link(d'[1], i) == 0)
    && NewImage(Slot(d'[2], 0), Key(name, [0, 0, 0]), 0x10, 2, 0)
    && DirectoryImage(d'[2], Slot(d'[2], 0), Slot(d'[2], 0))
    && forall x :: 0 <= x < 2048 && x != 1 && x != 2 ==> d'[x] == d[x]
  }

  lemma CreatedOnDisk(d: Disk, name: Name)
    ensures VolumeCreated(d, Replay(d, CreateWrites(name)), name)
  {
    hide EncodeTable, EncodeFat, DecodeFat, DecodeTable, Replay, NewEntry, EncodeEntry, Link, NewImage, EntryImage;
    hide DirectoryImage, NewDirTable;
    var w, g := CreateWrites(name), FirstMap()[ROOT_CLUSTER := END_OF_FILE];
    var self := NewEntry(Key(name, NO_EXT), ATTR_SUBDIRECTORY, ROOT_CLUSTER, 0);
    assert w == [w[0], w[1], w[2]];
    ReplayThree(d, w[0], w[1], w[2]);
    forall i: nat | i < 512
      ensures Link(EncodeFat(g), i) == g[i]
    {
      StoredMap(d[1], g, i);
    }
    var c := EncodeTable(RootTable(name));
    NewDirectoryImage(self, self);
    RootSlot(name);
    NewEntryImage(Slot(c, 0), Key(name, NO_EXT), ATTR_SUBDIRECTORY, ROOT_CLUSTER, 0);
  }

  lemma RootSlot(name: Name)
    ensures var self := NewEntry(Key(name, NO_EXT), ATTR_SUBDIRECTORY, ROOT_CLUSTER, 0);
      var c := EncodeTable(RootTable(name));
      EntryImage(Slot(c, 0), self) && Slot(c, 0) == EncodeEntry(self)
  {
    hide EncodeTable, DecodeTable, EncodeEntry, EntryImage;
    var c := EncodeTable(RootTable(name));
    DecodeEncodeTable(RootTable(name));
    TableImage(c, 0);
    SlotEncoded(c, 0);
  }

  // ---- delete ----

  lemma DroppedSlot(c: Cluster, s: nat)
    requires s < 64
    ensures var c' := EncodeTable(DecodeTable(c)[s := ZERO_ENTRY]);
      SameBut(c, c', s) && Slot(c', s) == Zeros(32)
  {
    hide EncodeTable, DecodeTable, Slot, EntryImage, SameBut, EncodeEntry;
    StoredSlot(c, s, ZERO_ENTRY);
    ZeroEntryImage();
  }

  lemma LastWrite(d: Disk, v: seq<ClusterWrite>, a: ClusterWrite)
    ensures Replay(d, v + [a]) == Replay(d, v)[a.at := a.data]
  {
    assert (v + [a])[..|v|] == v;
  }

  /** What deleting the empty directory in slot `s` leaves on disk; `k` is its cluster. */
  predicate DirectoryDropped(d: Disk, d': Disk, p: nat, s: nat, k: nat)
    requires p < 2048 && s < 64
  {
    && SameBut(d[p], d'[p], s) && Slot(d'[p], s) == Zeros(32)
    && k < 512 && Link(d'[1], k) == 0 && (forall j :: 0 <= j < 2048 && j / 4 != k ==> d'[1][j] == d[1][j])
    && (k != p && k != 1 ==> d'[k] == Zeros(2048))
    && forall x :: 0 <= x < 2048 && x != 1 && x != p && x != k ==> d'[x] == d[x]
  }

  lemma DropsDirectory(d: Disk, p: ImageCluster, s: nat, k: nat, w: seq<ClusterWrite>)
    requires p != 1 && s < 64 && k < 512
    requires w == [ClusterWrite(k, ZERO_CLUSTER), ClusterWrite(1, EncodeFat(FatOf(d)[k := 0])),
                   ClusterWrite(p, EncodeTable(TableOf(d, p)[s := ZERO_ENTRY]))]
    ensures DirectoryDropped(d, Replay(d, w), p, s, k)
  {
    hide EncodeTable, DecodeTable, EncodeFat, DecodeFat, Replay, SameBut, Link, Slot;
    var g := FatOf(d)[k := 0];
    DroppedSlot(d[p], s);
    ReplayThree(d, w[0], w[1], w[2]);
    StoredMap(d[1], g, k);
    forall j | 0 <= j < 2048 && j / 4 != k
      ensures EncodeFat(g)[j] == d[1][j]
    {
      StoredMap(d[1], g, j / 4);
    }
  }

  /**
   * A successful `delete` clears the 32 bytes of the first slot with the name and extension. An
   * empty directory also gives back its map entry, and its cluster is zeroed; the map entries of
   * a file stay.
   */
  lemma DeleteOnDisk(d: Disk, p: nat, key: Key, s: nat)
    requires p < 2048 && p != 1 && s < 64 && FirstWithId(d[p], s, key)
    requires DeleteDefined(d, p, key) && DeleteOutcome(d, p, key).code == 0
    ensures var d', k := Replay(d, DeleteOutcome(d, p, key).writes), ClusterIn(Slot(d[p], s));
      if Number32(Slot(d[p], s), 28) == 0 then DirectoryDropped(d, d', p, s, k)
      else
        && SameBut(d[p], d'[p], s) && Slot(d'[p], s) == Zeros(32) && k < 512
        && (1 !in Chain(FatOf(d), k) ==> d'[1] == d[1])
  {
    hide EncodeTable, DecodeTable, EncodeFat, DecodeFat, Replay, SameBut, Link, Chain, Slot, FindId, FirstWithId;
    hide DirectoryDropped, HasMembers, ClusterIn, Number32, ZeroWrites;
    FoundId(d[p], s, key);
    SlotNumbers(d[p], s);
    var t, k := TableOf(d, p), TableOf(d, p)[s].cluster;
    var w := DeleteOutcome(d, p, key).writes;
    if t[s].filesize == 0 {
      DropsDirectory(d, p, s, k, w);
    } else {
      var zw, drop := ZeroWrites(Chain(FatOf(d), k)), ClusterWrite(p, EncodeTable(t[s := ZERO_ENTRY]));
      DroppedSlot(d[p], s);
      LastWrite(d, zw, drop);
      if 1 !in Chain(FatOf(d), k) {
        ZeroElsewhere(d, Chain(FatOf(d), k), 1);
      }
    }
  }

  lemma ZeroElsewhere(d: Disk, ch: seq<nat>, x: nat)
    requires x < 2048 && x !in ch && forall i :: 0 <= i < |ch| ==> ch[i] < CLUSTER_MAP_SIZE
    ensures Replay(d, ZeroWrites(ch))[x] == d[x]
  {
    ReplayElsewhere(d, ZeroWrites(ch), x);
  }
}
