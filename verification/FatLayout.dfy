/** The on-disk layout of "FAT32 - IF2230 edition": clusters, the cluster map, directory tables. */
module FatLayout {
  import opened Bytes

  const BLOCK_SIZE: nat := 512
  const CLUSTER_BLOCK_COUNT: nat := 4
  const CLUSTER_SIZE: nat := 2048
  const CLUSTER_MAP_SIZE: nat := 512
  const IMAGE_CLUSTERS: nat := 2048  // a 4 MiB image

  const CLUSTER_0_VALUE: uint32 := 0x0FFF_FFF0
  const CLUSTER_1_VALUE: uint32 := 0x0FFF_FFFF
  const END_OF_FILE: uint32 := 0x0FFF_FFFF
  const EMPTY_ENTRY: uint32 := 0

  const FAT_CLUSTER: nat := 1
  const ROOT_CLUSTER: nat := 2

  const ATTR_SUBDIRECTORY: byte := 0x10
  const UATTR_NOT_EMPTY: byte := 0xAA

  const SLOTS: nat := 64

  type Cluster = s: seq<byte> | |s| == 2048 witness Zeros(2048)
  type ImageCluster = i: int | 0 <= i < 2048
  type Disk = d: seq<Cluster> | |d| == 2048 witness seq<Cluster>(2048, i => ZERO_CLUSTER)
  type Fat = f: seq<uint32> | |f| == 512 witness seq(512, i => 0)
  type Name = s: seq<byte> | |s| == 8 witness [0, 0, 0, 0, 0, 0, 0, 0]
  type Ext = s: seq<byte> | |s| == 3 witness [0, 0, 0]

  const ZERO_CLUSTER: Cluster := Zeros(2048)

  const NO_EXT: Ext := [0, 0, 0]
  const DOT: Name := [46, 0, 0, 0, 0, 0, 0, 0]
  const DOT_DOT: Name := [46, 46, 0, 0, 0, 0, 0, 0]

  /** What names an entry inside its directory. */
  datatype Key = Key(name: Name, ext: Ext)

  const BLANK_KEY: Key := Key([0, 0, 0, 0, 0, 0, 0, 0], [0, 0, 0])
  const DOT_DOT_KEY: Key := Key(DOT_DOT, NO_EXT)

  /**
   * struct FAT32DirectoryEntry, 32 bytes packed. `cluster` joins the fields cluster_high and
   * cluster_low, which the program only ever reads and writes together.
   */
  datatype Entry = Entry(
    name: Name,
    ext: Ext,
    attribute: byte,
    userAttribute: byte,
    undelete: byte,
    createTime: uint16,
    createDate: uint16,
    accessDate: uint16,
    modifiedTime: uint16,
    modifiedDate: uint16,
    cluster: uint32,
    filesize: uint32)
  {
    function Id(): Key {
      Key(name, ext)
    }

    predicate Occupied() {
      userAttribute == UATTR_NOT_EMPTY
    }
  }

  type Table = t: seq<Entry> | |t| == 64 witness seq(64, i => ZERO_ENTRY)

  const ZERO_ENTRY: Entry :=
    Entry([0, 0, 0, 0, 0, 0, 0, 0], [0, 0, 0], 0, 0, 0, 0, 0, 0, 0, 0, 0, 0)

  /** The entry `write` and `init_directory_table` build: every field they do not name is zero. */
  function NewEntry(key: Key, attribute: byte, cluster: uint32, filesize: uint32): (e: Entry)
    ensures e.Id() == key && e.cluster == cluster && e.Occupied()
  {
    Entry(key.name, key.ext, attribute, UATTR_NOT_EMPTY, 0, 0, 0, 0, 0, 0, cluster, filesize)
  }

  // ---- byte images ----

  function DecodeEntry(b: seq<byte>): Entry
    requires |b| == 32
  {
    Entry(b[..8], b[8..11], b[11], b[12], b[13],
          FromLe16(b[14..16]), FromLe16(b[16..18]), FromLe16(b[18..20]),
          FromLe16(b[22..24]), FromLe16(b[24..26]),
          FromLe32(b[26..28] + b[20..22]), FromLe32(b[28..32]))
  }

  function EncodeEntry(e: Entry): (b: seq<byte>)
    ensures |b| == 32
  {
    e.name + e.ext + [e.attribute, e.userAttribute, e.undelete]
    + ToLe16(e.createTime) + ToLe16(e.createDate) + ToLe16(e.accessDate) + ToLe32(e.cluster)[2..]
    + ToLe16(e.modifiedTime) + ToLe16(e.modifiedDate) + ToLe32(e.cluster)[..2] + ToLe32(e.filesize)
  }

  function EntryBytes(c: Cluster, i: nat): (b: seq<byte>)
    requires i < SLOTS
    ensures |b| == 32
  {
    c[32 * i .. 32 * i + 32]
  }

  function DecodeTable(c: Cluster): Table {
    seq(SLOTS, i requires 0 <= i < SLOTS => DecodeEntry(EntryBytes(c, i)))
  }

  function EncodeTable(t: Table): Cluster {
    seq(CLUSTER_SIZE, k requires 0 <= k < CLUSTER_SIZE => EncodeEntry(t[k / 32])[k % 32])
  }

  function MapBytes(c: Cluster, i: nat): (b: seq<byte>)
    requires i < CLUSTER_MAP_SIZE
    ensures |b| == 4
  {
    c[4 * i .. 4 * i + 4]
  }

  function DecodeFat(c: Cluster): Fat {
    seq(CLUSTER_MAP_SIZE, i requires 0 <= i < CLUSTER_MAP_SIZE => FromLe32(MapBytes(c, i)))
  }

  function EncodeFat(f: Fat): Cluster {
    seq(CLUSTER_SIZE, k requires 0 <= k < CLUSTER_SIZE => ToLe32(f[k / 4])[k % 4])
  }

  lemma DecodeEncodeEntry(e: Entry)
    ensures DecodeEntry(EncodeEntry(e)) == e
  {
    var b := EncodeEntry(e);
    var low, high := ToLe32(e.cluster)[..2], ToLe32(e.cluster)[2..];
    assert low + high == ToLe32(e.cluster);
    assert b[28..] == ToLe32(e.filesize) && b[26..28] == low && b[20..22] == high;
    assert b[..8] == e.name && b[8..11] == e.ext;
    assert b[14..16] == ToLe16(e.createTime) && b[16..18] == ToLe16(e.createDate);
    assert b[18..20] == ToLe16(e.accessDate);
    assert b[22..24] == ToLe16(e.modifiedTime) && b[24..26] == ToLe16(e.modifiedDate);
  }

  lemma EncodeDecodeEntry(b: seq<byte>)
    requires |b| == 32
    ensures EncodeEntry(DecodeEntry(b)) == b
  {
    var e := DecodeEntry(b);
    Le16Injective(ToLe16(e.createTime), b[14..16]);
    Le16Injective(ToLe16(e.createDate), b[16..18]);
    Le16Injective(ToLe16(e.accessDate), b[18..20]);
    Le16Injective(ToLe16(e.modifiedTime), b[22..24]);
    Le16Injective(ToLe16(e.modifiedDate), b[24..26]);
    Le32Injective(ToLe32(e.cluster), b[26..28] + b[20..22]);
    Le32Injective(ToLe32(e.filesize), b[28..32]);
    assert b == b[..8] + b[8..11] + [b[11], b[12], b[13]]
                + b[14..16] + b[16..18] + b[18..20] + b[20..22]
                + b[22..24] + b[24..26] + b[26..28] + b[28..32];
  }

  lemma EncodedEntryBytes(t: Table, i: nat)
    requires i < SLOTS
    ensures EntryBytes(EncodeTable(t), i) == EncodeEntry(t[i])
  {
    forall j | 0 <= j < 32
      ensures EntryBytes(EncodeTable(t), i)[j] == EncodeEntry(t[i])[j]
    {
      assert (32 * i + j) / 32 == i && (32 * i + j) % 32 == j;
    }
  }

  /** A directory table survives being stored and loaded. */
  lemma DecodeEncodeTable(t: Table)
    ensures DecodeTable(EncodeTable(t)) == t
  {
    forall i | 0 <= i < SLOTS
      ensures DecodeTable(EncodeTable(t))[i] == t[i]
    {
      EncodedEntryBytes(t, i);
      DecodeEncodeEntry(t[i]);
    }
  }

  lemma EncodeDecodeByte(c: Cluster, k: nat)
    requires k < CLUSTER_SIZE
    ensures EncodeEntry(DecodeTable(c)[k / 32])[k % 32] == c[k]
  {
    EncodeDecodeEntry(EntryBytes(c, k / 32));
    assert DecodeTable(c)[k / 32] == DecodeEntry(EntryBytes(c, k / 32));
    assert EntryBytes(c, k / 32)[k % 32] == c[k];
  }

  /** Loading a cluster as a table and storing it again changes no byte of it. */
  lemma EncodeDecodeTable(c: Cluster)
    ensures EncodeTable(DecodeTable(c)) == c
  {
    forall k | 0 <= k < CLUSTER_SIZE
      ensures EncodeTable(DecodeTable(c))[k] == c[k]
    {
      EncodeDecodeByte(c, k);
    }
  }

  lemma EncodedMapBytes(f: Fat, i: nat)
    requires i < CLUSTER_MAP_SIZE
    ensures MapBytes(EncodeFat(f), i) == ToLe32(f[i])
  {
    forall j | 0 <= j < 4
      ensures MapBytes(EncodeFat(f), i)[j] == ToLe32(f[i])[j]
    {
      assert (4 * i + j) / 4 == i && (4 * i + j) % 4 == j;
    }
  }

  /** The cluster map survives being stored and loaded. */
  lemma DecodeEncodeFat(f: Fat)
    ensures DecodeFat(EncodeFat(f)) == f
  {
    forall i | 0 <= i < CLUSTER_MAP_SIZE
      ensures DecodeFat(EncodeFat(f))[i] == f[i]
    {
      EncodedMapBytes(f, i);
    }
  }

  /** Loading a cluster as a cluster map and storing it again changes no byte of it. */
  lemma EncodeDecodeFat(c: Cluster)
    ensures EncodeFat(DecodeFat(c)) == c
  {
    forall k | 0 <= k < CLUSTER_SIZE
      ensures EncodeFat(DecodeFat(c))[k] == c[k]
    {
      EncodeDecodeMapByte(c, k);
    }
  }

  lemma EncodeDecodeMapByte(c: Cluster, k: nat)
    requires k < CLUSTER_SIZE
    ensures EncodeFat(DecodeFat(c))[k] == c[k]
  {
    hide FromLe32, ToLe32;
    var i, v := k / 4, FromLe32(MapBytes(c, k / 4));
    assert DecodeFat(c)[i] == v;
    Le32Injective(ToLe32(v), MapBytes(c, i));
    assert MapBytes(c, i)[k % 4] == c[k];
  }

  lemma ZeroLe16(b: seq<byte>)
    requires |b| == 2 && b[0] == b[1] == 0
    ensures FromLe16(b) == 0
  {
  }

  lemma ZeroLe32(b: seq<byte>)
    requires |b| == 4 && b[0] == b[1] == b[2] == b[3] == 0
    ensures FromLe32(b) == 0
  {
  }

  lemma ZeroEntryBytes()
    ensures DecodeEntry(Zeros(32)) == ZERO_ENTRY
  {
    hide FromLe16, FromLe32, Zeros;
    var z := Zeros(32);
    ZeroLe16(z[14..16]);
    ZeroLe16(z[16..18]);
    ZeroLe16(z[18..20]);
    ZeroLe16(z[22..24]);
    ZeroLe16(z[24..26]);
    ZeroLe32(z[26..28] + z[20..22]);
    ZeroLe32(z[28..32]);
    assert z[..8] == ZERO_ENTRY.name;
    assert z[8..11] == ZERO_ENTRY.ext;
  }

  lemma DecodeZeroCluster()
    ensures DecodeTable(ZERO_CLUSTER) == seq(SLOTS, i => ZERO_ENTRY)
  {
    hide DecodeEntry;
    ZeroEntryBytes();
    forall i | 0 <= i < SLOTS
      ensures DecodeTable(ZERO_CLUSTER)[i] == ZERO_ENTRY
    {
      assert EntryBytes(ZERO_CLUSTER, i) == Zeros(32);
    }
  }
}
