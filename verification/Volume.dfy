/**
 * When a disk holds a well-formed volume, and the directory tree it stands for.
 *
 * Live directories are given by a map from directory cluster to depth below the root; the
 * depth is what makes walks along ".." end.
 */
module Volume {
  import opened Bytes
  import opened FatLayout
  import opened FatChains

  type Tables = map<nat, Table>
  type Depths = map<nat, nat>

  // ---- the abstract tree ----

  datatype Item = File(bytes: seq<byte>) | SubDir(id: nat)

  /** A directory: its own name, its parent, and its members by name and extension. */
  datatype Directory = Directory(name: Name, parent: nat, entries: map<Key, Item>)

  /** Directories by cluster number, and the clusters free for allocation. */
  datatype Abstract = Abstract(tree: map<nat, Directory>, free: set<nat>)

  // ---- structure ----

  function FatOf(d: Disk): Fat {
    DecodeFat(d[FAT_CLUSTER])
  }

  function TableOf(d: Disk, c: nat): Table
    requires c < IMAGE_CLUSTERS
  {
    DecodeTable(d[c])
  }

  function TablesOf(d: Disk, dirs: set<nat>): Tables {
    map c | c in dirs && c < IMAGE_CLUSTERS :: TableOf(d, c)
  }

  /** Slot `s` of directory `c` holds a member. */
  predicate Live(tabs: Tables, c: nat, s: nat) {
    c in tabs && 2 <= s < SLOTS && tabs[c][s].Occupied()
  }

  function ParentOf(t: Table): nat {
    t[1].cluster
  }

  predicate DirClusterOk(f: Fat, c: nat) {
    2 <= c < CLUSTER_MAP_SIZE && f[c] == END_OF_FILE && NoPredecessor(f, c)
  }

  /** Slot 0 describes the directory itself and slot 1 its parent. */
  predicate HeaderOk(tabs: Tables, depth: Depths, c: nat)
    requires c in tabs
  {
    var t := tabs[c];
    && t[0].Occupied() && t[0].attribute == ATTR_SUBDIRECTORY && t[0].filesize == 0
    && t[0].cluster == c && t[0].ext == NO_EXT && t[0].Id() != BLANK_KEY
    && t[1].Occupied() && t[1].attribute == ATTR_SUBDIRECTORY && t[1].filesize == 0
    && t[1].Id() == DOT_DOT_KEY
    && ParentOf(t) in tabs && c in depth && ParentOf(t) in depth
    && (if c == ROOT_CLUSTER then ParentOf(t) == ROOT_CLUSTER && depth[c] == 0
        else depth[c] == depth[ParentOf(t)] + 1)
  }

  predicate FileEntryOk(f: Fat, tabs: Tables, e: Entry) {
    && e.attribute == 0 && e.filesize > 0
    && 3 <= e.cluster < CLUSTER_MAP_SIZE && e.cluster !in tabs
    && f[e.cluster] != EMPTY_ENTRY && NoPredecessor(f, e.cluster)
    && |Chain(f, e.cluster)| == CeilDiv(e.filesize, CLUSTER_SIZE)
  }

  predicate DirEntryOk(tabs: Tables, c: nat, e: Entry) {
    && e.attribute == ATTR_SUBDIRECTORY && e.filesize == 0 && e.ext == NO_EXT
    && e.cluster in tabs && e.cluster != ROOT_CLUSTER
    && ParentOf(tabs[e.cluster]) == c && tabs[e.cluster][0].name == e.name
  }

  /** A slot from 2 on is all zero, or names a subdirectory or a file with its own chain. */
  predicate SlotOk(f: Fat, tabs: Tables, c: nat, e: Entry) {
    || e == ZERO_ENTRY
    || (e.Occupied() && e.Id() != BLANK_KEY && (DirEntryOk(tabs, c, e) || FileEntryOk(f, tabs, e)))
  }

  predicate SlotsOk(f: Fat, tabs: Tables, c: nat)
    requires c in tabs
  {
    forall s {:trigger SlotOk(f, tabs, c, tabs[c][s])} :: 2 <= s < SLOTS ==> SlotOk(f, tabs, c, tabs[c][s])
  }

  /** No two occupied slots of a table carry the same name and extension. */
  predicate UniqueIds(t: Table) {
    forall i, j :: 0 <= i < j < SLOTS && t[i].Occupied() && t[j].Occupied() ==> t[i].Id() != t[j].Id()
  }

  /** No two members anywhere share a first cluster. */
  ghost predicate HeadsUnique(tabs: Tables) {
    forall c: nat, s: nat, c': nat, s': nat ::
      (Live(tabs, c, s) && Live(tabs, c', s') && tabs[c][s].cluster == tabs[c'][s'].cluster)
      ==> c == c' && s == s'
  }

  /** Directory `k` is a member of the directory its slot 1 names. */
  ghost predicate Held(tabs: Tables, k: nat)
    requires k in tabs
  {
    var p := ParentOf(tabs[k]);
    exists s: nat :: Live(tabs, p, s) && tabs[p][s].cluster == k
  }

  ghost predicate DirOk(f: Fat, tabs: Tables, depth: Depths, c: nat)
    requires c in tabs
  {
    && DirClusterOk(f, c)
    && HeaderOk(tabs, depth, c)
    && SlotsOk(f, tabs, c)
    && UniqueIds(tabs[c])
    && (c != ROOT_CLUSTER ==> Held(tabs, c))
  }

  ghost predicate Shape(f: Fat, tabs: Tables, depth: Depths) {
    && FatOk(f)
    && tabs.Keys == depth.Keys && ROOT_CLUSTER in tabs
    && (forall c {:trigger DirOk(f, tabs, depth, c)} :: c in tabs ==> DirOk(f, tabs, depth, c))
    && HeadsUnique(tabs)
  }

  // ---- contents ----

  /** The bytes of the clusters of `ch`, in order. */
  function Raw(d: Disk, ch: seq<nat>): (r: seq<byte>)
    requires forall i :: 0 <= i < |ch| ==> ch[i] < CLUSTER_MAP_SIZE
    ensures |r| == CLUSTER_SIZE * |ch|
  {
    if ch == [] then [] else d[ch[0]] + Raw(d, ch[1..])
  }

  function Take(s: seq<byte>, n: nat): seq<byte> {
    if n <= |s| then s[..n] else s
  }

  function ItemOf(d: Disk, f: Fat, e: Entry): Item {
    if e.attribute == ATTR_SUBDIRECTORY then SubDir(e.cluster)
    else if e.cluster < CLUSTER_MAP_SIZE then File(Take(Raw(d, Chain(f, e.cluster)), e.filesize))
    else File([])
  }

  predicate AllZero(s: seq<byte>) {
    forall i :: 0 <= i < |s| ==> s[i] == 0
  }

  /** Past the end of the file its last cluster is zero. */
  predicate Padded(d: Disk, f: Fat, e: Entry) {
    e.attribute == 0 && e.cluster < CLUSTER_MAP_SIZE ==>
      var r := Raw(d, Chain(f, e.cluster));
      e.filesize <= |r| && AllZero(r[e.filesize..])
  }

  /** The first slot from `from` on whose name and extension are `k`; SLOTS if there is none. */
  function FindId(t: Table, k: Key, from: nat): (s: nat)
    requires from <= SLOTS
    ensures from <= s <= SLOTS
    ensures s < SLOTS ==> t[s].Id() == k
    ensures forall i :: from <= i < s ==> t[i].Id() != k
    decreases SLOTS - from
  {
    if from == SLOTS || t[from].Id() == k then from else FindId(t, k, from + 1)
  }

  function Ids(t: Table): set<Key> {
    set s | 2 <= s < SLOTS && t[s].Occupied() :: t[s].Id()
  }

  /** The members of a directory: what the first slot carrying each name stands for. */
  function Entries(d: Disk, f: Fat, t: Table): map<Key, Item> {
    map k | k in Ids(t) && FindId(t, k, 2) < SLOTS :: ItemOf(d, f, t[FindId(t, k, 2)])
  }

  function DirOf(d: Disk, f: Fat, t: Table): Directory {
    Directory(t[0].name, ParentOf(t), Entries(d, f, t))
  }

  function TreeOf(d: Disk, f: Fat, tabs: Tables): map<nat, Directory> {
    map c | c in tabs :: DirOf(d, f, tabs[c])
  }

  ghost predicate AllPadded(d: Disk, f: Fat, tabs: Tables) {
    forall c: nat, s: nat :: Live(tabs, c, s) ==> Padded(d, f, tabs[c][s])
  }

  /** The disk holds a well-formed volume whose live directories are the keys of `depth`. */
  ghost predicate Inv(d: Disk, depth: Depths) {
    var tabs := TablesOf(d, depth.Keys);
    Shape(FatOf(d), tabs, depth) && AllPadded(d, FatOf(d), tabs)
  }

  lemma InvShape(d: Disk, depth: Depths)
    requires Inv(d, depth)
    ensures Shape(FatOf(d), TablesOf(d, depth.Keys), depth)
    ensures forall c :: c in depth && c < IMAGE_CLUSTERS ==> TablesOf(d, depth.Keys)[c] == TableOf(d, c)
  {
  }

  /** What a well-formed disk stands for. */
  function Abs(d: Disk, depth: Depths): Abstract {
    Abstract(TreeOf(d, FatOf(d), TablesOf(d, depth.Keys)), FreeSet(FatOf(d)))
  }

  // ---- lookups in a table without duplicates ----

  lemma FindUnique(t: Table, s: nat, from: nat)
    requires UniqueIds(t) && from <= s < SLOTS && t[s].Occupied() && t[s].Id() != BLANK_KEY
    requires forall i :: 0 <= i < SLOTS ==> t[i] == ZERO_ENTRY || t[i].Occupied()
    ensures FindId(t, t[s].Id(), from) == s
  {
    var r := FindId(t, t[s].Id(), from);
    assert r <= s;
    assert t[r] != ZERO_ENTRY;
  }

  lemma TableFull(f: Fat, tabs: Tables, depth: Depths, c: nat)
    requires c in tabs && HeaderOk(tabs, depth, c) && SlotsOk(f, tabs, c)
    ensures forall i :: 0 <= i < SLOTS ==> tabs[c][i] == ZERO_ENTRY || tabs[c][i].Occupied()
    ensures forall i :: 0 <= i < SLOTS && tabs[c][i].Occupied() ==> tabs[c][i].Id() != BLANK_KEY
  {
    forall i | 0 <= i < SLOTS
      ensures tabs[c][i] == ZERO_ENTRY || tabs[c][i].Occupied()
      ensures tabs[c][i].Occupied() ==> tabs[c][i].Id() != BLANK_KEY
    {
      if i >= 2 {
        assert SlotOk(f, tabs, c, tabs[c][i]);
      }
    }
  }
}
