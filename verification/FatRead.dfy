/** `read` and `read_directory` on a well-formed volume, and the cached cluster map. */
module FatRead {
  import opened Bytes
  import opened FatLayout
  import opened FatChains
  import opened Volume
  import opened VolumeSteps
  import opened FatOps
  import opened FatTables
  import opened FatSim
  import opened FatDelete
  import opened AbstractFs

  /** The map held in memory agrees with the disk wherever the disk's entry is in use. */
  predicate Coherent(m: Fat, f: Fat) {
    forall i :: 0 <= i < CLUSTER_MAP_SIZE && f[i] != EMPTY_ENTRY ==> m[i] == f[i]
  }

  lemma CoherentChain(m: Fat, f: Fat, h: nat)
    requires FatOk(f) && Coherent(m, f) && 3 <= h < CLUSTER_MAP_SIZE && f[h] != EMPTY_ENTRY
    ensures Chain(m, h) == Chain(f, h) && m[Last(Chain(f, h))] == END_OF_FILE
  {
    ChainWellFormed(f, h);
    ChainFrame(f, m, h);
  }

  lemma WalkEnd(d: Disk, m: Fat, c: nat, n: nat)
    requires c < CLUSTER_MAP_SIZE && m[c] >= IMAGE_CLUSTERS
    ensures Walk(d, m, c, n) == if n == 0 then Reading(0, [], true) else Reading(0, d[c], n == 1)
  {
    if n > 0 {
      assert Walk(d, m, m[c], n - 1) == Reading(0, [], n == 1);
    }
  }

  lemma PartOf(c: nat, rest: seq<nat>, n: nat, part: seq<nat>)
    requires n > 0 && part == if n <= |rest| + 1 then ([c] + rest)[..n] else [c] + rest
    ensures part != [] && part[0] == c && part[1..] == if n - 1 <= |rest| then rest[..n - 1] else rest
  {
  }

  /** A walk fetches the clusters of a chain in order, and falls off its end. */
  lemma {:induction false} WalkChain(d: Disk, m: Fat, c: nat, n: nat)
    requires c < CLUSTER_MAP_SIZE && m[Last(Chain(m, c))] >= IMAGE_CLUSTERS
    ensures var ch := Chain(m, c);
      Walk(d, m, c, n) == Reading(0, Raw(d, if n <= |ch| then ch[..n] else ch), n <= |ch|)
    decreases n
  {
    hide Walk, Chain, Raw, Last;
    var ch := Chain(m, c);
    ChainNext(m, c);
    if !(c < m[c] < CLUSTER_MAP_SIZE) {
      assert ch[..0] == [] && ch[..1] == ch;
      RawOne(d, c);
      WalkEnd(d, m, c, n);
    } else if n > 0 {
      var rest := Chain(m, m[c]);
      var part := if n <= |ch| then ch[..n] else ch;
      WalkChain(d, m, m[c], n - 1);
      WalkNext(d, m, c, n);
      PartOf(c, rest, n, part);
      RawNext(d, part);
    } else {
      assert ch[..0] == [];
      RawOne(d, c);
      WalkNext(d, m, c, n);
    }
  }

  lemma ChainNext(m: Fat, c: nat)
    requires c < CLUSTER_MAP_SIZE
    ensures if c < m[c] < CLUSTER_MAP_SIZE then
              Chain(m, c) == [c] + Chain(m, m[c]) && Last(Chain(m, c)) == Last(Chain(m, m[c]))
            else Chain(m, c) == [c] && Last(Chain(m, c)) == c
  {
    hide Chain;
    ChainUnfold(m, c);
    if c < m[c] < CLUSTER_MAP_SIZE {
      LastOfTail(c, Chain(m, m[c]));
    }
  }

  lemma ChainUnfold(m: Fat, c: nat)
    requires c < CLUSTER_MAP_SIZE
    ensures Chain(m, c) == if c < m[c] < CLUSTER_MAP_SIZE then [c] + Chain(m, m[c]) else [c]
  {
  }

  lemma LastOfTail(c: nat, rest: seq<nat>)
    requires rest != []
    ensures Last([c] + rest) == Last(rest)
  {
  }

  lemma WalkNext(d: Disk, m: Fat, c: nat, n: nat)
    requires c < CLUSTER_MAP_SIZE
    ensures Walk(d, m, c, n) ==
      if n == 0 then Reading(0, [], true)
      else Reading(0, d[c] + Walk(d, m, m[c], n - 1).data, Walk(d, m, m[c], n - 1).complete)
  {
  }

  lemma RawOne(d: Disk, c: nat)
    requires c < CLUSTER_MAP_SIZE
    ensures Raw(d, [c]) == d[c] && Raw(d, []) == []
  {
    RawNext(d, [c]);
  }

  lemma RawNext(d: Disk, ch: seq<nat>)
    requires ch != [] && forall i :: 0 <= i < |ch| ==> ch[i] < CLUSTER_MAP_SIZE
    ensures Raw(d, ch) == d[ch[0]] + Raw(d, ch[1..])
  {
  }

  /** How many clusters `read` asks for, against how many the file has. */
  lemma CountAgainstSize(size: uint32)
    requires 0 < size <= CLUSTER_SIZE * CLUSTER_MAP_SIZE
    ensures ReadCount(size) == CeilDiv(size, CLUSTER_SIZE) + (if size % CLUSTER_SIZE == 0 then 1 else 0)
  {
    var q := CeilDiv(size, CLUSTER_SIZE);
    assert size <= q * 2048 < size + 2048;
    assert size == 2048 * (size / 2048) + size % 2048;
  }

  lemma {:induction false} ChainShort(ch: seq<nat>)
    requires InMap(ch) && StrictlyUp(ch)
    ensures |ch| <= CLUSTER_MAP_SIZE
    ensures |ch| > 0 ==> |ch| <= Last(ch)
    decreases |ch|
  {
    if |ch| > 1 {
      ChainShort(ch[..|ch| - 1]);
    }
  }

  /** The bytes of a file and the zeros that fill up its last cluster. */
  function Padding(n: nat): seq<byte> {
    Zeros(CeilDiv(n, CLUSTER_SIZE) * CLUSTER_SIZE - n)
  }

  /** What `read` stores for a file entry: its bytes and padding, complete unless they fill their clusters. */
  lemma ReadFileEntry(d: Disk, f: Fat, m: Fat, tabs: Tables, e: Entry)
    requires FatOk(f) && Coherent(m, f) && FileEntryOk(f, tabs, e) && Padded(d, f, e)
    ensures ItemOf(d, f, e).File? && |ItemOf(d, f, e).bytes| == e.filesize
    ensures Walk(d, m, e.cluster, ReadCount(e.filesize))
         == Reading(0, ItemOf(d, f, e).bytes + Padding(e.filesize), e.filesize % CLUSTER_SIZE != 0)
  {
    hide Walk, Chain, FatOk, Coherent, Raw, ReadCount;
    var ch := Chain(f, e.cluster);
    ChainWellFormed(f, e.cluster);
    CoherentChain(m, f, e.cluster);
    ChainShort(ch);
    CountAgainstSize(e.filesize);
    WalkChain(d, m, e.cluster, ReadCount(e.filesize));
    assert ch[..|ch|] == ch;
    var r := Raw(d, ch);
    assert r == r[..e.filesize] + r[e.filesize..];
    assert r[e.filesize..] == Padding(e.filesize);
  }

  /** `read` of a file: its bytes, then zeros to the cluster boundary. */
  lemma ReadsFile(d: Disk, depth: Depths, m: Fat, p: nat, key: Key, bufferSize: nat)
    requires Inv(d, depth) && Coherent(m, FatOf(d)) && p in depth && p < IMAGE_CLUSTERS
    requires p in Abs(d, depth).tree && key in Abs(d, depth).tree[p].entries
    requires Abs(d, depth).tree[p].entries[key].File? && bufferSize > 0
    requires !IsSelf(Abs(d, depth).tree[p], key) && key != DOT_DOT_KEY
    ensures var b := Abs(d, depth).tree[p].entries[key].bytes;
      |b| > 0
      && ReadOutcome(d, m, p, key, bufferSize) == Reading(0, b + Padding(|b|), |b| % CLUSTER_SIZE != 0)
  {
    hide TreeOf, DecodeTable, DecodeFat;
    LookupCases(d, depth, p, key);
    var s := FindId(TableOf(d, p), key, 0);
    MemberFacts(d, depth, p, s);
    var f, tabs := FatOf(d), TablesOf(d, depth.Keys);
    var e := TableOf(d, p)[s];
    MemberItem(d, depth, p, s);
    ReadFileEntry(d, f, m, tabs, e);
  }

  lemma MemberItem(d: Disk, depth: Depths, p: nat, s: nat)
    requires Inv(d, depth) && p in depth && p < IMAGE_CLUSTERS
    requires 2 <= s < SLOTS && TableOf(d, p)[s].Occupied()
    ensures p in Abs(d, depth).tree
    ensures var e := TableOf(d, p)[s];
      && e.Id() in Abs(d, depth).tree[p].entries
      && Abs(d, depth).tree[p].entries[e.Id()] == ItemOf(d, FatOf(d), e)
      && Padded(d, FatOf(d), e) && FatOk(FatOf(d))
  {
    var f, tabs := FatOf(d), TablesOf(d, depth.Keys);
    assert tabs[p] == TableOf(d, p);
    assert Live(tabs, p, s);
    ShapeTidy(f, tabs, depth, p);
    EntriesAt(d, f, tabs[p], s);
  }

  // ---- directories read as data ----

  /** Table `t` lists exactly the directory `dir`: header, names, kinds, sizes, cluster numbers. */
  predicate Listing(t: Table, dir: Directory) {
    && t[0].name == dir.name && ParentOf(t) == dir.parent && Ids(t) == dir.entries.Keys
    && forall s :: 2 <= s < SLOTS && t[s].Occupied() ==>
         match dir.entries[t[s].Id()]
         case SubDir(k) => t[s].attribute == ATTR_SUBDIRECTORY && t[s].cluster == k
         case File(b) => t[s].attribute == 0 && t[s].filesize == |b|
  }

  predicate ListingBytes(data: seq<byte>, dir: Directory) {
    |data| == CLUSTER_SIZE && Listing(DecodeTable(data), dir)
  }

  lemma TableLists(d: Disk, depth: Depths, k: nat)
    requires Inv(d, depth) && k in depth && k < IMAGE_CLUSTERS
    ensures k in Abs(d, depth).tree && Listing(TableOf(d, k), Abs(d, depth).tree[k])
  {
    hide Inv, TreeOf, DecodeTable, DecodeFat, Shape, Entries;
    InvShape(d, depth);
    var f, tabs, t := FatOf(d), TablesOf(d, depth.Keys), TableOf(d, k);
    ShapeTidy(f, tabs, depth, k);
    TreeHere(d, depth, k);
    var dir := DirOf(d, f, t);
    forall s | 2 <= s < SLOTS && t[s].Occupied()
      ensures t[s].Id() in dir.entries
      ensures match dir.entries[t[s].Id()]
              case SubDir(c) => t[s].attribute == ATTR_SUBDIRECTORY && t[s].cluster == c
              case File(b) => t[s].attribute == 0 && t[s].filesize == |b|
    {
      EntriesAt(d, f, t, s);
      SlotItem(d, f, tabs, depth, k, s);
    }
    EntryNames(d, f, t);
  }

  lemma TreeHere(d: Disk, depth: Depths, k: nat)
    requires k in depth && k < IMAGE_CLUSTERS
    ensures k in Abs(d, depth).tree && Abs(d, depth).tree[k] == DirOf(d, FatOf(d), TableOf(d, k))
    ensures k in TablesOf(d, depth.Keys) && TablesOf(d, depth.Keys)[k] == TableOf(d, k)
  {
    hide DirOf, DecodeTable, DecodeFat;
  }

  /** The item of an occupied slot has its kind and size. */
  lemma SlotItem(d: Disk, f: Fat, tabs: Tables, depth: Depths, k: nat, s: nat)
    requires Shape(f, tabs, depth) && Live(tabs, k, s)
    ensures match ItemOf(d, f, tabs[k][s])
            case SubDir(c) => tabs[k][s].attribute == ATTR_SUBDIRECTORY && tabs[k][s].cluster == c
            case File(b) => tabs[k][s].attribute == 0 && tabs[k][s].filesize == |b|
  {
    hide Shape, Raw, Chain;
    LiveFile(f, tabs, depth, k, s);
  }

  lemma EntryNames(d: Disk, f: Fat, t: Table)
    requires Tidy(t)
    ensures Entries(d, f, t).Keys == Ids(t)
  {
    hide ItemOf, FindId, Tidy;
    forall s | 2 <= s < SLOTS && t[s].Occupied()
      ensures t[s].Id() in Entries(d, f, t)
    {
      EntriesAt(d, f, t, s);
    }
  }

  /**
   * `read` of a directory succeeds and delivers its table: the code tells files from
   * directories by attribute 1, which no entry has.
   */
  lemma ReadsDirectoryEntry(d: Disk, depth: Depths, m: Fat, p: nat, key: Key, bufferSize: nat, k: nat)
    requires Inv(d, depth) && p in depth && p < IMAGE_CLUSTERS && bufferSize > 0
    requires var s := FindId(TableOf(d, p), key, 0);
      s < SLOTS && TableOf(d, p)[s].attribute == ATTR_SUBDIRECTORY && TableOf(d, p)[s].cluster == k
      && TableOf(d, p)[s].filesize == 0
    requires k in depth && k < CLUSTER_MAP_SIZE
    ensures k in Abs(d, depth).tree
    ensures ReadOutcome(d, m, p, key, bufferSize) == Reading(0, d[k], true)
    ensures ListingBytes(d[k], Abs(d, depth).tree[k])
  {
    TableLists(d, depth, k);
    OneCluster(d, m, k);
  }

  lemma OneCluster(d: Disk, m: Fat, k: nat)
    requires k < CLUSTER_MAP_SIZE
    ensures Walk(d, m, k, ReadCount(0)) == Reading(0, d[k], true)
  {
    assert Walk(d, m, m[k], 0) == Reading(0, [], true);
    assert d[k] + [] == d[k];
  }

  // ---- what a reading request may answer ----

  /** The directory a lookup of `key` in `p` reaches, if it reaches one. */
  function DirReached(a: Abstract, p: nat, key: Key): set<nat>
    requires p in a.tree
  {
    var dir := a.tree[p];
    if IsSelf(dir, key) then {p}
    else if key == DOT_DOT_KEY then {dir.parent}
    else if key in dir.entries && dir.entries[key].SubDir? then {dir.entries[key].id}
    else {}
  }

  /**
   * The answer of `read` on a volume standing for `a` with boot cluster `boot`: a blank name that
   * finds an unused slot is answered with the cluster an all-zero entry names, the boot cluster.
   */
  ghost predicate ReadAnswer(a: Abstract, p: nat, boot: Cluster, key: Key, bufferSize: nat, r: Reading)
    requires p in a.tree
  {
    var dir := a.tree[p];
    if !Taken(dir, key) then r == Reading(2, [], true)
    else if bufferSize == 0 then r == Reading(1, [], true)
    else if DirReached(a, p, key) != {} then
      r.code == 0 && r.complete
      && forall k :: k in DirReached(a, p, key) ==> k in a.tree && ListingBytes(r.data, a.tree[k])
    else if key in dir.entries && dir.entries[key].File? then
      var b := dir.entries[key].bytes;
      r == Reading(0, b + Padding(|b|), |b| % CLUSTER_SIZE != 0)
    else r == Reading(0, boot, true)
  }

  lemma ReadAnswers(d: Disk, depth: Depths, m: Fat, p: nat, key: Key, bufferSize: nat)
    requires Inv(d, depth) && Coherent(m, FatOf(d)) && p in depth && p < IMAGE_CLUSTERS
    ensures p in Abs(d, depth).tree
    ensures ReadAnswer(Abs(d, depth), p, d[0], key, bufferSize, ReadOutcome(d, m, p, key, bufferSize))
  {
    hide Inv, TreeOf, TablesOf, DecodeTable, DecodeFat, Coherent, ListingBytes, FindId, FileEntryOk, Chain, Walk;
    LookupCases(d, depth, p, key);
    LookupAgrees(d, depth, p, key);
    HeaderFacts(d, depth, p);
    HeaderAttributes(d, depth, p);
    var s := FindId(TableOf(d, p), key, 0);
    if s < SLOTS && bufferSize > 0 {
      var e := TableOf(d, p)[s];
      if s < 2 {
        ReadsDirectoryEntry(d, depth, m, p, key, bufferSize, e.cluster);
      } else if e.Occupied() {
        MemberFacts(d, depth, p, s);
        if e.filesize == 0 {
          ReadsDirectoryEntry(d, depth, m, p, key, bufferSize, e.cluster);
        } else {
          ReadsFile(d, depth, m, p, key, bufferSize);
        }
      } else {
        BlankSlot(d, depth, p, s);
        OneCluster(d, m, 0);
      }
    } else if s < SLOTS {
      assert ReadOutcome(d, m, p, key, bufferSize) == Reading(1, [], true);
    }
  }

  lemma HeaderAttributes(d: Disk, depth: Depths, p: nat)
    requires Inv(d, depth) && p in depth && p < IMAGE_CLUSTERS
    ensures TableOf(d, p)[0].attribute == ATTR_SUBDIRECTORY && TableOf(d, p)[1].attribute == ATTR_SUBDIRECTORY
    ensures TableOf(d, p)[1].name == DOT_DOT
  {
    InvShape(d, depth);
    assert DirOk(FatOf(d), TablesOf(d, depth.Keys), depth, p);
  }

  /** Some member of the directory has this name, under any extension. */
  predicate HasName(dir: Directory, name: Name) {
    exists k :: k in dir.entries && k.name == name
  }

  /** What the first cluster of a member holds: the listing of a directory, the beginning of a file. */
  predicate FirstCluster(a: Abstract, item: Item, data: seq<byte>) {
    match item
    case SubDir(c) => c in a.tree && ListingBytes(data, a.tree[c])
    case File(b) => |data| == CLUSTER_SIZE && data <= b + Padding(|b|)
  }

  /** Some member of `dir` with this name has its first cluster delivered. */
  ghost predicate Delivered(a: Abstract, dir: Directory, name: Name, data: seq<byte>) {
    exists k :: k in dir.entries && k.name == name && FirstCluster(a, dir.entries[k], data)
  }

  /**
   * The answers of `read_directory`, which goes by the name alone: the first cluster of a member
   * with the name, directory or file. A blank name also finds an unused slot, and gets the boot
   * cluster. Which of several it is depends on the order of the slots.
   */
  ghost predicate ReadDirectoryAnswer(a: Abstract, p: nat, boot: Cluster, name: Name, r: Reading)
    requires p in a.tree
  {
    var dir := a.tree[p];
    var unused := name == BLANK_KEY.name && |dir.entries| < MEMBERS_MAX;
    if name == DOT then r.code == 0 && r.complete && ListingBytes(r.data, dir)
    else if name == DOT_DOT then
      r.code == 0 && r.complete && dir.parent in a.tree && ListingBytes(r.data, a.tree[dir.parent])
    else if HasName(dir, name) || unused then
      r.code == 0 && r.complete && (Delivered(a, dir, name, r.data) || (unused && r.data == boot))
    else r == Reading(2, [], true)
  }

  /** What the search by name finds: "..", a member with the name, an unused slot, or nothing. */
  lemma NameCases(d: Disk, depth: Depths, p: nat, name: Name)
    requires Inv(d, depth) && p in depth && p < IMAGE_CLUSTERS
    ensures p in Abs(d, depth).tree
    ensures var t, s, dir := TableOf(d, p), FindName(TableOf(d, p), name, 1), Abs(d, depth).tree[p];
      && (s == 1 <==> name == DOT_DOT)
      && (2 <= s < SLOTS && t[s].Occupied() ==> t[s].Id() in dir.entries && t[s].Id().name == name)
      && (2 <= s < SLOTS && !t[s].Occupied() ==> name == BLANK_KEY.name && |dir.entries| < MEMBERS_MAX)
      && (s == SLOTS ==> !HasName(dir, name) && (name == BLANK_KEY.name ==> |dir.entries| >= MEMBERS_MAX))
  {
    hide Inv, TreeOf, DecodeTable, DecodeFat, Entries;
    InvShape(d, depth);
    var f, tabs, t := FatOf(d), TablesOf(d, depth.Keys), TableOf(d, p);
    ShapeTidy(f, tabs, depth, p);
    HeaderAttributes(d, depth, p);
    TreeAt(d, depth, p);
    hide Shape;
    NamesInTable(d, f, t, name);
  }

  lemma TreeAt(d: Disk, depth: Depths, p: nat)
    requires p in depth && p < IMAGE_CLUSTERS
    ensures p in Abs(d, depth).tree && Abs(d, depth).tree[p].entries == Entries(d, FatOf(d), TableOf(d, p))
  {
    hide DecodeTable, DecodeFat, Entries;
  }

  lemma NamesInTable(d: Disk, f: Fat, t: Table, name: Name)
    requires Tidy(t) && t[1].name == DOT_DOT
    ensures var s, entries := FindName(t, name, 1), Entries(d, f, t);
      && (s == 1 <==> name == DOT_DOT)
      && (2 <= s < SLOTS && t[s].Occupied() ==> t[s].Id() in entries && t[s].Id().name == name)
      && (2 <= s < SLOTS && !t[s].Occupied() ==> name == BLANK_KEY.name && |entries| < MEMBERS_MAX)
      && (s == SLOTS ==> (forall k :: k in entries ==> k.name != name)
                         && (name == BLANK_KEY.name ==> |entries| >= MEMBERS_MAX))
  {
    hide Entries, FindName;
    var s := FindName(t, name, 1);
    FindNameFacts(t, name);
    EntriesCount(d, f, t);
    if 2 <= s < SLOTS && t[s].Occupied() {
      EntriesAt(d, f, t, s);
    }
    if s == SLOTS {
      forall k | k in Entries(d, f, t)
        ensures k.name != name
      {
        var i := EntryHasSlot(d, f, t, k);
      }
    }
  }

  lemma FindNameFacts(t: Table, name: Name)
    ensures var s := FindName(t, name, 1);
      && 1 <= s && (t[1].name == name <==> s == 1) && (s < SLOTS ==> t[s].name == name)
      && forall i :: 1 <= i < s && i < SLOTS ==> t[i].name != name
  {
  }

  lemma MemberOnDisk(d: Disk, depth: Depths, p: nat, s: nat)
    requires Inv(d, depth) && p in depth && p < IMAGE_CLUSTERS && s < SLOTS
    ensures TableOf(d, p)[s].cluster < CLUSTER_MAP_SIZE
  {
    hide Inv, TreeOf, TablesOf, DecodeTable, DecodeFat;
    HeaderFacts(d, depth, p);
    if s >= 2 {
      if TableOf(d, p)[s].Occupied() {
        MemberFacts(d, depth, p, s);
      } else {
        BlankSlot(d, depth, p, s);
      }
    }
  }

  lemma ReadDirectoryAnswers(d: Disk, depth: Depths, p: nat, name: Name)
    requires Inv(d, depth) && p in depth && p < IMAGE_CLUSTERS
    ensures p in Abs(d, depth).tree
    ensures ReadDirectoryAnswer(Abs(d, depth), p, d[0], name, ReadDirectoryOutcome(d, p, name))
  {
    hide Inv, TreeOf, TablesOf, DecodeTable, DecodeFat, ListingBytes, FindName, HasName, Delivered;
    HeaderFacts(d, depth, p);
    NameCases(d, depth, p, name);
    var t := TableOf(d, p);
    var s := if name == DOT then 0 else FindName(t, name, 1);
    if s < SLOTS {
      MemberOnDisk(d, depth, p, s);
    }
    if name == DOT {
      DirAsData(d, depth, p);
    } else if s == 1 {
      DirAsData(d, depth, t[1].cluster);
    } else if s < SLOTS && t[s].Occupied() {
      MemberDelivered(d, depth, p, s);
    } else if s < SLOTS {
      BlankSlot(d, depth, p, s);
    }
  }

  /** The first cluster of a member is what the tree says. */
  lemma MemberDelivered(d: Disk, depth: Depths, p: nat, s: nat)
    requires Inv(d, depth) && p in depth && p < IMAGE_CLUSTERS
    requires 2 <= s < SLOTS && TableOf(d, p)[s].Occupied()
    ensures var e, a := TableOf(d, p)[s], Abs(d, depth);
      && p in a.tree && e.cluster < IMAGE_CLUSTERS && HasName(a.tree[p], e.name)
      && Delivered(a, a.tree[p], e.name, d[e.cluster])
  {
    hide Inv, TreeOf, TablesOf, DecodeTable, DecodeFat, ListingBytes, ItemOf;
    var e, a := TableOf(d, p)[s], Abs(d, depth);
    MemberFacts(d, depth, p, s);
    if e.filesize == 0 {
      DirAsData(d, depth, e.cluster);
    } else {
      MemberItem(d, depth, p, s);
      FileBegins(d, FatOf(d), TablesOf(d, depth.Keys), e);
    }
    assert FirstCluster(a, a.tree[p].entries[e.Id()], d[e.cluster]);
  }

  lemma FileBegins(d: Disk, f: Fat, tabs: Tables, e: Entry)
    requires FatOk(f) && FileEntryOk(f, tabs, e) && Padded(d, f, e) && e.cluster < CLUSTER_MAP_SIZE
    ensures ItemOf(d, f, e).File?
    ensures var b := ItemOf(d, f, e).bytes; d[e.cluster] <= b + Padding(|b|)
  {
    hide ItemOf, FatOk, Padded, Chain;
    ReadFileEntry(d, f, f, tabs, e);
    assert ReadCount(e.filesize) > 0 by {
      CountAtLeastOne(f, tabs, e);
    }
  }

  lemma CountAtLeastOne(f: Fat, tabs: Tables, e: Entry)
    requires FatOk(f) && FileEntryOk(f, tabs, e)
    ensures ReadCount(e.filesize) > 0
  {
    ChainWellFormed(f, e.cluster);
    ChainShort(Chain(f, e.cluster));
    CountAgainstSize(e.filesize);
  }

  lemma DirAsData(d: Disk, depth: Depths, k: nat)
    requires Inv(d, depth) && k in depth && k < IMAGE_CLUSTERS
    ensures k in Abs(d, depth).tree && ListingBytes(d[k], Abs(d, depth).tree[k])
  {
    TableLists(d, depth, k);
  }
}
