/** Whole runs of file system operations, from an empty volume on. */
module FatRuns {
  import opened Bytes
  import opened FatLayout
  import opened FatChains
  import opened Volume
  import opened VolumeEdits
  import opened FatOps
  import opened FatWrite
  import opened FatSim
  import opened FatDelete
  import opened FatRead
  import opened AbstractFs

  /** The disk, and the cluster map the driver holds in memory. */
  datatype Machine = Machine(disk: Disk, cached: Fat)

  datatype Op =
    | Write(p: ImageCluster, key: Key, data: seq<byte>)
    | Delete(p: ImageCluster, key: Key)
    | Read(p: ImageCluster, key: Key, bufferSize: nat)
    | ReadDirectory(p: ImageCluster, name: Name)

  datatype Reply = Code(code: int) | Got(reading: Reading)

  // ---- the concrete machine ----

  /** The operation stays within the disk and the map. */
  predicate Defined(s: Machine, op: Op) {
    match op
    case Write(p, key, data) =>
      |data| < 0x1_0000_0000
      && (WriteRefused(s.disk, p, key) || data == [] || FreeSlot(TableOf(s.disk, p), 0) < SLOTS)
    case Delete(p, key) => DeleteDefined(s.disk, p, key)
    case Read(_, _, _) => true
    case ReadDirectory(_, _) => true
  }

  function Step(s: Machine, o: Outcome): (Machine, Reply) {
    (Machine(Replay(s.disk, o.writes), o.fat), Code(o.code))
  }

  function Exec(s: Machine, op: Op): (Machine, Reply)
    requires Defined(s, op)
  {
    match op
    case Write(p, key, data) => Step(s, WriteOutcome(s.disk, p, key, data))
    case Delete(p, key) => Step(s, DeleteOutcome(s.disk, p, key))
    case Read(p, key, n) => (s, Got(ReadOutcome(s.disk, s.cached, p, key, n)))
    case ReadDirectory(p, name) => (s, Got(ReadDirectoryOutcome(s.disk, p, name)))
  }

  predicate AllDefined(s: Machine, ops: seq<Op>)
    decreases |ops|
  {
    ops != [] ==> Defined(s, ops[0]) && AllDefined(Exec(s, ops[0]).0, ops[1..])
  }

  function Run(s: Machine, ops: seq<Op>): (r: (Machine, seq<Reply>))
    requires AllDefined(s, ops)
    ensures |r.1| == |ops|
    decreases |ops|
  {
    if ops == [] then (s, [])
    else
      var (s', reply) := Exec(s, ops[0]);
      var (s'', replies) := Run(s', ops[1..]);
      (s'', [reply] + replies)
  }

  // ---- the abstract machine ----

  /** The operation names a live directory, and is one of those that do no harm. */
  predicate Allowed(a: Abstract, op: Op) {
    && op.p in a.tree
    && match op
       case Write(p, key, data) => |data| < 0x1_0000_0000 && WriteAllowed(a, p, key, data)
       case Delete(p, key) => DeleteAllowed(a.tree[p], p, key)
       case Read(_, _, _) => true
       case ReadDirectory(_, _) => true
  }

  function After(a: Abstract, op: Op): Abstract
    requires op.p in a.tree
  {
    match op
    case Write(p, key, data) => AbstractWrite(a, p, key, data).0
    case Delete(p, key) => AbstractDelete(a, p, key).0
    case Read(_, _, _) => a
    case ReadDirectory(_, _) => a
  }

  /** The replies a volume standing for `a` gives; `boot` is its boot cluster. */
  ghost predicate Answers(a: Abstract, boot: Cluster, op: Op, reply: Reply)
    requires op.p in a.tree
  {
    match op
    case Write(p, key, data) => reply == Code(AbstractWrite(a, p, key, data).1)
    case Delete(p, key) => reply == Code(AbstractDelete(a, p, key).1)
    case Read(p, key, n) => reply.Got? && ReadAnswer(a, p, boot, key, n, reply.reading)
    case ReadDirectory(p, name) => reply.Got? && ReadDirectoryAnswer(a, p, boot, name, reply.reading)
  }

  predicate AllAllowed(a: Abstract, ops: seq<Op>)
    decreases |ops|
  {
    ops != [] ==> Allowed(a, ops[0]) && AllAllowed(After(a, ops[0]), ops[1..])
  }

  function AfterAll(a: Abstract, ops: seq<Op>): Abstract
    requires AllAllowed(a, ops)
    decreases |ops|
  {
    if ops == [] then a else AfterAll(After(a, ops[0]), ops[1..])
  }

  ghost predicate AllAnswer(a: Abstract, boot: Cluster, ops: seq<Op>, replies: seq<Reply>)
    requires AllAllowed(a, ops) && |replies| == |ops|
    decreases |ops|
  {
    ops != [] ==>
      Answers(a, boot, ops[0], replies[0]) && AllAnswer(After(a, ops[0]), boot, ops[1..], replies[1..])
  }

  // ---- simulation ----

  /** A machine whose disk is well-formed and whose cached map is coherent, standing for `a`. */
  ghost predicate Stands(s: Machine, depth: Depths, a: Abstract) {
    Inv(s.disk, depth) && Coherent(s.cached, FatOf(s.disk)) && a == Abs(s.disk, depth)
    && (forall c :: c in depth ==> 2 <= c < CLUSTER_MAP_SIZE) && a.tree.Keys == depth.Keys
  }

  lemma StandsHere(d: Disk, m: Fat, depth: Depths)
    requires Inv(d, depth) && Coherent(m, FatOf(d))
    ensures Stands(Machine(d, m), depth, Abs(d, depth))
  {
    InvShape(d, depth);
    var f, tabs := FatOf(d), TablesOf(d, depth.Keys);
    forall c | c in depth
      ensures 2 <= c < CLUSTER_MAP_SIZE
    {
      DirRange(f, tabs, depth, c);
    }
    assert tabs.Keys == depth.Keys;
  }

  /** Writes that come after the cluster map was stored leave it there. */
  lemma MapStored(d: Disk, v: seq<ClusterWrite>, g: Fat, w: seq<ClusterWrite>)
    requires forall i :: 0 <= i < |w| ==> w[i].at != FAT_CLUSTER
    ensures FatOf(Replay(d, v + [ClusterWrite(FAT_CLUSTER, EncodeFat(g))] + w)) == g
  {
    var u := v + [ClusterWrite(FAT_CLUSTER, EncodeFat(g))];
    ReplayAppend(d, u, w);
    ReplayElsewhere(Replay(d, u), w, FAT_CLUSTER);
    assert u[..|v|] == v;
    DecodeEncodeFat(g);
  }

  lemma LinkPairsCoherent(f: Fat, ch: seq<nat>)
    requires InMap(ch) && StrictlyUp(ch) && forall i :: 0 <= i < |ch| ==> f[ch[i]] == EMPTY_ENTRY
    ensures Coherent(LinkPairs(f, ch), f)
  {
    LinkPairsAt(f, ch);
    forall i | 0 <= i < CLUSTER_MAP_SIZE && f[i] != EMPTY_ENTRY
      ensures LinkPairs(f, ch)[i] == f[i]
    {
      assert i !in DropLast(ch);
    }
  }

  lemma SameIsCoherent(f: Fat)
    ensures Coherent(f, f)
  {
  }

  lemma WriteFileCoherent(d: Disk, p: nat, key: Key, data: seq<byte>)
    requires p < IMAGE_CLUSTERS && p != FAT_CLUSTER && 0 < |data| < 0x1_0000_0000
    requires FreeSlot(TableOf(d, p), 0) < SLOTS
    ensures var o := WriteFileOutcome(d, p, key, data); Coherent(o.fat, FatOf(Replay(d, o.writes)))
  {
    var o := WriteFileOutcome(d, p, key, data);
    if o.code == 0 {
      WriteFileShape(d, p, key, data);
      var v := o.writes[..|o.writes| - 2];
      hide WriteFileOutcome, Coherent, Replay, EncodeFat, DecodeFat;
      MapStored(d, v, o.fat, [o.writes[|o.writes| - 1]]);
      SameIsCoherent(o.fat);
    } else {
      LinkPairsCoherent(FatOf(d), FreeList(FatOf(d)));
    }
  }

  /** A file is written in three parts: its data, the map, and the parent's table. */
  lemma WriteFileShape(d: Disk, p: nat, key: Key, data: seq<byte>)
    requires p < IMAGE_CLUSTERS && p != FAT_CLUSTER && 0 < |data| < 0x1_0000_0000
    requires FreeSlot(TableOf(d, p), 0) < SLOTS && WriteFileOutcome(d, p, key, data).code == 0
    ensures var o := WriteFileOutcome(d, p, key, data);
      var n := |o.writes|;
      && n >= 2 && o.writes[n - 1].at != FAT_CLUSTER
      && o.writes == o.writes[..n - 2] + [ClusterWrite(FAT_CLUSTER, EncodeFat(o.fat))] + [o.writes[n - 1]]
  {
    hide DataWrites, EncodeFat, EncodeTable, DecodeFat, DecodeTable, LinkChain, LinkPairs, FreeList;
  }

  lemma MkdirCoherent(d: Disk, p: nat, name: Name)
    requires p < IMAGE_CLUSTERS && p != FAT_CLUSTER && |FreeList(FatOf(d))| > 0
    ensures var o := MkdirOutcome(d, p, name); Coherent(o.fat, FatOf(Replay(d, o.writes)))
  {
    var o := MkdirOutcome(d, p, name);
    if o.code == 0 {
      var rest := o.writes[1..];
      assert o.writes == [] + [ClusterWrite(FAT_CLUSTER, EncodeFat(o.fat))] + rest;
      MapStored(d, [], o.fat, rest);
    }
  }

  /** Even when it runs out of clusters half-way, `write` leaves a coherent map in memory. */
  lemma WriteCoherent(d: Disk, p: nat, key: Key, data: seq<byte>)
    requires p < IMAGE_CLUSTERS && p != FAT_CLUSTER && |data| < 0x1_0000_0000
    requires WriteRefused(d, p, key) || data == [] || FreeSlot(TableOf(d, p), 0) < SLOTS
    ensures var o := WriteOutcome(d, p, key, data); Coherent(o.fat, FatOf(Replay(d, o.writes)))
  {
    if !WriteRefused(d, p, key) {
      if data == [] {
        MkdirCoherent(d, p, key.name);
      } else {
        WriteFileCoherent(d, p, key, data);
      }
    }
  }

  /** If the lookup finds a file, the file's first cluster is in use. */
  predicate FoundHeadInUse(d: Disk, p: nat, key: Key)
    requires p < IMAGE_CLUSTERS
  {
    var t := TableOf(d, p);
    var s := FindId(t, key, 0);
    s < SLOTS && t[s].filesize != 0 ==>
      3 <= t[s].cluster && (t[s].cluster < CLUSTER_MAP_SIZE ==> FatOf(d)[t[s].cluster] != EMPTY_ENTRY)
  }

  lemma DeleteCoherent(d: Disk, p: nat, key: Key)
    requires p < IMAGE_CLUSTERS && p != FAT_CLUSTER && DeleteDefined(d, p, key)
    requires FatOk(FatOf(d))
    requires FoundHeadInUse(d, p, key)
    ensures var o := DeleteOutcome(d, p, key); Coherent(o.fat, FatOf(Replay(d, o.writes)))
  {
    var o := DeleteOutcome(d, p, key);
    var t, f := TableOf(d, p), FatOf(d);
    var s := FindId(t, key, 0);
    if o.code == 0 {
      var e := t[s];
      if e.filesize == 0 {
        assert o.writes == [o.writes[0]] + [ClusterWrite(FAT_CLUSTER, EncodeFat(o.fat))] + [o.writes[2]];
        MapStored(d, [o.writes[0]], o.fat, [o.writes[2]]);
      } else {
        ChainWellFormed(f, e.cluster);
        ReplayElsewhere(d, o.writes, FAT_CLUSTER);
      }
    }
  }

  lemma WriteStep(s: Machine, depth: Depths, a: Abstract, op: Op) returns (depth': Depths)
    requires Stands(s, depth, a) && Allowed(a, op) && op.Write?
    ensures Defined(s, op)
    ensures Stands(Exec(s, op).0, depth', After(a, op)) && Answers(a, s.disk[0], op, Exec(s, op).1)
  {
    hide Inv, TreeOf, TablesOf, DecodeTable, DecodeFat, Coherent, Replay;
    var Write(p, key, data) := op;
    WriteSimulates(s.disk, depth, p, key, data);
    WriteCoherent(s.disk, p, key, data);
    var o := WriteOutcome(s.disk, p, key, data);
    depth' := DepthAfterWrite(s.disk, depth, p, key, data);
    StandsHere(Replay(s.disk, o.writes), o.fat, depth');
  }

  lemma FoundFileHasCluster(d: Disk, depth: Depths, p: nat, key: Key)
    requires Inv(d, depth) && p in depth && p < IMAGE_CLUSTERS && p in Abs(d, depth).tree
    requires DeleteAllowed(Abs(d, depth).tree[p], p, key)
    ensures FatOk(FatOf(d))
    ensures FoundHeadInUse(d, p, key)
  {
    hide TreeOf, TablesOf, DecodeTable, DecodeFat;
    LookupCases(d, depth, p, key);
    HeaderFacts(d, depth, p);
    var s := FindId(TableOf(d, p), key, 0);
    if 2 <= s < SLOTS {
      MemberFacts(d, depth, p, s);
    }
  }

  lemma DeleteStep(s: Machine, depth: Depths, a: Abstract, op: Op) returns (depth': Depths)
    requires Stands(s, depth, a) && Allowed(a, op) && op.Delete?
    ensures Defined(s, op)
    ensures Stands(Exec(s, op).0, depth', After(a, op)) && Answers(a, s.disk[0], op, Exec(s, op).1)
  {
    hide Inv, TreeOf, TablesOf, DecodeTable, DecodeFat, Coherent, Replay;
    var Delete(p, key) := op;
    DeleteSimulates(s.disk, depth, p, key);
    FoundFileHasCluster(s.disk, depth, p, key);
    DeleteCoherent(s.disk, p, key);
    var o := DeleteOutcome(s.disk, p, key);
    depth' := DepthAfterDelete(s.disk, depth, p, key);
    StandsHere(Replay(s.disk, o.writes), o.fat, depth');
  }

  // ---- the boot sector ----

  /** None of the writes goes to the boot cluster. */
  predicate OffBoot(w: seq<ClusterWrite>) {
    forall i :: 0 <= i < |w| ==> w[i].at != 0
  }

  lemma FileOffBoot(d: Disk, p: nat, key: Key, data: seq<byte>)
    requires 0 < p < IMAGE_CLUSTERS && 0 < |data| < 0x1_0000_0000 && FreeSlot(TableOf(d, p), 0) < SLOTS
    ensures OffBoot(WriteFileOutcome(d, p, key, data).writes)
  {
    hide EncodeFat, EncodeTable, DecodeFat, DecodeTable, LinkChain, LinkPairs;
  }

  lemma MkdirOffBoot(d: Disk, p: nat, name: Name)
    requires 0 < p < IMAGE_CLUSTERS && |FreeList(FatOf(d))| > 0
    ensures OffBoot(MkdirOutcome(d, p, name).writes)
  {
    hide EncodeFat, EncodeTable, DecodeFat, DecodeTable, NewDirTable;
  }

  lemma WriteKeepsBoot(s: Machine, depth: Depths, a: Abstract, op: Op)
    requires Stands(s, depth, a) && Allowed(a, op) && op.Write?
    ensures Defined(s, op)
    ensures Replay(s.disk, WriteOutcome(s.disk, op.p, op.key, op.data).writes)[0] == s.disk[0]
  {
    hide Inv, TreeOf, TablesOf, DecodeFat, DecodeTable, MkdirOutcome, WriteFileOutcome, Coherent, Replay, FreeList;
    WriteDefined(s.disk, depth, op.p, op.key, op.data);
    if !WriteRefused(s.disk, op.p, op.key) {
      if op.data == [] {
        MkdirOffBoot(s.disk, op.p, op.key.name);
      } else {
        FileOffBoot(s.disk, op.p, op.key, op.data);
      }
    }
    ReplayElsewhere(s.disk, WriteOutcome(s.disk, op.p, op.key, op.data).writes, 0);
  }

  lemma DeleteOffBoot(d: Disk, p: nat, key: Key)
    requires 0 < p < IMAGE_CLUSTERS && DeleteDefined(d, p, key)
    requires var s := FindId(TableOf(d, p), key, 0);
      s < SLOTS ==> 0 < TableOf(d, p)[s].cluster
    ensures OffBoot(DeleteOutcome(d, p, key).writes)
  {
    hide EncodeFat, EncodeTable, DecodeFat, DecodeTable;
  }

  lemma DeleteKeepsBoot(s: Machine, depth: Depths, a: Abstract, op: Op)
    requires Stands(s, depth, a) && Allowed(a, op) && op.Delete?
    ensures Defined(s, op)
    ensures Replay(s.disk, DeleteOutcome(s.disk, op.p, op.key).writes)[0] == s.disk[0]
  {
    hide Inv, TreeOf, TablesOf, DecodeFat, DecodeTable, DeleteOutcome, DeleteDefined, Coherent, Replay;
    var d, t := s.disk, TableOf(s.disk, op.p);
    DeleteIsDefined(d, depth, op.p, op.key);
    LookupCases(d, depth, op.p, op.key);
    HeaderFacts(d, depth, op.p);
    var i := FindId(t, op.key, 0);
    if 2 <= i < SLOTS {
      MemberFacts(d, depth, op.p, i);
    }
    DeleteOffBoot(d, op.p, op.key);
    ReplayElsewhere(d, DeleteOutcome(d, op.p, op.key).writes, 0);
  }

  /** One operation: the machine does what the tree does, and answers as the tree says. */
  lemma ExecSimulates(s: Machine, depth: Depths, a: Abstract, op: Op) returns (depth': Depths)
    requires Stands(s, depth, a) && Allowed(a, op)
    ensures Defined(s, op)
    ensures Stands(Exec(s, op).0, depth', After(a, op)) && Answers(a, s.disk[0], op, Exec(s, op).1)
    ensures Exec(s, op).0.disk[0] == s.disk[0]
  {
    hide Inv, TreeOf, TablesOf, DecodeTable, DecodeFat, Coherent, ReadAnswer, ReadDirectoryAnswer, Replay;
    match op {
      case Write(_, _, _) =>
        WriteKeepsBoot(s, depth, a, op);
        depth' := WriteStep(s, depth, a, op);
      case Delete(_, _) =>
        DeleteKeepsBoot(s, depth, a, op);
        depth' := DeleteStep(s, depth, a, op);
      case Read(p, key, n) =>
        depth' := depth;
        ReadAnswers(s.disk, depth, s.cached, p, key, n);
      case ReadDirectory(p, name) =>
        depth' := depth;
        ReadDirectoryAnswers(s.disk, depth, p, name);
    }
  }

  /**
   * Refinement over runs: every run of allowed operations is defined, ends in a well-formed
   * volume standing for the tree the abstract operations lead to, and answers as they say.
   */
  lemma {:induction false} RunSimulates(s: Machine, depth: Depths, a: Abstract, ops: seq<Op>) returns (depth': Depths)
    requires Stands(s, depth, a) && AllAllowed(a, ops)
    ensures AllDefined(s, ops)
    ensures Stands(Run(s, ops).0, depth', AfterAll(a, ops)) && AllAnswer(a, s.disk[0], ops, Run(s, ops).1)
    ensures Run(s, ops).0.disk[0] == s.disk[0]
    decreases |ops|
  {
    hide Stands, Answers, Defined, Exec, After;
    if ops == [] {
      depth' := depth;
    } else {
      var depth1 := ExecSimulates(s, depth, a, ops[0]);
      depth' := RunSimulates(Exec(s, ops[0]).0, depth1, After(a, ops[0]), ops[1..]);
      var r := Run(Exec(s, ops[0]).0, ops[1..]).1;
      assert ([Exec(s, ops[0]).1] + r)[1..] == r;
    }
  }
}
