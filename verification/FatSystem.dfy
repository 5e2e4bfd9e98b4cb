/** The driver on a well-formed volume: every call does to the tree what it should. */
module FatSystem {
  import opened Bytes
  import opened FatLayout
  import opened FatChains
  import opened Volume
  import opened FatOps
  import opened FatWrite
  import opened FatTables
  import opened FatDelete
  import opened FatRead
  import opened FatRuns
  import opened FatTheorems
  import opened FatExact
  import opened AbstractFs
  import opened BlockDevice
  import opened FatSteps
  import opened FatImage
  import opened FatDriver

  /** The driver's disk and cached map stand for `a`. */
  ghost predicate Mounted(drv: Driver, depth: Depths, a: Abstract)
    requires drv.Valid()
    reads drv, drv.device.image, drv.fatTable
  {
    Stands(Machine(drv.Disk(), drv.Cached()), depth, a)
  }

  lemma MountedFacts(s: Machine, depth: Depths, a: Abstract, p: nat)
    requires Stands(s, depth, a) && p in a.tree
    ensures p < IMAGE_CLUSTERS && p != FAT_CLUSTER
    ensures FatOf(s.disk)[1] != EMPTY_ENTRY && FatOf(s.disk)[2] != EMPTY_ENTRY
    ensures ParentInUse(s.disk, p)
  {
    hide DecodeFat, DecodeTable, TreeOf, Link, FatOk, HeaderOk, SlotsOk, UniqueIds, Held, Coherent;
    InvShape(s.disk, depth);
    assert DirOk(FatOf(s.disk), TablesOf(s.disk, depth.Keys), depth, p);
    MapNumbers(s.disk[1]);
    ReservedUsed(FatOf(s.disk));
  }

  lemma ReservedUsed(f: Fat)
    requires FatOk(f)
    ensures f[1] != EMPTY_ENTRY && f[2] != EMPTY_ENTRY
  {
  }

  /** Start-up on an unmarked storage creates an empty tree, whatever the storage held. */
  method MountNew(drv: Driver, name: Name)
    requires drv.Valid() && drv.Cached() == seq<uint32>(CLUSTER_MAP_SIZE, i => 0) && RootName(name)
    requires !Signed(drv.Disk())
    modifies drv.device.image, drv.fatTable, drv.dirTable, drv.clusterBuf, drv`log
    ensures Mounted(drv, ROOT_DEPTH, Abstract(EmptyTree(name), Range(3, CLUSTER_MAP_SIZE)))
    ensures Signed(drv.Disk())
    ensures BootWritten(old(drv.Disk())[0], drv.Disk()[0])
    ensures VolumeCreated(SignedDisk(old(drv.Disk())), drv.Disk(), name)
  {
    ghost var d := drv.Disk();
    BootOnDisk(d);
    CreatedOnDisk(SignedDisk(d), name);
    hide BootWritten, VolumeCreated;
    CreateStands(SignedDisk(d), name);
    CreateKeepsBoot(SignedDisk(d), name);
    hide Stands, CreateWrites, FirstMap, Signed, SignedDisk, Replay;
    drv.Initialize(name);
  }

  lemma CreateKeepsBoot(d: Disk, name: Name)
    ensures Replay(d, CreateWrites(name))[0] == d[0]
  {
    hide EncodeFat, EncodeTable, RootTable, FirstMap;
    ReplayElsewhere(d, CreateWrites(name), 0);
  }

  /** Start-up on a marked storage holding a volume finds the tree that was there. */
  method MountOld(drv: Driver, name: Name, ghost cached: Fat, ghost depth: Depths, ghost a: Abstract)
    requires drv.Valid() && drv.Cached() == seq<uint32>(CLUSTER_MAP_SIZE, i => 0)
    requires Signed(drv.Disk()) && Stands(Machine(drv.Disk(), cached), depth, a)
    modifies drv.device.image, drv.fatTable, drv.dirTable, drv.clusterBuf, drv`log
    ensures Mounted(drv, depth, a) && drv.Disk() == old(drv.Disk())
  {
    ghost var d := drv.Disk();
    Reload(d, cached, depth, a);
    hide Stands, Signed;
    drv.Initialize(name);
  }

  lemma Reload(d: Disk, cached: Fat, depth: Depths, a: Abstract)
    requires Stands(Machine(d, cached), depth, a)
    ensures Stands(Machine(d, FatOf(d)), depth, a)
  {
    SameIsCoherent(FatOf(d));
  }

  method Write(drv: Driver, buf: array<byte>, key: Key, parent: nat, size: uint32,
               ghost depth: Depths, ghost a: Abstract)
      returns (code: int, ghost depth': Depths)
    requires drv.Valid() && drv.Apart(buf) && size <= buf.Length && Mounted(drv, depth, a)
    requires parent in a.tree && WriteAllowed(a, parent, key, buf[..][..size])
    modifies drv.device.image, drv.fatTable, drv.dirTable, drv.clusterBuf, drv`log
    ensures (AbstractWrite(a, parent, key, buf[..][..size]).1 == code)
    ensures Mounted(drv, depth', AbstractWrite(a, parent, key, buf[..][..size]).0)
    ensures code == 0 ==> Stored(old(drv.Disk()), drv.Disk(), parent, key, buf[..][..size])
  {
    ghost var s := Machine(drv.Disk(), drv.Cached());
    MountedFacts(s, depth, a, parent);
    ghost var op := FatRuns.Write(parent, key, buf[..][..size]);
    depth' := WriteStep(s, depth, a, op);
    assert Defined(s, op) && Exec(s, op) == FatRuns.Step(s, WriteOutcome(s.disk, parent, key, op.data));
    hide Stored, ParentInUse, Stands, AbstractWrite, WriteAllowed, WriteOutcome, WriteRefused, DecodeFat, DecodeTable;
    hide Replay;
    code := drv.Write(buf, key, parent, size);
  }

  /**
   * Deletion, of any name: allowed ones do to the tree what the abstract delete does, and what is
   * left is a well-formed volume exactly under the condition of `DeleteKeepsIff`.
   */
  method Delete(drv: Driver, key: Key, parent: nat, ghost depth: Depths, ghost a: Abstract)
      returns (code: int, ghost depth': Depths)
    requires drv.Valid() && Mounted(drv, depth, a) && parent in a.tree
    modifies drv.device.image, drv.fatTable, drv.dirTable, drv.clusterBuf, drv`log
    ensures DeleteAllowed(a.tree[parent], parent, key) ==>
      AbstractDelete(a, parent, key).1 == code && Mounted(drv, depth', AbstractDelete(a, parent, key).0)
    ensures WellFormed(drv.Disk()) <==>
      DeleteAllowed(a.tree[parent], parent, key) || (key == BLANK_KEY && HasMembers(TableOf(old(drv.Disk()), 0)))
  {
    hide Stands, AbstractDelete, DeleteAllowed, DeleteOutcome, DeleteDefined, DecodeFat, DecodeTable, Replay;
    hide HasMembers;
    ghost var s := Machine(drv.Disk(), drv.Cached());
    MountedFacts(s, depth, a, parent);
    DeleteFacts(s, depth, a, parent, key);
    ghost var op := FatRuns.Delete(parent, key);
    depth' := depth;
    if DeleteAllowed(a.tree[parent], parent, key) {
      depth' := DeleteStep(s, depth, a, op);
      DeletedMachine(s, a, op);
    }
    code := drv.Delete(key, parent);
  }

  lemma DeleteFacts(s: Machine, depth: Depths, a: Abstract, p: nat, key: Key)
    requires Stands(s, depth, a) && p in a.tree
    ensures p < IMAGE_CLUSTERS && DeleteDefined(s.disk, p, key)
    ensures WellFormed(Replay(s.disk, DeleteOutcome(s.disk, p, key).writes))
       <==> DeleteAllowed(a.tree[p], p, key) || (key == BLANK_KEY && HasMembers(TableOf(s.disk, 0)))
  {
    hide Inv, Abs, Coherent, DecodeFat, DecodeTable, Replay, WellFormed;
    DeleteKeepsIff(s.disk, depth, p, key);
  }

  lemma DeletedMachine(s: Machine, a: Abstract, op: Op)
    requires op.Delete? && Defined(s, op) && op.p in a.tree && Answers(a, s.disk[0], op, Exec(s, op).1)
    ensures DeleteDefined(s.disk, op.p, op.key)
    ensures var o := DeleteOutcome(s.disk, op.p, op.key);
      Exec(s, op).0 == Machine(Replay(s.disk, o.writes), o.fat) && AbstractDelete(a, op.p, op.key).1 == o.code
  {
    hide DeleteOutcome, DeleteDefined, Replay, AbstractDelete;
  }

  /** Reading a file fills the buffer with its bytes and zeros, and touches nothing else. */
  method ReadFile(drv: Driver, buf: array<byte>, key: Key, parent: nat, size: uint32,
                  ghost depth: Depths, ghost a: Abstract)
      returns (code: int, complete: bool)
    requires drv.Valid() && drv.Apart(buf) && Mounted(drv, depth, a) && size > 0
    requires parent in a.tree && key in a.tree[parent].entries && a.tree[parent].entries[key].File?
    requires |a.tree[parent].entries[key].bytes| + CLUSTER_SIZE <= buf.Length
    modifies drv.dirTable, buf
    ensures Mounted(drv, depth, a) && code == 0
    ensures var b := a.tree[parent].entries[key].bytes;
      && |b + Padding(|b|)| <= buf.Length
      && buf[..] == Overwrite(old(buf[..]), 0, b + Padding(|b|)) && (complete <==> |b| % CLUSTER_SIZE != 0)
  {
    ghost var s := Machine(drv.Disk(), drv.Cached());
    ghost var b := a.tree[parent].entries[key].bytes;
    MountedFacts(s, depth, a, parent);
    ReadHeld(s, depth, a, parent, key, b, size);
    hide Stands, ReadOutcome, DecodeFat, DecodeTable, Overwrite;
    code, complete := drv.Read(buf, key, parent, size);
  }

  /** Reading a directory as "." delivers its own table. */
  method ReadOwnTable(drv: Driver, buf: array<byte>, parent: nat, ghost depth: Depths, ghost a: Abstract)
      returns (code: int)
    requires drv.Valid() && drv.Apart(buf) && Mounted(drv, depth, a) && parent in a.tree
    requires buf.Length >= CLUSTER_SIZE
    modifies drv.dirTable, buf
    ensures Mounted(drv, depth, a) && drv.Disk() == old(drv.Disk()) && code == 0
    ensures ListingBytes(buf[..CLUSTER_SIZE], a.tree[parent])
    ensures buf[..CLUSTER_SIZE] == drv.Disk()[parent]
  {
    ghost var s := Machine(drv.Disk(), drv.Cached());
    MountedFacts(s, depth, a, parent);
    OwnTable(s, depth, a, parent);
    hide Stands, ReadDirectoryOutcome, DecodeFat, DecodeTable, ListingBytes, Overwrite, ClustersOf;
    var complete;
    OverwriteFront(buf[..], s.disk[parent]);
    code, complete := drv.ReadDirectory(buf, DOT, parent);
    assert buf[..CLUSTER_SIZE] == buf[..][..CLUSTER_SIZE];
  }

  lemma OwnTable(s: Machine, depth: Depths, a: Abstract, parent: nat)
    requires Stands(s, depth, a) && parent in a.tree
    ensures parent < IMAGE_CLUSTERS
    ensures ReadDirectoryOutcome(s.disk, parent, DOT) == Reading(0, s.disk[parent], true)
    ensures ListingBytes(s.disk[parent], a.tree[parent])
  {
    hide Inv, TreeOf, TablesOf, DecodeFat, DecodeTable;
    HeaderFacts(s.disk, depth, parent);
    DirAsData(s.disk, depth, parent);
  }
}
