/**
 * The FAT driver: its three in-memory buffers, the loops over slots, map entries and chains,
 * and each operation proved to do what its outcome function says.
 */
module FatDriver {
  import opened Bytes
  import opened FatLayout
  import opened FatChains
  import opened Volume
  import opened FatOps
  import opened BlockDevice
  import opened FatSteps
  import opened FatImage
  import opened FatAnswers

  class Driver {
    const device: Device
    const fatTable: array<uint32>
    const dirTable: array<Entry>
    const clusterBuf: array<byte>
    /** Every cluster written so far, in order. */
    ghost var log: seq<ClusterWrite>

    ghost predicate Valid() {
      && device.Valid()
      && fatTable.Length == CLUSTER_MAP_SIZE && dirTable.Length == SLOTS && clusterBuf.Length == CLUSTER_SIZE
      && clusterBuf != device.image
      && fatTable as object != clusterBuf && fatTable as object != device.image
      && dirTable as object != clusterBuf && dirTable as object != device.image
      && dirTable as object != fatTable
    }

    /** The buffers and the image are not `a`. */
    ghost predicate Apart(a: array<byte>) {
      && a != clusterBuf && a != device.image
      && a as object != fatTable && a as object != dirTable && a as object != this
    }

    ghost function Disk(): Disk
      requires Valid()
      reads device.image
    {
      device.Disk()
    }

    ghost function Cached(): Fat
      requires Valid()
      reads fatTable
    {
      fatTable[..]
    }

    /** A driver over a disk image, its static buffers zeroed. */
    constructor (device: Device)
      requires device.Valid()
      ensures Valid() && this.device == device && log == []
      ensures fresh(fatTable) && fresh(dirTable) && fresh(clusterBuf)
      ensures fatTable[..] == seq<uint32>(CLUSTER_MAP_SIZE, i => 0)
      ensures dirTable[..] == seq<Entry>(SLOTS, i => ZERO_ENTRY)
    {
      this.device := device;
      fatTable := new uint32[CLUSTER_MAP_SIZE](i => 0);
      dirTable := new Entry[SLOTS](i => ZERO_ENTRY);
      clusterBuf := new byte[CLUSTER_SIZE](i => 0);
      log := [];
    }

    // ---- clusters ----

    method ReadCluster(ptr: array<byte>, at: nat, cluster: nat)
      requires Valid() && ptr != device.image && at + CLUSTER_SIZE <= ptr.Length && cluster < IMAGE_CLUSTERS
      modifies ptr
      ensures ptr[..] == Overwrite(old(ptr[..]), at, Disk()[cluster])
      ensures forall k :: 0 <= k < ptr.Length ==>
        ptr[k] == if at <= k < at + 2048 then device.image[2048 * cluster + k - at] else old(ptr[k])
    {
      ClusterBytes(ptr[..], at, device.image[..], 2048 * cluster);
      hide Overwrite, ClustersOf;
      ClusterBlocks(device.image[..], cluster);
      device.ReadBlocks(ptr, at, ClusterToLba(cluster), CLUSTER_BLOCK_COUNT);
    }

    method WriteCluster(ptr: array<byte>, at: nat, cluster: nat)
      requires Valid() && ptr != device.image && at + CLUSTER_SIZE <= ptr.Length && cluster < IMAGE_CLUSTERS
      modifies device.image, this`log
      ensures Disk() == old(Disk())[cluster := ptr[..][at .. at + CLUSTER_SIZE]]
      ensures log == old(log) + [ClusterWrite(cluster, ptr[..][at .. at + CLUSTER_SIZE])]
      ensures forall k :: 0 <= k < device.image.Length ==>
        device.image[k] == if 2048 * cluster <= k < 2048 * cluster + 2048 then ptr[at + k - 2048 * cluster]
                           else old(device.image[k])
    {
      ClusterBytes(device.image[..], 2048 * cluster, ptr[..], at);
      hide Overwrite, ClustersOf;
      ClusterOverwritten(device.image[..], cluster, ptr[..][at .. at + CLUSTER_SIZE]);
      device.WriteBlocks(ptr, at, ClusterToLba(cluster), CLUSTER_BLOCK_COUNT);
      log := log + [ClusterWrite(cluster, ptr[..][at .. at + CLUSTER_SIZE])];
    }

    // ---- loading and storing the typed buffers ----

    method LoadTable(table: array<Entry>, cluster: nat)
      requires Valid() && table.Length == SLOTS && cluster < IMAGE_CLUSTERS
      requires table as object != device.image
      modifies table
      ensures table[..] == TableOf(Disk(), cluster)
    {
      hide DecodeEntry, Overwrite, ClustersOf;
      var raw := new byte[CLUSTER_SIZE];
      ghost var before := raw[..];
      ReadCluster(raw, 0, cluster);
      WholeCluster(before, Disk()[cluster]);
      ghost var data := raw[..];
      for i := 0 to SLOTS
        invariant raw[..] == data && Disk() == old(Disk())
        invariant forall k :: 0 <= k < i ==> table[k] == DecodeEntry(EntryBytes(data, k))
      {
        table[i] := DecodeEntry(raw[32 * i .. 32 * i + 32]);
      }
    }

    method LoadFat()
      requires Valid()
      modifies fatTable
      ensures Cached() == FatOf(Disk())
    {
      hide FromLe32, Overwrite, ClustersOf;
      var raw := new byte[CLUSTER_SIZE];
      ghost var before := raw[..];
      ReadCluster(raw, 0, FAT_CLUSTER);
      WholeCluster(before, Disk()[FAT_CLUSTER]);
      ghost var data := raw[..];
      for i := 0 to CLUSTER_MAP_SIZE
        invariant raw[..] == data && Disk() == old(Disk())
        invariant forall k :: 0 <= k < i ==> fatTable[k] == FromLe32(MapBytes(data, k))
      {
        fatTable[i] := FromLe32(raw[4 * i .. 4 * i + 4]);
      }
    }

    method StoreTable(table: array<Entry>, cluster: nat)
      requires Valid() && table.Length == SLOTS && cluster < IMAGE_CLUSTERS
      requires table as object != device.image
      modifies device.image, this`log
      ensures Disk() == old(Disk())[cluster := EncodeTable(table[..])]
      ensures log == old(log) + [ClusterWrite(cluster, EncodeTable(table[..]))]
    {
      var bytes := EncodeTable(table[..]);
      var raw := new byte[CLUSTER_SIZE](i requires 0 <= i < CLUSTER_SIZE => bytes[i]);
      assert raw[..][0 .. CLUSTER_SIZE] == bytes;
      WriteCluster(raw, 0, cluster);
    }

    method StoreFat()
      requires Valid()
      modifies device.image, this`log
      ensures Disk() == old(Disk())[FAT_CLUSTER := EncodeFat(Cached())]
      ensures log == old(log) + [ClusterWrite(FAT_CLUSTER, EncodeFat(Cached()))]
    {
      var bytes := EncodeFat(fatTable[..]);
      var raw := new byte[CLUSTER_SIZE](i requires 0 <= i < CLUSTER_SIZE => bytes[i]);
      assert raw[..][0 .. CLUSTER_SIZE] == bytes;
      WriteCluster(raw, 0, FAT_CLUSTER);
    }

    // ---- searching the loaded table and map ----

    /** The first slot with this name and extension, SLOTS if there is none. */
    method Lookup(key: Key) returns (s: nat)
      requires Valid()
      ensures s == FindId(dirTable[..], key, 0)
    {
      s := 0;
      while s < SLOTS && !(dirTable[s].name == key.name && dirTable[s].ext == key.ext)
        invariant s <= SLOTS && FindId(dirTable[..], key, 0) == FindId(dirTable[..], key, s)
      {
        s := s + 1;
      }
    }

    method FirstFreeSlot(table: array<Entry>) returns (s: nat)
      requires table.Length == SLOTS
      ensures s == FreeSlot(table[..], 0)
    {
      s := 0;
      while s < SLOTS && table[s].userAttribute == UATTR_NOT_EMPTY
        invariant s <= SLOTS && FreeSlot(table[..], 0) == FreeSlot(table[..], s)
      {
        s := s + 1;
      }
    }

    /** The first free map entry from `from` on, CLUSTER_MAP_SIZE if there is none. */
    method NextFree(from: nat) returns (index: nat)
      requires Valid() && from <= CLUSTER_MAP_SIZE
      ensures from <= index <= CLUSTER_MAP_SIZE
      ensures index < CLUSTER_MAP_SIZE ==> Cached()[index] == EMPTY_ENTRY
      ensures forall i :: from <= i < index ==> Cached()[i] != EMPTY_ENTRY
    {
      index := from;
      while index < CLUSTER_MAP_SIZE && fatTable[index] != EMPTY_ENTRY
        invariant from <= index <= CLUSTER_MAP_SIZE
        invariant forall i :: from <= i < index ==> fatTable[i] != EMPTY_ENTRY
      {
        index := index + 1;
      }
    }

    // ---- write: a file ----

    /**
     * The allocation loop of `write`: links the first free clusters into a chain, entering the
     * file in slot `s` on the way. `first` is the head of the chain when there were enough.
     */
    method AllocateChain(key: Key, size: uint32, s: nat, index: nat, ghost f: Fat, ghost t: Table)
        returns (ok: bool, first: nat)
      requires Valid() && size > 0 && s < SLOTS && f == Cached() && t == dirTable[..]
      requires 3 <= index < CLUSTER_MAP_SIZE && f[index] == EMPTY_ENTRY
      requires forall i :: 3 <= i < index ==> f[i] != EMPTY_ENTRY
      modifies fatTable, dirTable
      ensures ok <==> CeilDiv(size, CLUSTER_SIZE) <= |FreeList(f)|
      ensures !ok ==> Cached() == LinkPairs(f, FreeList(f))
      ensures ok ==>
        var ch := FreeList(f)[..CeilDiv(size, CLUSTER_SIZE)];
        && first == ch[0] && Cached() == LinkChain(f, ch)
        && dirTable[..] == t[s := NewEntry(key, 0, first, size)]
    {
      hide LinkPairs, LinkChain, FreeList, NewEntry, LinkedSoFar, CeilDiv;
      var required := CeilDiv(size, CLUSTER_SIZE);
      ghost var ch: seq<nat> := [];
      var temp, previous := index, -1;
      first := index;
      NothingLinked(f, index);
      for i := 0 to required
        invariant |ch| == i && LinkedSoFar(f, ch, temp) && InMap(ch) && temp <= CLUSTER_MAP_SIZE
        invariant previous == if i == 0 then -1 else Last(ch)
        invariant i == 0 ==> dirTable[..] == t
        invariant i > 0 ==> first == ch[0] && dirTable[..] == t[s := NewEntry(key, 0, first, size)]
        invariant Cached() == if i < required then LinkPairs(f, ch) else LinkChain(f, ch)
      {
        ghost var from := temp;
        UnlinkedAbove(f, ch, from);
        temp := NextFree(temp);
        assert forall j :: from <= j < CLUSTER_MAP_SIZE ==> Cached()[j] == f[j];
        NextInFreeList(f, ch, from, temp);
        if temp == CLUSTER_MAP_SIZE {
          return false, first;
        }
        LinkNext(f, ch, temp);
        if i == 0 {
          first := temp;
          dirTable[s] := NewEntry(key, 0, temp, size);
        }
        if previous != -1 {
          fatTable[previous] := temp;
        }
        if i == required - 1 {
          fatTable[temp] := END_OF_FILE;
        }
        ch := ch + [temp];
        previous := temp;
        temp := temp + 1;
      }
      ok := true;
      LinkedIsPrefix(f, ch, temp);
    }

    /** One round of the data loop: `n` bytes of the file and zeros, into one cluster. */
    method StoreChunk(buf: array<byte>, i: nat, n: nat, cluster: nat, ghost data: seq<byte>)
      requires Valid() && Apart(buf) && data <= buf[..] && i * CLUSTER_SIZE <= |data| && cluster < IMAGE_CLUSTERS
      requires n == if |data| - i * CLUSTER_SIZE >= CLUSTER_SIZE then CLUSTER_SIZE else |data| - i * CLUSTER_SIZE
      modifies device.image, clusterBuf, this`log
      ensures Disk() == old(Disk())[cluster := Chunk(data, i)]
      ensures log == old(log) + [ClusterWrite(cluster, Chunk(data, i))]
    {
      MemZero(clusterBuf, CLUSTER_SIZE);
      assert clusterBuf[..] == Zeros(CLUSTER_SIZE);
      ChunkBuilt(data, i, n);
      assert buf[..][i * CLUSTER_SIZE .. i * CLUSTER_SIZE + n] == data[i * CLUSTER_SIZE .. i * CLUSTER_SIZE + n];
      hide Overwrite, Chunk;
      MemCpy(clusterBuf, 0, buf, i * CLUSTER_SIZE, n);
      WriteCluster(clusterBuf, 0, cluster);
      assert clusterBuf[..][0 .. CLUSTER_SIZE] == clusterBuf[..];
    }

    /** The data loop of `write`: one cluster after the other, following the chain just linked. */
    method StoreData(buf: array<byte>, size: uint32, first: nat, ghost f: Fat, ghost ch: seq<nat>)
      requires Valid() && Apart(buf) && 0 < size <= buf.Length
      requires InMap(ch) && StrictlyUp(ch) && |ch| == CeilDiv(size, CLUSTER_SIZE) > 0 && first == ch[0]
      requires Cached() == LinkChain(f, ch)
      modifies device.image, clusterBuf, this`log
      ensures Disk() == Replay(old(Disk()), DataWrites(buf[..][..size], ch))
      ensures log == old(log) + DataWrites(buf[..][..size], ch)
    {
      ghost var d, l, data := Disk(), log, buf[..][..size];
      ghost var w := DataWrites(data, ch);
      var required := CeilDiv(size, CLUSTER_SIZE);
      assert w[..0] == [] && w[..required] == w;
      hide LinkChain, DataWrites, Overwrite, Chunk, StrictlyUp, Replay, ClustersOf, InMap;
      assert Replay(d, []) == d by {
        NoWritesYet(d, l);
      }
      var temp, total := first, size;
      for i := 0 to required
        invariant Cached() == LinkChain(f, ch) && data <= buf[..]
        invariant i < required ==> temp == ch[i] && total == size - i * CLUSTER_SIZE
        invariant Disk() == Replay(d, w[..i]) && log == l + w[..i]
      {
        var writeSize := total;
        if total >= CLUSTER_SIZE {
          writeSize := CLUSTER_SIZE;
          total := total - CLUSTER_SIZE;
        }
        DataWritesNext(d, data, ch, i);
        LinkedNext(f, ch, i);
        StoreChunk(buf, i, writeSize, temp, data);
        temp := fatTable[temp];
      }
    }

    // ---- write: a directory ----

    /** Puts the two header entries of a new directory, and zeros, into its cluster. */
    method StoreNewTable(index: nat, self: Entry, up: Entry)
      requires Valid() && index < IMAGE_CLUSTERS
      modifies device.image, dirTable, clusterBuf, this`log
      ensures Disk() == old(Disk())[index := EncodeTable(NewDirTable(self, up))]
      ensures log == old(log) + [ClusterWrite(index, EncodeTable(NewDirTable(self, up)))]
    {
      dirTable[0] := self;
      dirTable[1] := up.(name := DOT_DOT);
      MemZero(clusterBuf, CLUSTER_SIZE);
      assert clusterBuf[..] == Zeros(CLUSTER_SIZE);
      var header := EncodeEntry(self) + EncodeEntry(up.(name := DOT_DOT));
      var raw := new byte[64](i requires 0 <= i < 64 => header[i]);
      assert raw[..][0 .. 64] == header;
      NewTableBytes(self, up);
      MemCpy(clusterBuf, 0, raw, 0, 64);
      assert clusterBuf[..] == TwoEntries(EncodeEntry(self), EncodeEntry(up.(name := DOT_DOT)));
      hide TwoEntries, NewDirTable, EncodeEntry, EncodeTable;
      assert clusterBuf[..][0 .. CLUSTER_SIZE] == clusterBuf[..];
      WriteCluster(clusterBuf, 0, index);
    }

    /** `init_directory_table`, below a parent directory. */
    method InitDirectoryTable(name: Name, parent: nat, ghost k: nat)
      requires Valid() && parent < IMAGE_CLUSTERS && parent != FAT_CLUSTER && k != ROOT_CLUSTER
      requires IsFirstFree(Cached(), k) && FreeSlot(TableOf(Disk(), parent), 0) < SLOTS
      requires TableOf(Disk(), parent)[0].Occupied()
      modifies device.image, fatTable, dirTable, clusterBuf, this`log
      ensures Cached() == old(Cached())[k := END_OF_FILE]
      ensures var t := TableOf(old(Disk()), parent);
        var self := NewEntry(Key(name, NO_EXT), ATTR_SUBDIRECTORY, k, 0);
        var w := [ClusterWrite(FAT_CLUSTER, EncodeFat(Cached())),
                  ClusterWrite(parent, EncodeTable(t[FreeSlot(t, 0) := self])),
                  ClusterWrite(k, EncodeTable(NewDirTable(self, t[0])))];
        && Disk() == old(Disk())[w[0].at := w[0].data][w[1].at := w[1].data][w[2].at := w[2].data]
        && log == old(log) + w
    {
      hide NewEntry, NewDirTable, EncodeTable, DecodeTable, EncodeFat, DecodeFat, ClustersOf, FreeSlot;
      ghost var d, l := Disk(), log;
      var index := NextFree(1);
      FirstFreeUnique(Cached(), k, index);
      fatTable[index] := END_OF_FILE;
      StoreFat();
      var self := NewEntry(Key(name, NO_EXT), ATTR_SUBDIRECTORY, index, 0);
      var parentTable := new Entry[SLOTS](i => ZERO_ENTRY);
      LoadTable(parentTable, parent);
      ghost var t := parentTable[..];
      assert t == TableOf(d, parent);
      var s := FirstFreeSlot(parentTable);
      parentTable[s] := self;
      assert parentTable[..] == t[s := self] && parentTable[0] == t[0];
      StoreTable(parentTable, parent);
      StoreNewTable(index, self, parentTable[0]);
      assert log == l + [ClusterWrite(FAT_CLUSTER, EncodeFat(Cached()))]
                      + [ClusterWrite(parent, EncodeTable(t[s := self]))]
                      + [ClusterWrite(k, EncodeTable(NewDirTable(self, t[0])))];
    }

    /** `init_directory_table` for the root, which has no parent to enter it in. */
    method InitRootTable(name: Name)
      requires Valid() && IsFirstFree(Cached(), ROOT_CLUSTER)
      modifies device.image, fatTable, dirTable, clusterBuf, this`log
      ensures Cached() == old(Cached())[ROOT_CLUSTER := END_OF_FILE]
      ensures Disk() == old(Disk())[FAT_CLUSTER := EncodeFat(Cached())][ROOT_CLUSTER := EncodeTable(RootTable(name))]
      ensures log == old(log) + [ClusterWrite(FAT_CLUSTER, EncodeFat(Cached())),
                                 ClusterWrite(ROOT_CLUSTER, EncodeTable(RootTable(name)))]
    {
      hide NewEntry, NewDirTable, EncodeTable, DecodeTable, EncodeFat, DecodeFat, ClustersOf;
      var index := NextFree(1);
      FirstFreeUnique(Cached(), ROOT_CLUSTER, index);
      fatTable[index] := END_OF_FILE;
      StoreFat();
      var self := NewEntry(Key(name, NO_EXT), ATTR_SUBDIRECTORY, index, 0);
      StoreNewTable(index, self, self);
    }

    // ---- write ----

    /** The file system request's disk has its reserved map entries set, as any volume has. */
    ghost predicate Reserved()
      requires Valid()
      reads device.image
    {
      FatOf(Disk())[1] != EMPTY_ENTRY && FatOf(Disk())[2] != EMPTY_ENTRY
    }

    /** What an operation with outcome `o` leaves behind, starting from disk `d` and log `l`. */
    ghost predicate Leaves(d: Disk, l: seq<ClusterWrite>, o: Outcome)
      requires Valid()
      reads this, device.image, fatTable
    {
      Disk() == Replay(d, o.writes) && Cached() == o.fat && log == l + o.writes
    }

    /** The part of `write` that creates a directory. */
    method WriteDirectory(name: Name, parent: nat)  returns (code: int)
      requires Valid() && parent < IMAGE_CLUSTERS && parent != FAT_CLUSTER && Reserved()
      requires Cached() == FatOf(Disk()) && dirTable[..] == TableOf(Disk(), parent) && dirTable[0].Occupied()
      requires |FreeList(FatOf(Disk()))| > 0
      modifies device.image, fatTable, dirTable, clusterBuf, this`log
      ensures var o := MkdirOutcome(old(Disk()), parent, name);
        code == o.code && Leaves(old(Disk()), old(log), o)
    {
      hide NewEntry, NewDirTable, EncodeTable, DecodeTable, EncodeFat, DecodeFat, Replay, FreeList, ClustersOf;
      hide MkdirOutcome;
      ghost var d := Disk();
      var j := FirstFreeSlot(dirTable);
      if j == SLOTS {
        MkdirOutcomeFull(d, parent, name);
        return -1;
      }
      ghost var k := FreeList(FatOf(d))[0];
      FirstOfFreeList(FatOf(d));
      MkdirOutcomeSteps(d, parent, name, k, j, dirTable[..], NewEntry(Key(name, NO_EXT), ATTR_SUBDIRECTORY, k, 0));
      InitDirectoryTable(name, parent, k);
      code := 0;
    }

    /** The part of `write` that creates a file. */
    method WriteFile(buf: array<byte>, key: Key, parent: nat, size: uint32, index: nat) returns (code: int)
      requires Valid() && Apart(buf) && 0 < size <= buf.Length && parent < IMAGE_CLUSTERS && parent != FAT_CLUSTER
      requires Cached() == FatOf(Disk()) && dirTable[..] == TableOf(Disk(), parent)
      requires FreeSlot(TableOf(Disk(), parent), 0) < SLOTS
      requires 3 <= index < CLUSTER_MAP_SIZE && Cached()[index] == EMPTY_ENTRY
      requires forall i :: 3 <= i < index ==> Cached()[i] != EMPTY_ENTRY
      modifies device.image, fatTable, dirTable, clusterBuf, this`log
      ensures var o := WriteFileOutcome(old(Disk()), parent, key, buf[..][..size]);
        code == o.code && Leaves(old(Disk()), old(log), o)
    {
      hide NewEntry, EncodeTable, DecodeTable, EncodeFat, DecodeFat, Replay, FreeList, LinkChain, LinkPairs;
      hide DataWrites, ClustersOf, WriteFileOutcome;
      ghost var d, l, data := Disk(), log, buf[..][..size];
      ghost var f, t := Cached(), dirTable[..];
      var s := FirstFreeSlot(dirTable);
      var ok, first := AllocateChain(key, size, s, index, f, t);
      if !ok {
        FileOutcomeFails(d, parent, key, data);
        return -1;
      }
      ghost var ch := FreeList(f)[..ClustersFor(data)];
      FileOutcomeSteps(d, parent, key, data, ch, dirTable[..], EncodeTable(dirTable[..]));
      StoreData(buf, size, first, f, ch);
      StoreFat();
      StoreTable(dirTable, parent);
      code := 0;
      assert log == l + WriteFileOutcome(d, parent, key, data).writes;
    }

    /** `write`: a file of `size` bytes from `buf`, or a directory if `size` is 0. */
    method Write(buf: array<byte>, key: Key, parent: nat, size: uint32) returns (code: int)
      requires Valid() && Apart(buf) && size <= buf.Length && parent < IMAGE_CLUSTERS && parent != FAT_CLUSTER
      requires Reserved()
      requires WriteRefused(Disk(), parent, key) || size == 0 || FreeSlot(TableOf(Disk(), parent), 0) < SLOTS
      modifies device.image, fatTable, dirTable, clusterBuf, this`log
      ensures var o := WriteOutcome(old(Disk()), parent, key, buf[..][..size]);
        code == o.code && Leaves(old(Disk()), old(log), o)
      ensures code == 0 && ParentInUse(old(Disk()), parent) ==>
        Stored(old(Disk()), Disk(), parent, key, buf[..][..size])
    {
      hide Stored, ParentInUse, ClustersOf, MkdirOutcome, WriteFileOutcome, Replay;
      hide DecodeTable, DecodeFat, EncodeFat, EncodeTable, LinkPairs, LinkChain, DataWrites;
      WrittenOnDisk(Disk(), parent, key, buf[..][..size]);
      LoadTable(dirTable, parent);
      LoadFat();
      ghost var d, l := Disk(), log;
      NoWritesYet(d, l);
      var index := NextFree(ROOT_CLUSTER + 1);
      FreeListFrom(Cached(), index);
      if index == CLUSTER_MAP_SIZE {
        return -1;
      }
      FreeListHead(Cached(), index);
      if dirTable[0].userAttribute != UATTR_NOT_EMPTY {
        return -1;
      }
      var found := Lookup(key);
      if found < SLOTS {
        return 1;
      }
      hide Leaves, FreeList;
      if size == 0 {
        code := WriteDirectory(key.name, parent);
      } else {
        code := WriteFile(buf, key, parent, size, index);
      }
    }

    // ---- delete ----

    /** Whether the loaded sub-table holds members, from slot 2 on. */
    method AnyMember(table: array<Entry>) returns (any: bool)
      requires table.Length == SLOTS
      ensures any <==> HasMembers(table[..])
    {
      for i := 2 to SLOTS
        invariant forall j :: 2 <= j < i ==> !table[j].Occupied()
      {
        if table[i].userAttribute == UATTR_NOT_EMPTY {
          assert table[..][i].Occupied();
          return true;
        }
      }
      return false;
    }

    /** Stores the cluster buffer, known to be blank. */
    method WriteBlank(cluster: nat)
      requires Valid() && cluster < IMAGE_CLUSTERS && clusterBuf[..] == ZERO_CLUSTER
      modifies device.image, this`log
      ensures Disk() == old(Disk())[cluster := ZERO_CLUSTER]
      ensures log == old(log) + [ClusterWrite(cluster, ZERO_CLUSTER)]
    {
      hide Overwrite, ClustersOf, Zeros;
      assert clusterBuf[..][0 .. CLUSTER_SIZE] == ZERO_CLUSTER;
      WriteCluster(clusterBuf, 0, cluster);
    }

    /** The part of `delete` that zeroes a file's clusters along its chain. */
    method ZeroChain(cluster: nat)
      requires Valid() && cluster < CLUSTER_MAP_SIZE && Cached()[Last(Chain(Cached(), cluster))] == END_OF_FILE
      modifies device.image, clusterBuf, this`log
      ensures Disk() == Replay(old(Disk()), ZeroWrites(Chain(Cached(), cluster)))
      ensures log == old(log) + ZeroWrites(Chain(Cached(), cluster))
    {
      hide Overwrite, ClustersOf, Replay, ZeroWrites, Chain, Last, Zeros, AtLink;
      ghost var f, ch := Cached(), Chain(Cached(), cluster);
      ghost var d, l, w := Disk(), log, ZeroWrites(ch);
      ghost var i := 0;
      ZeroWritesStart(d, f, cluster);
      MemZero(clusterBuf, CLUSTER_SIZE);
      WholeZero(clusterBuf[..], old(clusterBuf[..]));
      var current: nat, done := cluster, false;
      while !done
        invariant Cached() == f && clusterBuf[..] == ZERO_CLUSTER && i <= |ch| == |w|
        invariant if done then i == |ch| else AtLink(f, ch, i, current)
        invariant Disk() == Replay(d, w[..i]) && log == l + w[..i]
        decreases !done, |ch| - i
      {
        ZeroWritesNext(d, f, ch, i, current, w);
        var next := fatTable[current];
        WriteBlank(current);
        i := i + 1;
        if next == END_OF_FILE {
          done := true;
        } else {
          current := next;
        }
      }
    }

    /** The end of `delete`: the directory is stored without the entry. */
    method DropEntry(index: nat, parent: nat)
      requires Valid() && index < SLOTS && parent < IMAGE_CLUSTERS
      modifies device.image, dirTable, this`log
      ensures var t := old(dirTable[..])[index := ZERO_ENTRY];
        && Disk() == old(Disk())[parent := EncodeTable(t)]
        && log == old(log) + [ClusterWrite(parent, EncodeTable(t))]
    {
      hide EncodeTable, DecodeTable, ClustersOf;
      ghost var t := dirTable[..];
      dirTable[index] := ZERO_ENTRY;
      assert dirTable[..] == t[index := ZERO_ENTRY];
      StoreTable(dirTable, parent);
    }

    /** The part of `delete` that frees an empty directory's cluster. */
    method FreeDirectory(cluster: nat)
      requires Valid() && cluster < CLUSTER_MAP_SIZE
      modifies device.image, fatTable, clusterBuf, this`log
      ensures Cached() == old(Cached())[cluster := EMPTY_ENTRY]
      ensures Disk() == old(Disk())[cluster := ZERO_CLUSTER][FAT_CLUSTER := EncodeFat(Cached())]
      ensures log == old(log) + [ClusterWrite(cluster, ZERO_CLUSTER), ClusterWrite(FAT_CLUSTER, EncodeFat(Cached()))]
    {
      hide EncodeFat, ClustersOf, Overwrite;
      MemZero(clusterBuf, CLUSTER_SIZE);
      WholeZero(clusterBuf[..], old(clusterBuf[..]));
      WriteBlank(cluster);
      fatTable[cluster] := EMPTY_ENTRY;
      StoreFat();
    }

    /** The part of `delete` for an entry without a size: a directory, refused if it has members. */
    method DeleteDirectory(key: Key, parent: nat, index: nat) returns (code: int)
      requires Valid() && parent < IMAGE_CLUSTERS && parent != FAT_CLUSTER && DeleteDefined(Disk(), parent, key)
      requires Cached() == FatOf(Disk()) && dirTable[..] == TableOf(Disk(), parent)
      requires index == FindId(dirTable[..], key, 0) && index < SLOTS
      requires dirTable[index].filesize == 0 && dirTable[index].cluster != ROOT_CLUSTER
      modifies device.image, fatTable, dirTable, clusterBuf, this`log
      ensures var o := DeleteOutcome(old(Disk()), parent, key);
        code == o.code && Leaves(old(Disk()), old(log), o)
    {
      hide EncodeTable, DecodeTable, EncodeFat, DecodeFat, Replay, ClustersOf, Overwrite, Chain;
      ghost var d, l := Disk(), log;
      var cluster := dirTable[index].cluster;
      var temp := new Entry[SLOTS](i => ZERO_ENTRY);
      LoadTable(temp, cluster);
      var any := AnyMember(temp);
      if any {
        NoWritesYet(d, l);
        return 2;
      }
      DeleteDirSteps(d, parent, key, index);
      hide DeleteOutcome, DeleteDefined;
      FreeDirectory(cluster);
      DropEntry(index, parent);
      code := 0;
      assert log == l + DeleteOutcome(d, parent, key).writes;
    }

    /** The part of `delete` for an entry with a size: a file. */
    method DeleteFile(key: Key, parent: nat, index: nat)
      requires Valid() && parent < IMAGE_CLUSTERS && parent != FAT_CLUSTER && DeleteDefined(Disk(), parent, key)
      requires Cached() == FatOf(Disk()) && dirTable[..] == TableOf(Disk(), parent)
      requires index == FindId(dirTable[..], key, 0) && index < SLOTS
      requires dirTable[index].filesize != 0 && dirTable[index].cluster != ROOT_CLUSTER
      modifies device.image, dirTable, clusterBuf, this`log
      ensures var o := DeleteOutcome(old(Disk()), parent, key);
        o.code == 0 && Leaves(old(Disk()), old(log), o)
    {
      hide EncodeTable, DecodeTable, EncodeFat, DecodeFat, Replay, ClustersOf, Chain, ZeroWrites, DeleteOutcome;
      ghost var d, l := Disk(), log;
      DeleteFileSteps(d, parent, key, index);
      hide DeleteDefined;
      ZeroChain(dirTable[index].cluster);
      DropEntry(index, parent);
      assert log == l + DeleteOutcome(d, parent, key).writes;
    }

    /** `delete`. */
    method Delete(key: Key, parent: nat) returns (code: int)
      requires Valid() && parent < IMAGE_CLUSTERS && parent != FAT_CLUSTER && DeleteDefined(Disk(), parent, key)
      modifies device.image, fatTable, dirTable, clusterBuf, this`log
      ensures var o := DeleteOutcome(old(Disk()), parent, key);
        code == o.code && Leaves(old(Disk()), old(log), o)
    {
      hide EncodeTable, DecodeTable, EncodeFat, DecodeFat, ClustersOf, ZeroWrites, Chain, DeleteDefined;
      LoadTable(dirTable, parent);
      LoadFat();
      NoWritesYet(Disk(), log);
      var index := Lookup(key);
      if index == SLOTS {
        return 1;
      }
      if dirTable[index].cluster == ROOT_CLUSTER {
        return -1;
      }
      if dirTable[index].filesize == 0 {
        code := DeleteDirectory(key, parent, index);
      } else {
        DeleteFile(key, parent, index);
        code := 0;
      }
    }

    // ---- read and read_directory ----

    /** `read`: fetches a file into `buf` by the map in memory; false in `complete` if that leads off the disk. */
    method Read(buf: array<byte>, key: Key, parent: nat, size: uint32) returns (code: int, complete: bool)
      requires Valid() && Apart(buf) && parent < IMAGE_CLUSTERS
      requires |ReadOutcome(Disk(), Cached(), parent, key, size).data| <= buf.Length
      modifies dirTable, buf
      ensures var o := ReadOutcome(Disk(), Cached(), parent, key, size);
        code == o.code && complete == o.complete && buf[..] == Overwrite(old(buf[..]), 0, o.data)
      ensures Disk() == old(Disk()) && Cached() == old(Cached())
    {
      hide DecodeTable, DecodeFat, Overwrite, ClustersOf, Walk, FindId;
      ghost var d, m, bytes := Disk(), Cached(), buf[..];
      NothingRead(bytes);
      LoadTable(dirTable, parent);
      var index := Lookup(key);
      if index == SLOTS {
        return 2, true;
      }
      if dirTable[index].attribute == 1 || size == 0 {
        return 1, true;
      }
      var cluster: nat := dirTable[index].cluster;
      ghost var start := cluster;
      var count := dirTable[index].filesize / CLUSTER_SIZE + 1;
      if (count * CLUSTER_SIZE) % 0x1_0000_0000 < dirTable[index].filesize {
        count := 0;
      }
      ghost var all := Walk(d, m, start, count);
      ghost var got: seq<byte> := [];
      WalkNone(d, m, start, count);
      for j := 0 to count
        invariant Disk() == d && Cached() == m && |got| == j * CLUSTER_SIZE
        invariant all == Reading(0, got + Walk(d, m, cluster, count - j).data, Walk(d, m, cluster, count - j).complete)
        invariant buf[..] == Overwrite(bytes, 0, got)
      {
        if cluster >= IMAGE_CLUSTERS {
          WalkOff(d, m, cluster, count - j, got);
          return 0, false;
        }
        WalkRoom(d, m, cluster, count - j);
        OverwriteAppend(bytes, 0, got, d[cluster]);
        ReadCluster(buf, j * CLUSTER_SIZE, cluster);
        if cluster >= CLUSTER_MAP_SIZE {
          WalkOff(d, m, cluster, count - j, got);
          return 0, false;
        }
        WalkOne(d, m, cluster, count - j, got);
        got := got + d[cluster];
        cluster := fatTable[cluster];
      }
      WalkDone(d, m, cluster, got);
      return 0, true;
    }

    /** `read_directory`: fetches the cluster of the first slot with this name. */
    method ReadDirectory(buf: array<byte>, name: Name, parent: nat) returns (code: int, complete: bool)
      requires Valid() && Apart(buf) && parent < IMAGE_CLUSTERS
      requires |ReadDirectoryOutcome(Disk(), parent, name).data| <= buf.Length
      modifies dirTable, buf
      ensures var o := ReadDirectoryOutcome(Disk(), parent, name);
        code == o.code && complete == o.complete && buf[..] == Overwrite(old(buf[..]), 0, o.data)
      ensures name != [46, 0, 0, 0, 0, 0, 0, 0] ==>
        DeliversFirst(Disk(), parent, name, old(buf[..]), buf[..], code)
      ensures Disk() == old(Disk()) && Cached() == old(Cached())
    {
      hide DecodeTable, DecodeFat, Overwrite, ClustersOf, DeliversFirst;
      ghost var d := Disk();
      FirstInBuffer(d, parent, name, buf[..]);
      NothingRead(buf[..]);
      LoadTable(dirTable, parent);
      var index := 0;
      if name != DOT {
        index := 1;
        while index < SLOTS && dirTable[index].name != name
          invariant 1 <= index <= SLOTS && Disk() == d && dirTable[..] == TableOf(d, parent)
          invariant buf[..] == old(buf[..]) && Cached() == old(Cached())
          invariant FindName(dirTable[..], name, 1) == FindName(dirTable[..], name, index)
        {
          index := index + 1;
        }
      }
      if index == SLOTS {
        return 2, true;
      }
      var cluster := dirTable[index].cluster;
      if cluster >= IMAGE_CLUSTERS {
        return 0, false;
      }
      ReadCluster(buf, 0, cluster);
      return 0, true;
    }

    // ---- starting up ----

    /** `is_empty_storage`: the boot sector does not carry the signature. */
    method IsEmptyStorage() returns (empty: bool)
      requires Valid()
      ensures empty <==> !Signed(Disk())
    {
      var check := new byte[BLOCK_SIZE];
      BootSector(device.image[..]);
      assert Overwrite(check[..], 0, device.image[..][0 .. BLOCK_SIZE]) == device.image[..][0 .. BLOCK_SIZE];
      hide Overwrite, ClustersOf, Signature;
      ghost var img := device.image[..];
      device.ReadBlocks(check, 0, 0, 1);
      var signature := Signature();
      assert device.image[..] == img;
      for i := 0 to BLOCK_SIZE
        invariant check[..i] == signature[..i] && device.image[..] == img && check[..] == img[0 .. BLOCK_SIZE]
      {
        if check[i] != signature[i] {
          assert check[..][i] != signature[i];
          return true;
        }
      }
      assert check[..] == check[..BLOCK_SIZE] && signature == signature[..BLOCK_SIZE];
      return false;
    }

    /** `create_fat32`; `name` is the eight bytes it copies from the string "root". */
    method CreateFat32(name: Name)
      requires Valid() && Cached() == seq<uint32>(CLUSTER_MAP_SIZE, i => 0)
      modifies device.image, fatTable, dirTable, clusterBuf, this`log
      ensures Disk() == Replay(SignedDisk(old(Disk())), CreateWrites(name))
      ensures log == old(log) + CreateWrites(name)
      ensures Cached() == FirstMap()[ROOT_CLUSTER := END_OF_FILE]
      ensures BootWritten(old(Disk())[0], Disk()[0]) && VolumeCreated(SignedDisk(old(Disk())), Disk(), name)
    {
      hide VolumeCreated, BootWritten;
      ghost var d, l := Disk(), log;
      BootOnDisk(d);
      CreatedOnDisk(SignedDisk(d), name);
      var bytes := Signature();
      var signature := new byte[BLOCK_SIZE](i requires 0 <= i < BLOCK_SIZE => bytes[i]);
      assert signature[..][0 .. BLOCK_SIZE] == Signature();
      BootSigned(device.image[..]);
      hide Overwrite, ClustersOf, Signature, SignedDisk, CreateWrites, Replay, EncodeFat, EncodeTable, RootTable;
      device.WriteBlocks(signature, 0, 0, 1);
      assert Disk() == SignedDisk(d);
      fatTable[0] := CLUSTER_0_VALUE;
      fatTable[1] := CLUSTER_1_VALUE;
      assert Cached() == FirstMap();
      hide FirstMap;
      StoreFat();
      FirstMapFree();
      InitRootTable(name);
      CreateSteps(SignedDisk(d), name);
      assert log == l + CreateWrites(name);
    }

    /** `initialize_filesystem_fat32`: creates the file system, or loads the one that is there. */
    method Initialize(name: Name)
      requires Valid() && Cached() == seq<uint32>(CLUSTER_MAP_SIZE, i => 0)
      modifies device.image, fatTable, dirTable, clusterBuf, this`log
      ensures if Signed(old(Disk())) then
                Disk() == old(Disk()) && log == old(log)
                && Cached() == FatOf(Disk()) && dirTable[..] == TableOf(Disk(), ROOT_CLUSTER)
              else
                Disk() == Replay(SignedDisk(old(Disk())), CreateWrites(name))
                && Cached() == FirstMap()[ROOT_CLUSTER := END_OF_FILE]
    {
      hide Signed, SignedDisk, CreateWrites, Replay, DecodeFat, DecodeTable, ClustersOf, FirstMap;
      var empty := IsEmptyStorage();
      if empty {
        CreateFat32(name);
      } else {
        LoadFat();
        LoadTable(dirTable, ROOT_CLUSTER);
      }
    }
  }
}
