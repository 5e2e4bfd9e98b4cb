/**
 * Which slot an operation picks and which code it returns, from the bytes on disk: for every
 * disk, well-formed or not.
 */
module FatAnswers {
  import opened Bytes
  import opened FatLayout
  import opened FatChains
  import opened Volume
  import opened FatOps
  import opened BlockDevice
  import opened FatImage

  // ---- read_directory ----

  /**
   * `read_directory` of a name other than "." delivers the cluster of the first slot, after the
   * directory's own, with the name; no slot with the name is code 2.
   */
  lemma FirstNamedDelivered(d: Disk, p: nat, name: Name)
    requires p < 2048 && name != [46, 0, 0, 0, 0, 0, 0, 0]
    ensures forall s :: 1 <= s < 64 && FirstWithName(d[p], s, name) ==>
      var k := ClusterIn(Slot(d[p], s));
      ReadDirectoryOutcome(d, p, name) == if k < 2048 then Reading(0, d[k], true) else Reading(0, [], false)
    ensures (forall s :: 1 <= s < 64 ==> !WithName(d[p], s, name)) ==>
      ReadDirectoryOutcome(d, p, name) == Reading(2, [], true)
  {
    hide DecodeTable, WithName, FindName, ClusterIn, Slot;
    var r := FindName(TableOf(d, p), name, 1);
    SlotNames(d[p], Key(name, [0, 0, 0]));
    forall s | 1 <= s < 64 && FirstWithName(d[p], s, name)
      ensures r == s && TableOf(d, p)[s].cluster == ClusterIn(Slot(d[p], s))
    {
      FoundName(d[p], s, name);
      SlotNumbers(d[p], s);
    }
    if r < 64 {
      assert WithName(d[p], r, name);
    }
  }

  lemma FoundName(c: Cluster, s: nat, name: Name)
    requires 1 <= s < 64 && FirstWithName(c, s, name)
    ensures FindName(DecodeTable(c), name, 1) == s
  {
    hide DecodeTable, WithName, FindName;
    SlotNames(c, Key(name, [0, 0, 0]));
    var r := FindName(DecodeTable(c), name, 1);
    assert r < 64 ==> DecodeTable(c)[r].name == name;
  }

  /** The name "." delivers the cluster the directory's own entry names. */
  lemma OwnDelivered(d: Disk, p: nat)
    requires p < 2048
    ensures var k := ClusterIn(Slot(d[p], 0));
      ReadDirectoryOutcome(d, p, [46, 0, 0, 0, 0, 0, 0, 0])
      == if k < 2048 then Reading(0, d[k], true) else Reading(0, [], false)
  {
    hide DecodeTable, ClusterIn, Slot;
    SlotNumbers(d[p], 0);
  }

  /**
   * A caller's buffer after `read_directory`: at its front the cluster of the first slot with the
   * name, all else as it was; untouched and code 2 if there is none.
   */
  predicate DeliversFirst(d: Disk, p: nat, name: Name, before: seq<byte>, after: seq<byte>, code: int)
    requires p < 2048
  {
    && (forall s :: 1 <= s < 64 && FirstWithName(d[p], s, name) ==>
          var k := ClusterIn(Slot(d[p], s));
          && code == 0
          && (k < 2048 ==>
                2048 <= |before| == |after| && after[..2048] == d[k] && after[2048..] == before[2048..]))
    && ((forall s :: 1 <= s < 64 ==> !WithName(d[p], s, name)) ==> code == 2 && after == before)
  }

  lemma FirstInBuffer(d: Disk, p: nat, name: Name, before: seq<byte>)
    requires p < 2048 && |ReadDirectoryOutcome(d, p, name).data| <= |before|
    ensures var o := ReadDirectoryOutcome(d, p, name);
      name != [46, 0, 0, 0, 0, 0, 0, 0] ==> DeliversFirst(d, p, name, before, Overwrite(before, 0, o.data), o.code)
  {
    hide ReadDirectoryOutcome, FirstWithName, WithName, ClusterIn, Slot;
    if name != [46, 0, 0, 0, 0, 0, 0, 0] {
      FirstNamedDelivered(d, p, name);
    }
  }

  // ---- read ----

  /**
   * `read` goes by the first slot with the name and extension: code 1 if its attribute byte is 1
   * or the buffer is said to be empty, code 2 if there is none. It then walks size / 2048 + 1
   * clusters, or none at all if the size is within 2048 of 2^32.
   */
  lemma FirstRead(d: Disk, m: Fat, p: nat, key: Key, bufferSize: nat)
    requires p < 2048
    ensures forall s :: 0 <= s < 64 && FirstWithId(d[p], s, key) ==>
      var b := Slot(d[p], s);
      var size := Number32(b, 28);
      ReadOutcome(d, m, p, key, bufferSize) ==
        if b[11] == 1 || bufferSize == 0 then Reading(1, [], true)
        else Walk(d, m, ClusterIn(b), if size < 0xFFFF_F800 then size / 2048 + 1 else 0)
    ensures (forall s :: 0 <= s < 64 ==> !WithId(d[p], s, key)) ==>
      ReadOutcome(d, m, p, key, bufferSize) == Reading(2, [], true)
  {
    hide DecodeTable, WithId, FindId, ClusterIn, Slot, Number32, Walk, ReadCount, FirstWithId;
    var r := FindId(TableOf(d, p), key, 0);
    SlotNames(d[p], key);
    forall s | 0 <= s < 64 && FirstWithId(d[p], s, key)
      ensures r == s && TableOf(d, p)[s].cluster == ClusterIn(Slot(d[p], s))
      ensures TableOf(d, p)[s].filesize == Number32(Slot(d[p], s), 28)
      ensures TableOf(d, p)[s].attribute == Slot(d[p], s)[11]
    {
      FoundId(d[p], s, key);
      SlotNumbers(d[p], s);
    }
    forall size: uint32
      ensures ReadCount(size) == if size < 0xFFFF_F800 then size / 2048 + 1 else 0
    {
      CountIs(size);
    }
    if r < 64 {
      assert WithId(d[p], r, key);
    }
  }

  lemma CountIs(size: uint32)
    ensures ReadCount(size) == if size < 0xFFFF_F800 then size / 2048 + 1 else 0
  {
    var q := size / 2048;
    assert 2048 * q <= size < 2048 * q + 2048;
  }

  /** `path` follows the links of map `m`, and all but its last number are entries of the map. */
  predicate Follows(m: Fat, path: seq<nat>) {
    forall i :: 0 <= i < |path| - 1 ==> path[i] < 512 && path[i + 1] == m[path[i]]
  }

  /** The clusters of `path`, one after the other. */
  predicate ClustersAlong(d: Disk, path: seq<nat>, n: nat, data: seq<byte>) {
    && n <= |path| && |data| == 2048 * n
    && forall i :: 0 <= i < n ==> path[i] < 2048 && data[2048 * i .. 2048 * i + 2048] == d[path[i]]
  }

  lemma AlongNext(d: Disk, path: seq<nat>, n: nat, data: seq<byte>)
    requires path != [] && path[0] < 2048 && ClustersAlong(d, path[1..], n, data)
    ensures ClustersAlong(d, path, n + 1, d[path[0]] + data)
  {
    var all := d[path[0]] + data;
    forall i | 0 <= i < n + 1
      ensures path[i] < 2048 && all[2048 * i .. 2048 * i + 2048] == d[path[i]]
    {
      if i > 0 {
        assert path[i] == path[1..][i - 1];
        assert all[2048 * i .. 2048 * i + 2048] == data[2048 * (i - 1) .. 2048 * (i - 1) + 2048];
      }
    }
  }

  /**
   * The walk of `read` stores the clusters of the path it follows, in order, `n` of them if it
   * stays within the map. Where it meets a number the map has no entry for, it stores that cluster
   * if the disk has it, and the model stops.
   */
  lemma {:induction false} WalkFollows(d: Disk, m: Fat, path: seq<nat>, n: nat)
    requires path != [] && Follows(m, path) && n >= |path|
    requires n > |path| ==> path[|path| - 1] >= 512
    ensures var r, last := Walk(d, m, path[0], n), path[|path| - 1];
      && r.code == 0 && r.complete == (last < 512)
      && ClustersAlong(d, path, if last < 2048 then |path| else |path| - 1, r.data)
    decreases |path|
  {
    hide ClustersAlong;
    var c := path[0];
    if |path| == 1 {
      LastStep(d, m, path, n);
    } else {
      assert c < 512 && path[1..][0] == m[c];
      WalkFollows(d, m, path[1..], n - 1);
      var k := if path[|path| - 1] < 2048 then |path| - 1 else |path| - 2;
      AlongNext(d, path, k, Walk(d, m, m[c], n - 1).data);
    }
  }

  lemma LastStep(d: Disk, m: Fat, path: seq<nat>, n: nat)
    requires |path| == 1 <= n && (n > 1 ==> path[0] >= 512)
    ensures var r := Walk(d, m, path[0], n);
      && r.code == 0 && r.complete == (path[0] < 512)
      && ClustersAlong(d, path, if path[0] < 2048 then 1 else 0, r.data)
  {
    if path[0] < 512 {
      assert Walk(d, m, m[path[0]], 0) == Reading(0, [], true);
      assert d[path[0]] + [] == d[path[0]];
    }
  }

  // ---- the codes of write and delete ----

  /** The free clusters of the map. */
  function FreeClusters(m: Cluster): set<nat> {
    set x: nat | 3 <= x < 512 && Link(m, x) == 0
  }

  lemma FreeClustersAre(m: Cluster)
    ensures FreeSet(DecodeFat(m)) == FreeClusters(m) && |FreeList(DecodeFat(m))| == |FreeClusters(m)|
  {
    hide DecodeFat, Link, Ascending;
    MapNumbers(m);
    AscendingCount(FreeSet(DecodeFat(m)), 3);
  }

  lemma ClustersNeeded(data: seq<byte>, n: nat)
    ensures ClustersFor(data) <= n <==> |data| <= 2048 * n
  {
    var q := ClustersFor(data);
    assert |data| <= q * 2048 < |data| + 2048;
  }

  /** Some slot has this name and extension. */
  predicate AnyWithId(c: Cluster, key: Key) {
    exists s :: 0 <= s < 64 && WithId(c, s, key)
  }

  predicate AllMarked(c: Cluster) {
    forall s :: 0 <= s < 64 ==> Marked(c, s)
  }

  /** The return code of `write`, in this order; if it is not 0, nothing is written. */
  lemma WriteCode(d: Disk, p: nat, key: Key, data: seq<byte>)
    requires p < 2048 && |data| < 0x1_0000_0000
    requires WriteRefused(d, p, key) || data == [] || FreeSlot(TableOf(d, p), 0) < SLOTS
    ensures var o, free := WriteOutcome(d, p, key, data), FreeClusters(d[1]);
      && o.code == (if free == {} || !Marked(d[p], 0) then -1
                    else if AnyWithId(d[p], key) then 1
                    else if data == [] then (if AllMarked(d[p]) then -1 else 0)
                    else if |data| <= 2048 * |free| then 0 else -1)
      && (o.code != 0 ==> o.writes == [])
  {
    hide DecodeTable, DecodeFat, EncodeTable, EncodeFat, FindId, FreeSlot, FreeList, WithId, Marked, Link;
    hide ClustersFor, LinkChain, LinkPairs, DataWrites, NewDirTable;
    FreeClustersAre(d[1]);
    TableImage(d[p], 0);
    FreeSlotImage(d[p]);
    AnyIs(d[p], key);
    ClustersNeeded(data, |FreeClusters(d[1])|);
  }

  lemma AnyIs(c: Cluster, key: Key)
    ensures AnyWithId(c, key) <==> FindId(DecodeTable(c), key, 0) < SLOTS
  {
    hide DecodeTable, FindId, WithId;
    SlotNames(c, key);
    var r := FindId(DecodeTable(c), key, 0);
    if r < 64 {
      assert WithId(c, r, key);
    }
  }

  /** Some slot from 2 on is marked: the directory has members. */
  predicate AnyMember(c: Cluster) {
    exists s :: 2 <= s < 64 && Marked(c, s)
  }

  lemma MembersImage(c: Cluster)
    ensures HasMembers(DecodeTable(c)) <==> AnyMember(c)
  {
    hide DecodeTable, Marked, EntryImage, Slot;
    forall s | 0 <= s < 64
      ensures DecodeTable(c)[s].Occupied() <==> Marked(c, s)
    {
      TableImage(c, s);
    }
  }

  /**
   * The return code of `delete`, by the first slot with the name and extension: 1 if there is
   * none, -1 for the root, 2 for a directory with members; if it is not 0, nothing is written.
   */
  lemma DeleteCode(d: Disk, p: nat, key: Key)
    requires p < 2048 && DeleteDefined(d, p, key)
    ensures var o := DeleteOutcome(d, p, key);
      && (o.code != 0 ==> o.writes == [])
      && (!AnyWithId(d[p], key) ==> o.code == 1)
      && forall s :: 0 <= s < 64 && FirstWithId(d[p], s, key) ==>
           var b := Slot(d[p], s);
           var k := ClusterIn(b);
           if k == 2 then o.code == -1
           else if Number32(b, 28) == 0 then k < 2048 && o.code == if AnyMember(d[k]) then 2 else 0
           else o.code == 0
  {
    hide DecodeTable, DecodeFat, EncodeTable, EncodeFat, FindId, WithId, Marked, Link, FirstWithId, Chain, ZeroWrites;
    hide ClusterIn, Slot, Number32, HasMembers;
    AnyIs(d[p], key);
    forall s | 0 <= s < 64 && FirstWithId(d[p], s, key)
      ensures FindId(TableOf(d, p), key, 0) == s
      ensures TableOf(d, p)[s].cluster == ClusterIn(Slot(d[p], s))
      ensures TableOf(d, p)[s].filesize == Number32(Slot(d[p], s), 28)
    {
      FoundId(d[p], s, key);
      SlotNumbers(d[p], s);
    }
    var r := FindId(TableOf(d, p), key, 0);
    if r < 64 && TableOf(d, p)[r].cluster < 2048 {
      MembersImage(d[TableOf(d, p)[r].cluster]);
    }
  }
}
