/** The first writes on a new volume, byte for byte. */
module FatFirstWrites {
  import opened Bytes
  import opened FatLayout
  import opened Volume
  import opened FatOps
  import opened FatImage
  import opened FatAnswers

  const NOTES: Name := [110, 111, 116, 101, 115, 0, 0, 0]
  const TXT: Ext := [116, 120, 116]
  const ROOT: Name := [114, 111, 111, 116, 0, 0, 0, 0]

  /** The root's table as created: two entries, none with the name "notes", and nothing else. */
  predicate RootOnly(d: Disk) {
    && Marked(d[2], 0) && Marked(d[2], 1) && (forall s :: 2 <= s < 64 ==> Slot(d[2], s) == Zeros(32))
    && !WithName(d[2], 0, NOTES) && !WithName(d[2], 1, NOTES)
    && d[1][0..12] == [0xF0, 0xFF, 0xFF, 0x0F, 0xFF, 0xFF, 0xFF, 0x0F, 0xFF, 0xFF, 0xFF, 0x0F]
    && (forall x :: 3 <= x < 512 ==> Link(d[1], x) == 0) && Link(d[1], 2) == 0x0FFF_FFFF
  }

  /** The four bytes of an entry are determined by its value. */
  lemma LinkBytes(m: Cluster, i: nat, v: uint32)
    requires i < 512 && Link(m, i) == v
    ensures Holds32(m, 4 * i, v)
  {
    MapImage(m, i);
  }

  lemma NewRoot(d: Disk)
    ensures RootOnly(Replay(d, CreateWrites(ROOT)))
  {
    hide CreateWrites, Replay, Link, NewImage, DirectoryImage, Marked, WithName, Slot;
    CreatedOnDisk(d, ROOT);
    NewRootMap(Replay(d, CreateWrites(ROOT))[1]);
    NewRootTable(Replay(d, CreateWrites(ROOT))[2]);
  }

  lemma NewRootMap(m: Cluster)
    requires Link(m, 0) == 0x0FFF_FFF0 && Link(m, 1) == 0x0FFF_FFFF && Link(m, 2) == 0x0FFF_FFFF
    ensures m[0..12] == [0xF0, 0xFF, 0xFF, 0x0F, 0xFF, 0xFF, 0xFF, 0x0F, 0xFF, 0xFF, 0xFF, 0x0F]
  {
    hide Link;
    LinkBytes(m, 0, 0x0FFF_FFF0);
    LinkBytes(m, 1, 0x0FFF_FFFF);
    LinkBytes(m, 2, 0x0FFF_FFFF);
  }

  lemma NewRootTable(c: Cluster)
    requires NewImage(Slot(c, 0), Key(ROOT, [0, 0, 0]), 0x10, 2, 0) && DirectoryImage(c, Slot(c, 0), Slot(c, 0))
    ensures Marked(c, 0) && Marked(c, 1) && !WithName(c, 0, NOTES) && !WithName(c, 1, NOTES)
    ensures forall s :: 2 <= s < 64 ==> Slot(c, s) == Zeros(32)
  {
    hide Holds16, Holds32;
    assert Slot(c, 0)[0..8][0] == 114;
    assert Slot(c, 1)[..8][0] == 46 && Slot(c, 1)[0..8] == Slot(c, 1)[..8];
    assert Slot(c, 1)[8..][4] == Slot(c, 0)[8..][4];
    assert NOTES[0] == 110;
  }

  // ---- the first file ----

  const NOTES_TXT: Key := Key(NOTES, TXT)

  lemma NotesSlot(d: Disk)
    requires RootOnly(d)
    ensures !AnyWithId(d[2], NOTES_TXT) && !AllMarked(d[2]) && 3 in FreeClusters(d[1])
    ensures forall s :: FirstUnused(d[2], s) ==> s == 2
  {
    hide Link;
    forall s | 2 <= s < 64
      ensures !Marked(d[2], s) && !WithId(d[2], s, NOTES_TXT)
    {
      assert Slot(d[2], s)[12] == 0 && Slot(d[2], s)[0..8][0] == 0;
    }
    assert !WithId(d[2], 0, NOTES_TXT) && !WithId(d[2], 1, NOTES_TXT);
    assert !Marked(d[2], 2) && Marked(d[2], 0) && Marked(d[2], 1);
  }

  /** The lowest free clusters of a map with `first` free and all before it in use. */
  lemma FirstTaken(m: Cluster, ch: seq<nat>, first: nat)
    requires LowestFree(m, ch) && |ch| == 1 && 3 <= first < 512 && Link(m, first) == 0
    requires forall x :: 3 <= x < first ==> Link(m, x) != 0
    ensures ch == [first]
  {
    hide Link;
  }

  /** Ten bytes written as "notes.txt": the entry in slot 2, the map, and cluster 3, byte for byte. */
  predicate NotesStored(d: Disk, d': Disk, data: seq<byte>)
    requires |data| == 10
  {
    && Slot(d'[2], 2) == [110, 111, 116, 101, 115, 0, 0, 0, 116, 120, 116, 0, 0xAA, 0, 0, 0,
                          0, 0, 0, 0, 0, 0, 0, 0, 0, 0, 3, 0, 10, 0, 0, 0]
    && SameBut(d[2], d'[2], 2)
    && d'[1][0..16] == [0xF0, 0xFF, 0xFF, 0x0F, 0xFF, 0xFF, 0xFF, 0x0F, 0xFF, 0xFF, 0xFF, 0x0F, 0xFF, 0xFF, 0xFF, 0x0F]
    && (forall k :: 16 <= k < 2048 ==> d'[1][k] == d[1][k])
    && d'[3] == data + Zeros(2038)
  }

  lemma NotesEntry(b: seq<byte>)
    requires |b| == 32 && NewImage(b, NOTES_TXT, 0, 3, 10)
    ensures b == [110, 111, 116, 101, 115, 0, 0, 0, 116, 120, 116, 0, 0xAA, 0, 0, 0,
                  0, 0, 0, 0, 0, 0, 0, 0, 0, 0, 3, 0, 10, 0, 0, 0]
  {
    assert b[0..8] + b[8..11] == b[0..11];
    assert forall k :: 0 <= k < 11 ==> b[k] == (NOTES + TXT)[k];
  }

  lemma NotesAre(d: Disk, d': Disk, data: seq<byte>, s: nat, ch: seq<nat>)
    requires RootOnly(d) && |data| == 10 && FileStored(d, d', 2, NOTES_TXT, data, s, ch)
    ensures NotesStored(d, d', data)
  {
    hide Link, NewImage, SameBut;
    NotesSlot(d);
    FirstTaken(d[1], ch, 3);
    NotesEntry(Slot(d'[2], 2));
    LinkBytes(d'[1], 3, 0x0FFF_FFFF);
    assert forall k :: 0 <= k < 12 ==> d'[1][k] == d[1][0..12][k];
    assert d'[ch[0]] == data + Zeros(2038);
  }

  /** The first file of a new volume. */
  lemma FirstFile(d: Disk, data: seq<byte>) returns (d': Disk)
    requires RootOnly(d) && |data| == 10
    ensures FreeSlot(TableOf(d, 2), 0) < SLOTS
    ensures var o := WriteOutcome(d, 2, NOTES_TXT, data); o.code == 0 && d' == Replay(d, o.writes)
    ensures NotesStored(d, d', data)
  {
    hide DecodeTable, DecodeFat, FreeSlot, Link, Stored, WriteOutcome, FreeClusters, NotesStored, FileStored, Replay;
    FreeSlotImage(d[2]);
    NotesSlot(d);
    WriteCode(d, 2, NOTES_TXT, data);
    SomeFree(d[1], 3);
    WrittenOnDisk(d, 2, NOTES_TXT, data);
    d' := Replay(d, WriteOutcome(d, 2, NOTES_TXT, data).writes);
    assert Stored(d, d', 2, NOTES_TXT, data);
    StoredNotes(d, d', data);
  }

  lemma SomeFree(m: Cluster, x: nat)
    requires x in FreeClusters(m)
    ensures FreeClusters(m) != {} && |FreeClusters(m)| >= 1
  {
    assert FreeClusters(m) - {x} <= FreeClusters(m);
  }

  lemma StoredNotes(d: Disk, d': Disk, data: seq<byte>)
    requires RootOnly(d) && |data| == 10 && Stored(d, d', 2, NOTES_TXT, data)
    ensures NotesStored(d, d', data)
  {
    hide NotesStored, FileStored, RootOnly;
    var s: nat, ch: seq<nat> :| FileStored(d, d', 2, NOTES_TXT, data, s, ch);
    NotesAre(d, d', data, s, ch);
  }

  // ---- a directory with the same name behind it ----

  const NOTES_DIR: Key := Key(NOTES, [0, 0, 0])

  lemma SlotKept(c: Cluster, c': Cluster, s: nat, i: nat)
    requires SameBut(c, c', s) && i < 64 && i != s
    ensures Slot(c', i) == Slot(c, i)
  {
    forall k | 0 <= k < 32
      ensures Slot(c', i)[k] == Slot(c, i)[k]
    {
      assert (32 * i + k) / 32 == i;
    }
  }

  lemma MarkedIs(c: Cluster, s: nat)
    requires s < 64
    ensures Marked(c, s) <==> Slot(c, s)[12] == 0xAA
  {
  }

  lemma LinkKept(m: Cluster, m': Cluster, i: nat)
    requires i < 512 && forall k :: 4 * i <= k < 4 * i + 4 ==> m'[k] == m[k]
    ensures Link(m', i) == Link(m, i)
  {
  }

  lemma SlotAfterNotes(d: Disk, d': Disk, data: seq<byte>, s: nat)
    requires RootOnly(d) && |data| == 10 && NotesStored(d, d', data) && s < 64
    ensures Marked(d'[2], s) <==> s < 3
    ensures !WithId(d'[2], s, NOTES_DIR)
  {
    hide Link, SameBut, Slot;
    MarkedIs(d'[2], s);
    MarkedIs(d[2], s);
    if s != 2 {
      SlotKept(d[2], d'[2], 2, s);
      assert s > 2 ==> Slot(d[2], s)[12] == 0 && Slot(d[2], s)[0..8][0] == 0;
    } else {
      assert Slot(d'[2], 2)[8] == 116 && Slot(d'[2], 2)[8..11][0] == Slot(d'[2], 2)[8];
    }
  }

  lemma NamesAfterNotes(d: Disk, d': Disk, data: seq<byte>)
    requires RootOnly(d) && |data| == 10 && NotesStored(d, d', data)
    ensures !WithName(d'[2], 1, NOTES) && WithName(d'[2], 2, NOTES) && ClusterIn(Slot(d'[2], 2)) == 3
  {
    hide Link, SameBut, Slot;
    SlotKept(d[2], d'[2], 2, 1);
    assert Slot(d'[2], 2)[0..8] == NOTES;
  }

  /** With the file in slot 2, slot 3 is next, and no slot has the bare name. */
  lemma AfterNotes(d: Disk, d': Disk, data: seq<byte>)
    requires RootOnly(d) && |data| == 10 && NotesStored(d, d', data)
    ensures !AnyWithId(d'[2], NOTES_DIR) && !AllMarked(d'[2]) && Marked(d'[2], 0)
    ensures forall s :: FirstUnused(d'[2], s) ==> s == 3
  {
    hide Marked, WithId, RootOnly, NotesStored;
    forall s | 0 <= s < 64
      ensures Marked(d'[2], s) <==> s < 3
      ensures !WithId(d'[2], s, NOTES_DIR)
    {
      SlotAfterNotes(d, d', data, s);
    }
    assert Marked(d'[2], 0) && Marked(d'[2], 1) && Marked(d'[2], 2) && !Marked(d'[2], 3);
  }

  lemma LinksAfterNotes(d: Disk, d': Disk, data: seq<byte>)
    requires RootOnly(d) && |data| == 10 && NotesStored(d, d', data)
    ensures Link(d'[1], 2) != 0 && Link(d'[1], 3) != 0 && Link(d'[1], 4) == 0
    ensures 4 in FreeClusters(d'[1])
  {
    LinkKept(d[1], d'[1], 4);
    assert d'[1][0..16][8] == 0xFF && d'[1][0..16][12] == 0xFF;
  }

  /**
   * Two members of one name: on a new volume write "notes.txt", then make a directory "notes".
   * Both succeed, in slots 2 and 3, and `read_directory` of "notes" delivers the file.
   */
  lemma TwoNamesExample(d: Disk, data: seq<byte>) returns (d1: Disk, d2: Disk)
    requires |data| == 10
    ensures var d0 := Replay(d, CreateWrites(ROOT));
      && FreeSlot(TableOf(d0, 2), 0) < SLOTS && WriteOutcome(d0, 2, NOTES_TXT, data).code == 0
      && d1 == Replay(d0, WriteOutcome(d0, 2, NOTES_TXT, data).writes)
    ensures WriteOutcome(d1, 2, NOTES_DIR, []).code == 0 && d2 == Replay(d1, WriteOutcome(d1, 2, NOTES_DIR, []).writes)
    ensures WithName(d2[2], 2, NOTES) && WithName(d2[2], 3, NOTES) && ClusterIn(Slot(d2[2], 3)) == 4
    ensures ReadDirectoryOutcome(d2, 2, NOTES) == Reading(0, data + Zeros(2038), true)
  {
    hide CreateWrites, Replay, RootOnly, WriteOutcome, NotesStored, FreeSlot, DecodeTable, AnyWithId, AllMarked, Stored;
    hide Link, DirectoryStored, WithName, ClusterIn, ReadDirectoryOutcome, Marked, FreeClusters;
    NewRoot(d);
    var d0 := Replay(d, CreateWrites(ROOT));
    d1 := FirstFile(d0, data);
    AfterNotes(d0, d1, data);
    LinksAfterNotes(d0, d1, data);
    SomeFree(d1[1], 4);
    WriteCode(d1, 2, NOTES_DIR, []);
    WrittenOnDisk(d1, 2, NOTES_DIR, []);
    d2 := Replay(d1, WriteOutcome(d1, 2, NOTES_DIR, []).writes);
    assert Stored(d1, d2, 2, NOTES_DIR, []);
    DirectoryAfterNotes(d0, d1, d2, data);
  }

  lemma DirectoryAfterNotes(d0: Disk, d1: Disk, d2: Disk, data: seq<byte>)
    requires RootOnly(d0) && |data| == 10 && NotesStored(d0, d1, data) && Stored(d1, d2, 2, NOTES_DIR, [])
    ensures WithName(d2[2], 2, NOTES) && WithName(d2[2], 3, NOTES) && ClusterIn(Slot(d2[2], 3)) == 4
    ensures ReadDirectoryOutcome(d2, 2, NOTES) == Reading(0, data + Zeros(2038), true)
  {
    hide RootOnly, NotesStored, ClusterIn, ReadDirectoryOutcome, FileStored, DirectoryStored, WithName, Slot;
    hide FirstWithName;
    var s: nat, k: nat :| DirectoryStored(d1, d2, 2, NOTES, s, k);
    DirectoryInThree(d0, d1, d2, data, s, k);
    FirstNamedDelivered(d2, 2, NOTES);
    FileCluster(d0, d1, data);
  }

  lemma DirectoryInThree(d0: Disk, d1: Disk, d2: Disk, data: seq<byte>, s: nat, k: nat)
    requires RootOnly(d0) && |data| == 10 && NotesStored(d0, d1, data) && DirectoryStored(d1, d2, 2, NOTES, s, k)
    ensures FirstWithName(d2[2], 2, NOTES) && WithName(d2[2], 2, NOTES) && ClusterIn(Slot(d2[2], 2)) == 3
    ensures WithName(d2[2], 3, NOTES) && ClusterIn(Slot(d2[2], 3)) == 4 && d2[3] == d1[3]
  {
    hide RootOnly, NotesStored, Link, ClusterIn, Slot, NewImage, SameBut, LowestFree, FirstUnused, DirectoryImage;
    AfterNotes(d0, d1, data);
    NamesAfterNotes(d0, d1, data);
    LinksAfterNotes(d0, d1, data);
    FirstOne(d1[1], k, 4);
    NewCluster(Slot(d2[2], 3), NOTES_DIR, 0x10, 4, 0);
    SlotKept(d1[2], d2[2], 3, 1);
    SlotKept(d1[2], d2[2], 3, 2);
  }

  lemma FirstOne(m: Cluster, k: nat, first: nat)
    requires LowestFree(m, [k]) && 3 <= first < 512 && Link(m, first) == 0
    requires forall x :: 3 <= x < first ==> Link(m, x) != 0
    ensures k == first
  {
    FirstTaken(m, [k], first);
    assert [k][0] == k;
  }

  lemma NewCluster(b: seq<byte>, key: Key, attribute: byte, cluster: uint16, size: uint32)
    requires |b| == 32 && NewImage(b, key, attribute, cluster, size)
    ensures ClusterIn(b) == cluster && b[0..8] == key.name
  {
  }

  lemma FileCluster(d: Disk, d': Disk, data: seq<byte>)
    requires |data| == 10 && NotesStored(d, d', data)
    ensures d'[3] == data + Zeros(2038)
  {
  }
}
