/** A directory table read as an abstract directory: lookups, and counting its members. */
module FatTables {
  import opened FatLayout
  import opened Volume
  import opened ShapeSteps
  import opened VolumeSteps
  import opened FatOps
  import opened AbstractFs

  predicate Distinct(t: Table, slots: set<nat>) {
    && (forall s :: s in slots ==> s < SLOTS)
    && (forall i, j :: i in slots && j in slots && i != j ==> t[i].Id() != t[j].Id())
  }

  function IdsAt(t: Table, slots: set<nat>): set<Key>
    requires forall s :: s in slots ==> s < SLOTS
  {
    set s | s in slots :: t[s].Id()
  }

  lemma {:induction false} IdsCount(t: Table, slots: set<nat>)
    requires Distinct(t, slots)
    ensures |IdsAt(t, slots)| == |slots|
    decreases |slots|
  {
    if slots == {} {
      assert IdsAt(t, slots) == {};
    } else {
      var s :| s in slots;
      var rest := slots - {s};
      IdsCount(t, rest);
      assert t[s].Id() !in IdsAt(t, rest);
      assert IdsAt(t, slots) == IdsAt(t, rest) + {t[s].Id()};
    }
  }

  function Used(t: Table): set<nat> {
    set s: nat | 2 <= s < SLOTS && t[s].Occupied()
  }

  /** The numbers from `lo` up to but excluding `hi`. */
  function Range(lo: nat, hi: nat): (r: set<nat>)
    ensures forall i :: i in r <==> lo <= i < hi
    ensures |r| == if lo <= hi then hi - lo else 0
    decreases hi
  {
    if hi <= lo then {} else Range(lo, hi - 1) + {hi - 1}
  }

  lemma ProperSubsetCount(s: set<nat>, t: set<nat>, x: nat)
    requires s <= t && x in t && x !in s
    ensures |s| < |t|
  {
    assert |t - s| > 0 by {
      assert x in t - s;
    }
    assert |s| + |t - s| == |t| by {
      assert s + (t - s) == t;
    }
  }

  /** As many entries as used slots: names are unique and never blank. */
  lemma EntriesCount(d: Disk, f: Fat, t: Table)
    requires Tidy(t)
    ensures |Entries(d, f, t)| == |Used(t)| <= MEMBERS_MAX
    ensures |Entries(d, f, t)| < MEMBERS_MAX <==> exists s :: 2 <= s < SLOTS && !t[s].Occupied()
  {
    var m := Entries(d, f, t);
    forall s | s in Used(t)
      ensures t[s].Id() in m
    {
      EntriesAt(d, f, t, s);
    }
    assert m.Keys == IdsAt(t, Used(t));
    IdsCount(t, Used(t));
    assert |m| == |m.Keys|;
    UsedCount(t);
  }

  lemma UsedCount(t: Table)
    ensures |Used(t)| <= MEMBERS_MAX
    ensures |Used(t)| < MEMBERS_MAX <==> exists s :: 2 <= s < SLOTS && !t[s].Occupied()
  {
    if s :| 2 <= s < SLOTS && !t[s].Occupied() {
      ProperSubsetCount(Used(t), Range(2, SLOTS), s);
    } else {
      assert Used(t) == Range(2, SLOTS);
    }
  }

  /** `FindId` over the whole table finds exactly what the abstract directory calls taken. */
  lemma FoundIffTaken(d: Disk, f: Fat, tabs: Tables, depth: Depths, p: nat, key: Key)
    requires p in tabs && HeaderOk(tabs, depth, p) && Tidy(tabs[p])
    ensures FindId(tabs[p], key, 0) < SLOTS <==> Taken(DirOf(d, f, tabs[p]), key)
  {
    if FindId(tabs[p], key, 0) < SLOTS {
      FoundIsTaken(d, f, tabs, depth, p, key);
    } else {
      NotFoundNotTaken(d, f, tabs, depth, p, key);
    }
  }

  lemma BlankMeansFull(d: Disk, f: Fat, t: Table)
    requires Tidy(t) && FindId(t, BLANK_KEY, 0) == SLOTS
    ensures |Entries(d, f, t)| == MEMBERS_MAX
  {
    EntriesCount(d, f, t);
    assert forall i :: 2 <= i < SLOTS && !t[i].Occupied() ==> t[i].Id() == BLANK_KEY;
  }

  lemma NotFoundNotTaken(d: Disk, f: Fat, tabs: Tables, depth: Depths, p: nat, key: Key)
    requires p in tabs && HeaderOk(tabs, depth, p) && Tidy(tabs[p])
    requires FindId(tabs[p], key, 0) == SLOTS
    ensures !Taken(DirOf(d, f, tabs[p]), key)
  {
    var t := tabs[p];
    assert t[0].Id() != key && t[1].Id() != key;
    EntryNotYet(d, f, t, key);
    if key == BLANK_KEY {
      BlankMeansFull(d, f, t);
    }
  }

  lemma FoundIsTaken(d: Disk, f: Fat, tabs: Tables, depth: Depths, p: nat, key: Key)
    requires p in tabs && HeaderOk(tabs, depth, p) && Tidy(tabs[p])
    requires FindId(tabs[p], key, 0) < SLOTS
    ensures Taken(DirOf(d, f, tabs[p]), key)
  {
    var t := tabs[p];
    var s := FindId(t, key, 0);
    if s >= 2 && t[s].Occupied() {
      EntriesAt(d, f, t, s);
    } else if s >= 2 {
      EntriesCount(d, f, t);
    }
  }

  /** The slot `write` picks for a new member is past the two header slots. */
  lemma FreeSlotRange(d: Disk, f: Fat, tabs: Tables, depth: Depths, p: nat)
    requires p in tabs && HeaderOk(tabs, depth, p) && Tidy(tabs[p])
    ensures 2 <= FreeSlot(tabs[p], 0)
    ensures FreeSlot(tabs[p], 0) < SLOTS <==> |Entries(d, f, tabs[p])| < MEMBERS_MAX
  {
    var t := tabs[p];
    var s := FreeSlot(t, 0);
    assert t[0].Occupied() && t[1].Occupied();
    hide FreeSlot, HeaderOk, Tidy, Entries;
    EntriesCount(d, f, t);
    if i :| 2 <= i < SLOTS && !t[i].Occupied() {
      assert s <= i;
    }
  }

  /** A name the lookup does not find is free for a new member. */
  lemma NotFoundIsFree(t: Table, key: Key)
    requires FindId(t, key, 0) == SLOTS
    ensures NameFree(t, key)
  {
  }
}
