/** `delete` as a whole simulates the abstract delete. */
module FatDelete {
  import opened FatLayout
  import opened FatChains
  import opened Volume
  import opened ShapeSteps
  import opened VolumeSteps
  import opened VolumeEdits
  import opened FatOps
  import opened FatTables
  import opened FatSim
  import opened AbstractFs

  /** Where the lookup of `key` in live directory `p` ends, in terms of the abstract directory. */
  lemma LookupCases(d: Disk, depth: Depths, p: nat, key: Key)
    requires Inv(d, depth) && p in depth && p < IMAGE_CLUSTERS
    ensures p in Abs(d, depth).tree
    ensures var t, dir := TableOf(d, p), Abs(d, depth).tree[p];
      var s := FindId(t, key, 0);
      && (s == 0 <==> IsSelf(dir, key))
      && (s == 1 <==> key == DOT_DOT_KEY && !IsSelf(dir, key))
      && (2 <= s < SLOTS && t[s].Occupied() <==> key in dir.entries)
      && (2 <= s < SLOTS && !t[s].Occupied() ==> key == BLANK_KEY && |dir.entries| < MEMBERS_MAX)
  {
    InvShape(d, depth);
    hide Inv;
    var f, tabs := FatOf(d), TablesOf(d, depth.Keys);
    ShapeTidy(f, tabs, depth, p);
    assert DirOk(f, tabs, depth, p);
    hide Shape;
    TableCases(d, f, tabs, depth, p, key);
  }

  lemma TableCases(d: Disk, f: Fat, tabs: Tables, depth: Depths, p: nat, key: Key)
    requires p in tabs && HeaderOk(tabs, depth, p) && Tidy(tabs[p])
    ensures var t, dir := tabs[p], DirOf(d, f, tabs[p]);
      var s := FindId(t, key, 0);
      && (s == 0 <==> IsSelf(dir, key))
      && (s == 1 <==> key == DOT_DOT_KEY && !IsSelf(dir, key))
      && (2 <= s < SLOTS && t[s].Occupied() <==> key in dir.entries)
      && (2 <= s < SLOTS && !t[s].Occupied() ==> key == BLANK_KEY && |dir.entries| < MEMBERS_MAX)
  {
    var t := tabs[p];
    var s := FindId(t, key, 0);
    if key in Entries(d, f, t) {
      var i := EntryHasSlot(d, f, t, key);
      EntriesAt(d, f, t, i);
    }
    if 2 <= s < SLOTS {
      if t[s].Occupied() {
        EntriesAt(d, f, t, s);
      } else {
        EntriesCount(d, f, t);
      }
    }
  }

  /** A directory shows members exactly when its table holds some. */
  lemma MembersAgree(d: Disk, depth: Depths, k: nat)
    requires Inv(d, depth) && k in depth && k < IMAGE_CLUSTERS
    ensures k in Abs(d, depth).tree
    ensures HasMembers(TableOf(d, k)) <==> Abs(d, depth).tree[k].entries != map[]
  {
    InvShape(d, depth);
    var f, tabs := FatOf(d), TablesOf(d, depth.Keys);
    ShapeTidy(f, tabs, depth, k);
    EntriesEmpty(d, f, TableOf(d, k));
  }

  /** The entries of a directory's header: itself, and a parent that has members. */
  lemma HeaderFacts(d: Disk, depth: Depths, p: nat)
    requires Inv(d, depth) && p in depth && p < IMAGE_CLUSTERS
    ensures p in Abs(d, depth).tree
    ensures var t := TableOf(d, p);
      var up := t[1].cluster;
      && t[0].cluster == p && t[0].filesize == 0 && t[1].filesize == 0
      && up < CLUSTER_MAP_SIZE && up == Abs(d, depth).tree[p].parent && up in depth
      && (p == ROOT_CLUSTER ==> up == ROOT_CLUSTER)
      && (p != ROOT_CLUSTER ==> HasMembers(TableOf(d, up)))
      && p < CLUSTER_MAP_SIZE
  {
    InvShape(d, depth);
    hide Inv;
    var f, tabs := FatOf(d), TablesOf(d, depth.Keys);
    assert DirOk(f, tabs, depth, p);
    assert DirOk(f, tabs, depth, ParentOf(tabs[p]));
    hide Shape;
    if p != ROOT_CLUSTER {
      var i: nat :| Live(tabs, ParentOf(tabs[p]), i) && tabs[ParentOf(tabs[p])][i].cluster == p;
      assert TableOf(d, ParentOf(tabs[p]))[i].Occupied();
    }
  }

  /** A member is a file with its own chain or a live directory below `p`. */
  lemma MemberFacts(d: Disk, depth: Depths, p: nat, s: nat)
    requires Inv(d, depth) && p in depth && p < IMAGE_CLUSTERS
    requires 2 <= s < SLOTS && TableOf(d, p)[s].Occupied()
    ensures p in Abs(d, depth).tree
    ensures var t, tabs := TableOf(d, p), TablesOf(d, depth.Keys);
      var e := t[s];
      var entries := Abs(d, depth).tree[p].entries;
      && FindId(t, e.Id(), 0) == s && e.Id() in entries && Live(tabs, p, s)
      && e.cluster != ROOT_CLUSTER && e.cluster < CLUSTER_MAP_SIZE
      && (if e.filesize == 0 then
            e.attribute == ATTR_SUBDIRECTORY && e.cluster in depth && entries[e.Id()] == SubDir(e.cluster)
          else FileEntryOk(FatOf(d), tabs, e) && entries[e.Id()].File?
               && FatOf(d)[Last(Chain(FatOf(d), e.cluster))] == END_OF_FILE)
  {
    InvShape(d, depth);
    hide Inv;
    var f, tabs := FatOf(d), TablesOf(d, depth.Keys);
    var e := tabs[p][s];
    ShapeTidy(f, tabs, depth, p);
    EntriesAt(d, f, tabs[p], s);
    assert Live(tabs, p, s);
    LiveFile(f, tabs, depth, p, s);
    if e.filesize == 0 {
      assert DirOk(f, tabs, depth, e.cluster);
    } else {
      ChainWellFormed(f, e.cluster);
    }
  }

  lemma EmptyMember(d: Disk, depth: Depths, p: nat, s: nat)
    requires Inv(d, depth) && p in depth && p < IMAGE_CLUSTERS
    requires 2 <= s < SLOTS && TableOf(d, p)[s].Occupied() && TableOf(d, p)[s].filesize == 0
    requires TableOf(d, p)[s].cluster < IMAGE_CLUSTERS && !HasMembers(TableOf(d, TableOf(d, p)[s].cluster))
    ensures CanRemoveDir(FatOf(d), TablesOf(d, depth.Keys), depth, p, s)
    ensures TableOf(d, p)[s].cluster != p
  {
    InvShape(d, depth);
    MemberFacts(d, depth, p, s);
    hide Inv;
    RemoveDirTarget(FatOf(d), TablesOf(d, depth.Keys), depth, p, s);
  }

  lemma RmdirOrder(d: Disk, a: ClusterWrite, b: ClusterWrite, c: ClusterWrite)
    requires a.at != c.at && b.at != c.at && a.at != b.at
    ensures Replay(d, [a, b, c]) == d[c.at := c.data][a.at := a.data][b.at := b.data]
  {
    ReplayThree(d, a, b, c);
  }

  /** The depths of the live directories after a `delete`. */
  function DepthAfterDelete(d: Disk, depth: Depths, p: nat, key: Key): Depths
    requires p < IMAGE_CLUSTERS && DeleteDefined(d, p, key)
  {
    if DeleteOutcome(d, p, key).code == 0 && TableOf(d, p)[FindId(TableOf(d, p), key, 0)].filesize == 0
    then depth - {TableOf(d, p)[FindId(TableOf(d, p), key, 0)].cluster}
    else depth
  }

  lemma DeleteMember(d: Disk, depth: Depths, p: nat, key: Key, s: nat)
    requires Inv(d, depth) && p in depth && p < IMAGE_CLUSTERS
    requires s == FindId(TableOf(d, p), key, 0) && 2 <= s < SLOTS && TableOf(d, p)[s].Occupied()
    requires DeleteDefined(d, p, key) && p in Abs(d, depth).tree
    requires !IsSelf(Abs(d, depth).tree[p], key) && key != DOT_DOT_KEY
    ensures var o, depth' := DeleteOutcome(d, p, key), DepthAfterDelete(d, depth, p, key);
      && Inv(Replay(d, o.writes), depth')
      && (Abs(Replay(d, o.writes), depth'), o.code) == AbstractDelete(Abs(d, depth), p, key)
  {
    hide Inv, TreeOf, TablesOf, DecodeTable, EncodeTable, DecodeFat, EncodeFat, Replay;
    MemberFacts(d, depth, p, s);
    var e := TableOf(d, p)[s];
    if e.filesize != 0 {
      DeleteFileSteps(d, depth, p, s);
    } else {
      MembersAgree(d, depth, e.cluster);
      if HasMembers(TableOf(d, e.cluster)) {
        assert Replay(d, []) == d by {
          NoWrites(d);
        }
      } else {
        EmptyMember(d, depth, p, s);
        InvShape(d, depth);
        RemoveDirTarget(FatOf(d), TablesOf(d, depth.Keys), depth, p, s);
        var t := TableOf(d, p);
        var c, g := EncodeTable(t[s := ZERO_ENTRY]), FatOf(d)[e.cluster := EMPTY_ENTRY];
        RmdirSteps(d, depth, p, s, t, e.cluster, Abs(d, depth), c, g,
                   d[p := c][e.cluster := ZERO_CLUSTER][FAT_CLUSTER := EncodeFat(g)]);
        DirRange(FatOf(d), TablesOf(d, depth.Keys), depth, p);
        RmdirOrder(d, ClusterWrite(e.cluster, ZERO_CLUSTER),
                   ClusterWrite(FAT_CLUSTER, EncodeFat(FatOf(d)[e.cluster := EMPTY_ENTRY])),
                   ClusterWrite(p, EncodeTable(TableOf(d, p)[s := ZERO_ENTRY])));
      }
    }
  }

  lemma NoWrites(d: Disk)
    ensures Replay(d, []) == d
  {
  }

  lemma BlankSlot(d: Disk, depth: Depths, p: nat, s: nat)
    requires Inv(d, depth) && p in depth && p < IMAGE_CLUSTERS && s < SLOTS && !TableOf(d, p)[s].Occupied()
    ensures TableOf(d, p)[s] == ZERO_ENTRY
  {
    InvShape(d, depth);
    ShapeTidy(FatOf(d), TablesOf(d, depth.Keys), depth, p);
  }

  /** What `delete` finds is always safe to follow, whatever the name. */
  lemma DeleteIsDefined(d: Disk, depth: Depths, p: nat, key: Key)
    requires Inv(d, depth) && p in depth && p < IMAGE_CLUSTERS
    ensures DeleteDefined(d, p, key)
  {
    hide Inv, TreeOf, TablesOf, DecodeTable, DecodeFat, FindId;
    HeaderFacts(d, depth, p);
    var s := FindId(TableOf(d, p), key, 0);
    if 2 <= s < SLOTS {
      if TableOf(d, p)[s].Occupied() {
        MemberFacts(d, depth, p, s);
      } else {
        BlankSlot(d, depth, p, s);
      }
    }
  }

  /** `delete` does to the tree what the abstract delete does, and returns the same code. */
  lemma DeleteSimulates(d: Disk, depth: Depths, p: nat, key: Key)
    requires Inv(d, depth) && p in depth && p < IMAGE_CLUSTERS && p in Abs(d, depth).tree
    requires DeleteAllowed(Abs(d, depth).tree[p], p, key)
    ensures DeleteDefined(d, p, key)
    ensures var o, depth' := DeleteOutcome(d, p, key), DepthAfterDelete(d, depth, p, key);
      && Inv(Replay(d, o.writes), depth')
      && (Abs(Replay(d, o.writes), depth'), o.code) == AbstractDelete(Abs(d, depth), p, key)
  {
    hide Inv, TreeOf, TablesOf, DecodeTable, EncodeTable, DecodeFat, EncodeFat;
    DeleteIsDefined(d, depth, p, key);
    LookupCases(d, depth, p, key);
    HeaderFacts(d, depth, p);
    MembersAgree(d, depth, p);
    var s := FindId(TableOf(d, p), key, 0);
    if 2 <= s < SLOTS {
      DeleteMember(d, depth, p, key, s);
    }
  }
}
