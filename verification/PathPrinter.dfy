/** The shell's path printer: from a directory up to the root, and the text turned around. */
module PathPrinter {
  import opened Bytes
  import opened FatLayout
  import opened Volume
  import opened FatTheorems
  import opened FatRead
  import opened FatRuns
  import opened FatExact
  import opened BlockDevice
  import opened FatDriver
  import opened FatSystem
  import opened Tokenizer
  import opened PathText

  const PATH_MAX: nat := 128

  /** A name as a string: up to its first NUL, if it has one. */
  function NameText(name: Name): seq<byte> {
    StringAt(name + [0], 0)
  }

  /** The path of the directory `n` levels below the root. */
  function PathTo(tree: map<nat, Directory>, c: nat, n: nat): seq<byte>
    decreases n
  {
    if n == 0 || c !in tree then [] else PathTo(tree, tree[c].parent, n - 1) + BS + NameText(tree[c].name)
  }

  /** The names met on the way up from there, each followed by a backslash. */
  function Collected(tree: map<nat, Directory>, c: nat, n: nat): seq<byte>
    decreases n
  {
    if n == 0 || c !in tree then [] else NameText(tree[c].name) + BS + Collected(tree, tree[c].parent, n - 1)
  }

  /** A name that reads the same when the order of what its backslashes separate is reversed. */
  predicate Mirrored(s: seq<byte>) {
    TurnAround(s) == s
  }

  predicate AllMirrored(tree: map<nat, Directory>, c: nat, n: nat)
    decreases n
  {
    n == 0 || c !in tree || (Mirrored(NameText(tree[c].name)) && AllMirrored(tree, tree[c].parent, n - 1))
  }

  lemma {:induction false} PathLength(tree: map<nat, Directory>, c: nat, n: nat)
    ensures |PathTo(tree, c, n)| == |Collected(tree, c, n)| == |TurnAround(Collected(tree, c, n))|
    decreases n
  {
    hide Flip, Rev, NameText;
    FlipLength(Rev(Collected(tree, c, n)));
    if n > 0 && c in tree {
      PathLength(tree, tree[c].parent, n - 1);
    }
  }

  /** Turned around, what was collected is the path: if and only if every name on it is mirrored. */
  lemma {:induction false} PathComesOut(tree: map<nat, Directory>, c: nat, n: nat)
    ensures TurnAround(Collected(tree, c, n)) == PathTo(tree, c, n) <==> AllMirrored(tree, c, n)
    decreases n
  {
    if n == 0 || c !in tree {
      assert Flip([]) == [];
    } else {
      var name, p := NameText(tree[c].name), tree[c].parent;
      PathComesOut(tree, p, n - 1);
      PathLength(tree, p, n - 1);
      TurnJoin(name, Collected(tree, p, n - 1));
      var x, y := TurnAround(Collected(tree, p, n - 1)), PathTo(tree, p, n - 1);
      JoinEqual(x, TurnAround(name), y, name);
      hide TurnAround, NameText;
    }
  }

  lemma JoinEqual(x: seq<byte>, s: seq<byte>, y: seq<byte>, t: seq<byte>)
    requires |x| == |y|
    ensures x + BS + s == y + BS + t <==> x == y && s == t
  {
    if x + BS + s == y + BS + t {
      assert x == (x + BS + s)[..|x|] == (y + BS + t)[..|y|] == y;
      assert s == (x + BS + s)[|x| + 1..] == (y + BS + t)[|y| + 1..] == t;
    }
  }

  /** A name is mirrored exactly if the stretches between its backslashes form a palindrome. */
  lemma MirroredIff(s: seq<byte>)
    ensures Mirrored(s) <==> Split(s, BS) == Rev(Split(s, BS))
    ensures BACKSLASH !in s ==> Mirrored(s)
  {
    NamesReversed(s);
    if Split(s, BS) == Rev(Split(s, BS)) {
      SplitInjective(TurnAround(s), s);
    }
    if BACKSLASH !in s {
      TurnName(s);
    }
  }

  /** A name with a backslash in it: "a\b" comes out as "b\a". */
  lemma BackslashExample()
    ensures TurnAround([97, BACKSLASH, 98]) == [98, BACKSLASH, 97] && !Mirrored([97, BACKSLASH, 98])
  {
    TurnName([97]);
    TurnName([98]);
    TurnJoin([97], [98]);
    assert [97] + BS + [98] == [97, BACKSLASH, 98];
  }

  lemma {:induction false} CutsAreBackslashes(s: seq<byte>, i: nat)
    requires i < |Cuts(s, BS)|
    ensures Cuts(s, BS)[i] == BACKSLASH
  {
    if s[0] in BS {
      if i > 0 {
        CutsAreBackslashes(s[1..], i - 1);
      }
    } else {
      CutsAreBackslashes(s[1..], i);
    }
  }

  lemma SplitInjective(s: seq<byte>, t: seq<byte>)
    requires Split(s, BS) == Split(t, BS)
    ensures s == t
  {
    SplitLosesNothing(s, BS);
    SplitLosesNothing(t, BS);
    forall i | 0 <= i < |Cuts(s, BS)|
      ensures Cuts(s, BS)[i] == Cuts(t, BS)[i]
    {
      CutsAreBackslashes(s, i);
      CutsAreBackslashes(t, i);
    }
    assert Cuts(s, BS) == Cuts(t, BS);
  }

  // ---- the walk ----

  /** The text for the directory `c`: its path, or for the root its name. */
  function Gathered(tree: map<nat, Directory>, c: nat, n: nat): seq<byte> {
    if c == ROOT_CLUSTER && c in tree then NameText(tree[c].name) else Collected(tree, c, n)
  }

  lemma NameNoNul(name: Name)
    ensures forall i :: 0 <= i < |NameText(name)| ==> NameText(name)[i] != 0
    ensures |NameText(name)| <= 8 && NameText(name) == name[..|NameText(name)|]
  {
    StringFacts(name + [0], 0);
    assert (name + [0])[8] == 0;
  }

  /** The path a directory should be shown with: from the root down, or for the root its name. */
  function ProperPath(tree: map<nat, Directory>, c: nat, n: nat): seq<byte> {
    if c == ROOT_CLUSTER && c in tree then NameText(tree[c].name) else PathTo(tree, c, n)
  }

  /** Every name shown reads the same with its own stretches in reverse order. */
  predicate NamesMirrored(tree: map<nat, Directory>, c: nat, n: nat) {
    if c == ROOT_CLUSTER && c in tree then Mirrored(NameText(tree[c].name)) else AllMirrored(tree, c, n)
  }

  /** The text gathered, turned around, is the proper path exactly if all names are mirrored. */
  lemma TextIs(tree: map<nat, Directory>, c: nat, n: nat)
    ensures TurnAround(Gathered(tree, c, n)) == ProperPath(tree, c, n) <==> NamesMirrored(tree, c, n)
  {
    PathComesOut(tree, c, n);
  }

  /** On a volume as created, the printer shows the root as "root". */
  lemma RootText(name: Name)
    requires RootName(name)
    ensures NameText(name) == [114, 111, 111, 116] && Mirrored(NameText(name))
  {
    var root := [114, 111, 111, 116];
    assert forall i :: 0 <= i < 5 ==> name[i] == name[..5][i];
    assert (name + [0])[0..4] == root;
    StringIs(name + [0], 0, root);
    TurnName(root);
  }

  /** Directory "b" in directory "a" in the root is shown as "\a\b". */
  lemma PathExample(tree: map<nat, Directory>)
    requires 3 in tree && tree[3].name == [97, 0, 0, 0, 0, 0, 0, 0] && tree[3].parent == ROOT_CLUSTER
    requires 4 in tree && tree[4].name == [98, 0, 0, 0, 0, 0, 0, 0] && tree[4].parent == 3
    ensures ProperPath(tree, 4, 2) == [92, 97, 92, 98] == TurnAround(Gathered(tree, 4, 2))
  {
    hide NameText, TurnAround, Mirrored;
    ShortName(tree[3].name, 97);
    ShortName(tree[4].name, 98);
    assert PathTo(tree, 3, 1) == [] + BS + [97];
    assert PathTo(tree, 4, 2) == ([] + BS + [97]) + BS + [98];
    assert AllMirrored(tree, 3, 1);
    TextIs(tree, 4, 2);
  }

  lemma ShortName(name: Name, c: byte)
    requires c != 0 && c != BACKSLASH && name == [c, 0, 0, 0, 0, 0, 0, 0]
    ensures NameText(name) == [c] && Mirrored(NameText(name))
  {
    assert (name + [0])[0..1] == [c];
    StringIs(name + [0], 0, [c]);
    TurnName([c]);
  }

  /** The zero-filled buffer `m` holds the string `s`. */
  predicate Filled(m: seq<byte>, s: seq<byte>) {
    |s| < |m| && m[..|s|] == s && forall i :: |s| <= i < |m| ==> m[i] == 0
  }

  predicate NoNul(s: seq<byte>) {
    forall i :: 0 <= i < |s| ==> s[i] != 0
  }

  /** `strncpy` of the eight bytes of a name, then `strlen`. */
  method NameLength(table: array<byte>) returns (n: nat)
    requires table.Length >= 8
    ensures n == |NameText(table[..8])| && n <= 8 && table[..n] == NameText(table[..8])
  {
    var m := table[..8] + [0];
    n := 0;
    while n < 8 && table[n] != 0
      invariant n <= 8 && forall i :: 0 <= i < n ==> m[i] != 0
    {
      n := n + 1;
    }
    StringIs(m, 0, m[..n]);
    assert m[0..n] == m[..n] == table[..n];
  }

  /** Copies the name at the front of a table to the end of the text, and a backslash if wanted. */
  method AppendName(temp: array<byte>, prog: nat, table: array<byte>, separate: bool, ghost s: seq<byte>)
      returns (prog': nat)
    requires temp != table && table.Length >= 8
    requires |s| == prog && Filled(temp[..], s) && NoNul(s)
    requires prog + |NameText(table[..8])| + (if separate then 1 else 0) < temp.Length
    modifies temp
    ensures var s' := s + NameText(table[..8]) + (if separate then BS else []);
      |s'| == prog' && Filled(temp[..], s') && NoNul(s')
  {
    var n := NameLength(table);
    NameNoNul(table[..8]);
    ghost var name := NameText(table[..8]);
    hide NameText;
    MemCpy(temp, prog, table, 0, n);
    prog' := prog + n;
    if separate {
      temp[prog'] := BACKSLASH;
      prog' := prog' + 1;
    }
  }

  /** Parents are directories, one level up; only the root is its own parent. */
  ghost predicate Climbable(tree: map<nat, Directory>, depth: Depths) {
    forall c {:trigger tree[c]} :: c in tree ==>
      var p := tree[c].parent;
      && c in depth && p in tree && p in depth
      && (if c == ROOT_CLUSTER then p == ROOT_CLUSTER && depth[c] == 0 else p != c && depth[c] == depth[p] + 1)
  }

  lemma VolumeClimbable(s: Machine, depth: Depths, a: Abstract)
    requires Stands(s, depth, a)
    ensures Climbable(a.tree, depth)
  {
    hide Stands;
    forall c {:trigger a.tree[c]} | c in a.tree
      ensures var p := a.tree[c].parent;
        && c in depth && p in a.tree && p in depth
        && (if c == ROOT_CLUSTER then p == ROOT_CLUSTER && depth[c] == 0 else p != c && depth[c] == depth[p] + 1)
    {
      HeadersOf(s, depth, a, c);
    }
  }

  /** One step up: the text gathered so far and what is still to come. */
  lemma StepUp(tree: map<nat, Directory>, depth: Depths, c: nat, sofar: seq<byte>, goal: seq<byte>)
    requires Climbable(tree, depth) && c in tree && c in depth && sofar + Gathered(tree, c, depth[c]) == goal
    ensures var p := tree[c].parent;
      var next := sofar + NameText(tree[c].name) + (if c == p then [] else BS);
      && p in tree && p in depth && (c == p <==> c == ROOT_CLUSTER)
      && |next| <= |goal|
      && (p == ROOT_CLUSTER ==> next == goal)
      && (p != ROOT_CLUSTER ==> depth[p] < depth[c] && next + Gathered(tree, p, depth[p]) == goal)
  {
    hide NameText;
    var p := tree[c].parent;
    var name := NameText(tree[c].name);
    if c == ROOT_CLUSTER {
      assert sofar + name + [] == goal;
    } else {
      var rest := Collected(tree, p, depth[c] - 1);
      assert Gathered(tree, c, depth[c]) == name + BS + rest;
      assert sofar + (name + BS + rest) == sofar + name + BS + rest;
      if p == ROOT_CLUSTER {
        assert depth[p] == 0;
      }
    }
  }

  lemma NameInTable(table: Cluster)
    ensures DecodeTable(table)[0].name == table[..8]
  {
    assert EntryBytes(table, 0)[..8] == table[..8];
  }

  /** The entries of a delivered table the printer looks at. */
  lemma TableSays(s: Machine, depth: Depths, a: Abstract, c: nat)
    requires Stands(s, depth, a) && c in a.tree
    ensures c < IMAGE_CLUSTERS
    ensures var t := DecodeTable(s.disk[c]);
      && t[0].name == s.disk[c][..8] == a.tree[c].name
      && t[0].cluster == c && t[1].cluster == a.tree[c].parent
  {
    hide Stands, DecodeTable;
    HeadersOf(s, depth, a, c);
    NameInTable(s.disk[c]);
  }

  /** Reads a directory's own table: the cluster numbers in its first two entries. */
  method ReadHeaders(drv: Driver, table: array<byte>, c: nat, ghost depth: Depths, ghost a: Abstract)
      returns (self: nat, parent: nat)
    requires drv.Valid() && drv.Apart(table) && table.Length == CLUSTER_SIZE && Mounted(drv, depth, a) && c in a.tree
    modifies drv.dirTable, table
    ensures Mounted(drv, depth, a) && drv.Disk() == old(drv.Disk())
    ensures self == c && parent == a.tree[c].parent && table[..8] == a.tree[c].name
  {
    hide Stands, DecodeTable, ListingBytes, ClustersOf;
    TableSays(Machine(drv.Disk(), drv.Cached()), depth, a, c);
    var code := ReadOwnTable(drv, table, c, depth, a);
    assert table[..CLUSTER_SIZE] == table[..];
    assert table[..][..8] == table[..8];
    var t := DecodeTable(table[..]);
    self, parent := t[0].cluster, t[1].cluster;
  }

  /** Gathered so far is `sofar`, in `temp`; from `current` on the rest of `goal` is to come. */
  ghost predicate Climbing(tree: map<nat, Directory>, depth: Depths, current: nat, more: bool,
                           temp: seq<byte>, sofar: seq<byte>, goal: seq<byte>) {
    && current in tree && current in depth && Filled(temp, sofar) && NoNul(sofar)
    && (if more then sofar + Gathered(tree, current, depth[current]) == goal else sofar == goal)
  }

  /** One pass of the walk. */
  method ClimbOnce(drv: Driver, current: nat, table: array<byte>, temp: array<byte>, prog: nat,
                   ghost depth: Depths, ghost a: Abstract, ghost sofar: seq<byte>, ghost goal: seq<byte>)
      returns (parent: nat, prog': nat, ghost sofar': seq<byte>)
    requires drv.Valid() && drv.Apart(temp) && drv.Apart(table) && temp != table && table.Length == CLUSTER_SIZE
    requires Mounted(drv, depth, a) && Climbable(a.tree, depth)
    requires Climbing(a.tree, depth, current, true, temp[..], sofar, goal) && |sofar| == prog
    requires |goal| < temp.Length
    modifies drv.dirTable, temp, table
    ensures Mounted(drv, depth, a) && drv.Disk() == old(drv.Disk()) && |sofar'| == prog'
    ensures Climbing(a.tree, depth, parent, parent != ROOT_CLUSTER, temp[..], sofar', goal)
    ensures parent != ROOT_CLUSTER ==> depth[parent] < depth[current]
  {
    hide Stands, ClustersOf, Climbable, Gathered, Filled, NoNul, NameText;
    StepUp(a.tree, depth, current, sofar, goal);
    var self;
    self, parent := ReadHeaders(drv, table, current, depth, a);
    hide Mounted;
    ghost var name := NameText(table[..8]);
    sofar' := sofar + name + (if self == parent then [] else BS);
    assert |sofar'| == prog + |name| + (if self == parent then 0 else 1);
    prog' := AppendName(temp, prog, table, self != parent, sofar);
  }

  /** The walk up: reads table after table until the parent is the root. */
  method Gather(drv: Driver, c: nat, temp: array<byte>, ghost depth: Depths, ghost a: Abstract)
      returns (prog: nat)
    requires drv.Valid() && drv.Apart(temp) && Mounted(drv, depth, a) && c in a.tree && c in depth
    requires temp.Length == PATH_MAX && forall i :: 0 <= i < PATH_MAX ==> temp[i] == 0
    requires |Gathered(a.tree, c, depth[c])| < PATH_MAX
    modifies drv.dirTable, temp
    ensures Mounted(drv, depth, a) && drv.Disk() == old(drv.Disk())
    ensures var s := Gathered(a.tree, c, depth[c]); |s| == prog && Filled(temp[..], s) && NoNul(s)
  {
    hide Stands, Climbable, ClustersOf, Gathered;
    var table := new byte[CLUSTER_SIZE];
    var current := c;
    prog := 0;
    ghost var goal, sofar: seq<byte> := Gathered(a.tree, c, depth[c]), [];
    StartUp(Machine(drv.Disk(), drv.Cached()), depth, a, goal, temp[..]);
    var more := true;
    hide Mounted, Filled, NoNul;
    while more
      invariant Mounted(drv, depth, a) && drv.Disk() == old(drv.Disk()) && |sofar| == prog
      invariant Climbing(a.tree, depth, current, more, temp[..], sofar, goal)
      decreases more, depth[current]
    {
      current, prog, sofar := ClimbOnce(drv, current, table, temp, prog, depth, a, sofar, goal);
      more := current != ROOT_CLUSTER;
    }
  }

  lemma StartUp(s: Machine, depth: Depths, a: Abstract, goal: seq<byte>, temp: seq<byte>)
    requires Stands(s, depth, a) && |temp| > 0 && forall i :: 0 <= i < |temp| ==> temp[i] == 0
    ensures Climbable(a.tree, depth) && [] + goal == goal && Filled(temp, []) && NoNul([])
  {
    hide Stands, Climbable;
    VolumeClimbable(s, depth, a);
  }

  /** The two reversals. */
  method TurnInPlace(temp: array<byte>, prog: nat, ghost s: seq<byte>)
    requires |s| == prog && Filled(temp[..], s) && NoNul(s)
    modifies temp
    ensures TextTo(temp[..], prog) && temp[..][..prog] == TurnAround(s)
  {
    ghost var m := temp[..];
    assert m[0..prog] == s;
    ReverseRange(temp, 0, prog);
    assert temp[..][..prog] == Rev(s);
    FlipInPlace(temp, prog);
  }

  lemma TextOut(m: seq<byte>, temp: seq<byte>, prog: nat, s: seq<byte>)
    requires prog < |m| && m[prog] == 0 && TextTo(temp, prog) && temp[..prog] == s && m[..prog] == temp[..prog]
    ensures StringAt(m, 0) == s
  {
    assert m[0..prog] == s;
    assert forall i :: 0 <= i < prog ==> s[i] == temp[i];
    StringIs(m, 0, s);
  }

  /**
   * `print_dir_tree` on a mounted volume, for a directory whose path fits the buffer: the walk
   * reaches the root, and the text is what turning around the gathered names gives; that is the
   * path of the directory if and only if all names on it are mirrored.
   */
  method PrintDirTree(drv: Driver, c: nat, text: array<byte>, ghost depth: Depths, ghost a: Abstract)
      returns (prog: nat)
    requires drv.Valid() && drv.Apart(text) && Mounted(drv, depth, a) && c in a.tree && c in depth
    requires |Gathered(a.tree, c, depth[c])| < PATH_MAX && |Gathered(a.tree, c, depth[c])| < text.Length
    modifies drv.dirTable, text
    ensures Mounted(drv, depth, a) && drv.Disk() == old(drv.Disk())
    ensures StringAt(text[..], 0) == TurnAround(Gathered(a.tree, c, depth[c]))
    ensures StringAt(text[..], 0) == ProperPath(a.tree, c, depth[c]) <==> NamesMirrored(a.tree, c, depth[c])
  {
    hide Stands, Gathered, Filled, NoNul, ClustersOf, TurnAround;
    var temp := new byte[PATH_MAX](i => 0);
    prog := Gather(drv, c, temp, depth, a);
    ghost var goal := Gathered(a.tree, c, depth[c]);
    hide Mounted;
    TurnInPlace(temp, prog, goal);
    MemCpy(text, 0, temp, 0, prog);
    text[prog] := 0;
    TextOut(text[..], temp[..], prog, TurnAround(goal));
    TextIs(a.tree, c, depth[c]);
  }
}
