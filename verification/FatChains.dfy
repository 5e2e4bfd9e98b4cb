/** Chains of clusters in the cluster map, and first-fit lists of free clusters. */
module FatChains {
  import opened FatLayout

  predicate InMap(ch: seq<nat>) {
    forall i :: 0 <= i < |ch| ==> 3 <= ch[i] < CLUSTER_MAP_SIZE
  }

  predicate StrictlyUp(ch: seq<nat>) {
    forall i, j :: 0 <= i < j < |ch| ==> ch[i] < ch[j]
  }

  /** No cluster links to `x`. */
  predicate NoPredecessor(f: Fat, x: nat) {
    forall i :: 0 <= i < CLUSTER_MAP_SIZE ==> f[i] != x
  }

  /** Entry `i` is free, ends a chain, or links upward to an entry in use. */
  predicate LinkOk(f: Fat, i: nat)
    requires i < CLUSTER_MAP_SIZE
  {
    || f[i] == EMPTY_ENTRY
    || f[i] == END_OF_FILE
    || (i < f[i] < CLUSTER_MAP_SIZE && f[f[i]] != EMPTY_ENTRY)
  }

  /**
   * Well-formed cluster map: the three reserved entries hold their values, every link goes
   * strictly upward to an entry in use, and no two entries link to the same cluster.
   */
  predicate FatOk(f: Fat) {
    && f[0] == CLUSTER_0_VALUE && f[1] == CLUSTER_1_VALUE && f[2] == END_OF_FILE
    && (forall i :: 3 <= i < CLUSTER_MAP_SIZE ==> LinkOk(f, i))
    && (forall i, j :: 3 <= i < j < CLUSTER_MAP_SIZE && f[i] == f[j] ==>
          f[i] == EMPTY_ENTRY || f[i] == END_OF_FILE)
  }

  /** The clusters met by following links upward from `c`. */
  function Chain(f: Fat, c: nat): (ch: seq<nat>)
    requires c < CLUSTER_MAP_SIZE
    ensures |ch| >= 1 && ch[0] == c
    ensures forall i :: 0 <= i < |ch| ==> c <= ch[i] < CLUSTER_MAP_SIZE
    decreases CLUSTER_MAP_SIZE - c
  {
    if c < f[c] < CLUSTER_MAP_SIZE then [c] + Chain(f, f[c]) else [c]
  }

  function Last(ch: seq<nat>): nat
    requires |ch| > 0
  {
    ch[|ch| - 1]
  }

  /** In a well-formed map a chain ascends through entries in use and ends in END_OF_FILE. */
  lemma {:induction false} ChainWellFormed(f: Fat, c: nat)
    requires FatOk(f) && 3 <= c < CLUSTER_MAP_SIZE && f[c] != EMPTY_ENTRY
    ensures var ch := Chain(f, c);
      InMap(ch) && StrictlyUp(ch) && f[Last(ch)] == END_OF_FILE
      && (forall i :: 0 <= i < |ch| ==> f[ch[i]] != EMPTY_ENTRY)
      && (forall i :: 0 <= i < |ch| - 1 ==> f[ch[i]] == ch[i + 1])
    decreases CLUSTER_MAP_SIZE - c
  {
    assert LinkOk(f, c);
    if c < f[c] < CLUSTER_MAP_SIZE {
      ChainWellFormed(f, f[c]);
      var rest := Chain(f, f[c]);
      assert Chain(f, c) == [c] + rest;
      assert Last([c] + rest) == Last(rest);
    } else {
      assert Chain(f, c) == [c];
    }
  }

  /** A chain depends only on the map entries along it. */
  lemma {:induction false} ChainFrame(f: Fat, g: Fat, c: nat)
    requires c < CLUSTER_MAP_SIZE
    requires forall x :: x in Chain(f, c) ==> f[x] == g[x]
    ensures Chain(g, c) == Chain(f, c)
    decreases CLUSTER_MAP_SIZE - c
  {
    assert c in Chain(f, c);
    if c < f[c] < CLUSTER_MAP_SIZE {
      assert forall x :: x in Chain(f, f[c]) ==> x in Chain(f, c);
      ChainFrame(f, g, f[c]);
    }
  }

  /** Every cluster of a chain but its head is linked to by an earlier one. */
  lemma {:induction false} ChainPredecessor(f: Fat, h: nat, x: nat) returns (p: nat)
    requires h < CLUSTER_MAP_SIZE && x in Chain(f, h) && x != h
    ensures p in Chain(f, h) && p < x && f[p] == x
    decreases CLUSTER_MAP_SIZE - h
  {
    assert h < f[h] < CLUSTER_MAP_SIZE;
    assert Chain(f, h) == [h] + Chain(f, f[h]);
    if x == f[h] {
      p := h;
    } else {
      p := ChainPredecessor(f, f[h], x);
    }
  }

  /** Chains whose heads nobody links to share no cluster. */
  lemma {:induction false} ChainsDisjoint(f: Fat, h: nat, k: nat, x: nat)
    requires FatOk(f)
    requires 3 <= h < CLUSTER_MAP_SIZE && NoPredecessor(f, h)
    requires 3 <= k < CLUSTER_MAP_SIZE && NoPredecessor(f, k)
    requires x in Chain(f, h) && x in Chain(f, k)
    ensures h == k
    decreases x
  {
    if x != h {
      var p := ChainPredecessor(f, h, x);
      var q := ChainPredecessor(f, k, x);
      assert p == q;
      ChainsDisjoint(f, h, k, p);
    } else if x != k {
      var q := ChainPredecessor(f, k, x);
    }
  }

  /** A sequence linked pairwise upward and closed by an end mark is a chain. */
  lemma {:induction false} LinkedIsChain(f: Fat, ch: seq<nat>)
    requires |ch| > 0 && InMap(ch) && StrictlyUp(ch)
    requires forall i :: 0 <= i < |ch| - 1 ==> f[ch[i]] == ch[i + 1]
    requires f[Last(ch)] == END_OF_FILE
    ensures Chain(f, ch[0]) == ch
    decreases |ch|
  {
    if |ch| > 1 {
      var rest := ch[1..];
      forall i | 0 <= i < |rest| - 1
        ensures f[rest[i]] == rest[i + 1]
      {
        assert f[ch[i + 1]] == ch[i + 2];
      }
      LinkedIsChain(f, rest);
      assert f[ch[0]] == ch[1];
      assert ch == [ch[0]] + rest;
    }
  }

  // ---- first-fit lists ----

  function FreeSet(f: Fat): set<nat> {
    set i: nat | 3 <= i < CLUSTER_MAP_SIZE && f[i] == EMPTY_ENTRY
  }

  /** The members of `s` from `from` up to the map size, in ascending order. */
  function Ascending(s: set<nat>, from: nat): (a: seq<nat>)
    ensures forall i :: 0 <= i < |a| ==> a[i] in s && from <= a[i] < CLUSTER_MAP_SIZE
    ensures forall i, j :: 0 <= i < j < |a| ==> a[i] < a[j]
    decreases CLUSTER_MAP_SIZE - from
  {
    if from >= CLUSTER_MAP_SIZE then []
    else if from in s then [from] + Ascending(s, from + 1)
    else Ascending(s, from + 1)
  }

  lemma {:induction false} AscendingComplete(s: set<nat>, from: nat, x: nat)
    requires x in s && from <= x < CLUSTER_MAP_SIZE
    ensures x in Ascending(s, from)
    decreases CLUSTER_MAP_SIZE - from
  {
    if from < x {
      AscendingComplete(s, from + 1, x);
    }
  }

  lemma {:induction false} AscendingSkip(s: set<nat>, from: nat, upTo: nat)
    requires from <= upTo <= CLUSTER_MAP_SIZE
    requires forall x :: from <= x < upTo ==> x !in s
    ensures Ascending(s, from) == Ascending(s, upTo)
    decreases upTo - from
  {
    if from < upTo {
      AscendingSkip(s, from + 1, upTo);
    }
  }

  /** The list has one element per member, so its length counts the free clusters. */
  lemma {:induction false} AscendingCount(s: set<nat>, from: nat)
    requires forall x :: x in s ==> from <= x < CLUSTER_MAP_SIZE
    ensures |Ascending(s, from)| == |s|
    decreases CLUSTER_MAP_SIZE - from
  {
    if from >= CLUSTER_MAP_SIZE {
      assert s == {};
    } else {
      var r := s - {from};
      AscendingCount(r, from + 1);
      AscendingFrame(s, r, from + 1);
      if from in s {
        assert |s| == |r| + 1;
      } else {
        assert s == r;
      }
    }
  }

  lemma {:induction false} AscendingFrame(s: set<nat>, r: set<nat>, from: nat)
    requires forall x :: x >= from ==> (x in s <==> x in r)
    ensures Ascending(s, from) == Ascending(r, from)
    decreases CLUSTER_MAP_SIZE - from
  {
    if from < CLUSTER_MAP_SIZE {
      AscendingFrame(s, r, from + 1);
    }
  }

  // ---- linking a new chain ----

  function DropLast(ch: seq<nat>): seq<nat> {
    if |ch| == 0 then [] else ch[..|ch| - 1]
  }

  /** The map after each cluster of `ch` but the last has been pointed at its successor. */
  function LinkPairs(f: Fat, ch: seq<nat>): Fat
    requires InMap(ch)
  {
    if |ch| < 2 then f
    else LinkPairs(f, DropLast(ch))[ch[|ch| - 2] := ch[|ch| - 1]]
  }

  /** The map after the whole chain has been linked and closed. */
  function LinkChain(f: Fat, ch: seq<nat>): Fat
    requires InMap(ch) && |ch| > 0
  {
    LinkPairs(f, ch)[Last(ch) := END_OF_FILE]
  }

  lemma {:induction false} LinkPairsAt(f: Fat, ch: seq<nat>)
    requires InMap(ch) && StrictlyUp(ch)
    ensures forall i :: 0 <= i < |ch| - 1 ==> LinkPairs(f, ch)[ch[i]] == ch[i + 1]
    ensures forall x :: 0 <= x < CLUSTER_MAP_SIZE && x !in DropLast(ch) ==> LinkPairs(f, ch)[x] == f[x]
  {
    if |ch| >= 2 {
      var init := DropLast(ch);
      LinkPairsAt(f, init);
      forall i | 0 <= i < |ch| - 1
        ensures LinkPairs(f, ch)[ch[i]] == ch[i + 1]
      {
        if i < |ch| - 2 {
          assert LinkPairs(f, init)[init[i]] == init[i + 1];
        }
      }
      assert init[|ch| - 2] == ch[|ch| - 2];
    }
  }

  lemma LinkChainAt(f: Fat, ch: seq<nat>)
    requires InMap(ch) && StrictlyUp(ch) && |ch| > 0
    ensures var g := LinkChain(f, ch);
      && (forall i :: 0 <= i < |ch| - 1 ==> g[ch[i]] == ch[i + 1])
      && g[Last(ch)] == END_OF_FILE
      && (forall x :: 0 <= x < CLUSTER_MAP_SIZE && x !in ch ==> g[x] == f[x])
      && Chain(g, ch[0]) == ch
  {
    LinkPairsAt(f, ch);
    var g := LinkChain(f, ch);
    forall i | 0 <= i < |ch| - 1
      ensures g[ch[i]] == ch[i + 1]
    {
      assert ch[i] < Last(ch);
    }
    forall x | 0 <= x < CLUSTER_MAP_SIZE && x !in ch
      ensures g[x] == f[x]
    {
      assert Last(ch) in ch;
      assert forall y :: y in DropLast(ch) ==> y in ch;
    }
    LinkedIsChain(g, ch);
  }

  /** After linking, a cluster of the chain is closed or links further up the chain. */
  lemma LinkChainInside(f: Fat, ch: seq<nat>, x: nat)
    requires InMap(ch) && StrictlyUp(ch) && x in ch
    ensures var g := LinkChain(f, ch);
      && x < CLUSTER_MAP_SIZE
      && g[x] != EMPTY_ENTRY && g[x] != ch[0]
      && (g[x] == END_OF_FILE || (x < g[x] && exists i :: 0 < i < |ch| && ch[i - 1] == x && ch[i] == g[x]))
  {
    LinkChainAt(f, ch);
    var i :| 0 <= i < |ch| && ch[i] == x;
    if i < |ch| - 1 {
      assert ch[(i + 1) - 1] == x && ch[0] < ch[i + 1];
    }
  }

  /** Every link of the new map goes upward to an entry in use. */
  lemma LinkChainLinks(f: Fat, ch: seq<nat>, i: nat)
    requires FatOk(f) && InMap(ch) && StrictlyUp(ch) && |ch| > 0 && 3 <= i < CLUSTER_MAP_SIZE
    requires forall i :: 0 <= i < |ch| ==> f[ch[i]] == EMPTY_ENTRY
    ensures LinkOk(LinkChain(f, ch), i)
  {
    hide LinkChain;
    LinkChainAt(f, ch);
    var g := LinkChain(f, ch);
    assert LinkOk(f, i);
    if i in ch {
      LinkChainInside(f, ch, i);
      if g[i] != END_OF_FILE {
        LinkChainInside(f, ch, g[i]);
      }
    } else if i < f[i] < CLUSTER_MAP_SIZE {
      assert f[i] !in ch;
    }
  }

  /** The chain takes its clusters from the free set, and no others. */
  lemma LinkChainFree(f: Fat, ch: seq<nat>)
    requires FatOk(f) && InMap(ch) && StrictlyUp(ch) && |ch| > 0
    requires forall i :: 0 <= i < |ch| ==> f[ch[i]] == EMPTY_ENTRY
    ensures FreeSet(LinkChain(f, ch)) == FreeSet(f) - set x | x in ch
  {
    hide LinkChain, FatOk;
    LinkChainAt(f, ch);
    var g := LinkChain(f, ch);
    forall x | 3 <= x < CLUSTER_MAP_SIZE
      ensures g[x] == EMPTY_ENTRY <==> f[x] == EMPTY_ENTRY && x !in ch
    {
      if x in ch {
        LinkChainInside(f, ch, x);
      }
    }
  }

  lemma LinkChainHead(f: Fat, ch: seq<nat>)
    requires FatOk(f) && InMap(ch) && StrictlyUp(ch) && |ch| > 0
    requires forall i :: 0 <= i < |ch| ==> f[ch[i]] == EMPTY_ENTRY
    ensures NoPredecessor(LinkChain(f, ch), ch[0])
  {
    hide LinkChain;
    LinkChainAt(f, ch);
    var g := LinkChain(f, ch);
    forall i | 0 <= i < CLUSTER_MAP_SIZE
      ensures g[i] != ch[0]
    {
      if i in ch {
        LinkChainInside(f, ch, i);
      } else if i >= 3 {
        assert LinkOk(f, i);
      }
    }
  }

  /** Linking a chain through free clusters keeps the map well-formed and frees nothing. */
  lemma LinkChainOk(f: Fat, ch: seq<nat>)
    requires FatOk(f) && InMap(ch) && StrictlyUp(ch) && |ch| > 0
    requires forall i :: 0 <= i < |ch| ==> f[ch[i]] == EMPTY_ENTRY
    ensures FatOk(LinkChain(f, ch))
    ensures FreeSet(LinkChain(f, ch)) == FreeSet(f) - set x | x in ch
    ensures NoPredecessor(LinkChain(f, ch), ch[0])
  {
    hide LinkChain, LinkOk;
    LinkChainAt(f, ch);
    var g := LinkChain(f, ch);
    forall i: nat | 3 <= i < CLUSTER_MAP_SIZE
      ensures LinkOk(g, i)
    {
      LinkChainLinks(f, ch, i);
    }
    forall i, j | 3 <= i < j < CLUSTER_MAP_SIZE && g[i] == g[j]
      ensures g[i] == EMPTY_ENTRY || g[i] == END_OF_FILE
    {
      LinkChainInjective(f, ch, i, j);
    }
    LinkChainFree(f, ch);
    LinkChainHead(f, ch);
  }

  lemma LinkChainInjective(f: Fat, ch: seq<nat>, i: nat, j: nat)
    requires FatOk(f) && InMap(ch) && StrictlyUp(ch) && |ch| > 0
    requires forall i :: 0 <= i < |ch| ==> f[ch[i]] == EMPTY_ENTRY
    requires 3 <= i < j < CLUSTER_MAP_SIZE && LinkChain(f, ch)[i] == LinkChain(f, ch)[j]
    ensures LinkChain(f, ch)[i] == EMPTY_ENTRY || LinkChain(f, ch)[i] == END_OF_FILE
  {
    LinkChainAt(f, ch);
    if i in ch {
      LinkChainInside(f, ch, i);
    }
    if j in ch {
      LinkChainInside(f, ch, j);
    }
    assert LinkOk(f, i) && LinkOk(f, j);
  }
}
