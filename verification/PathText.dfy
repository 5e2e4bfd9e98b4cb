/** Turning a path around: the whole string reversed, then every stretch between backslashes. */
module PathText {
  import opened Bytes
  import opened Tokenizer

  const BACKSLASH: byte := 92
  const BS: seq<byte> := [BACKSLASH]

  function Rev<T>(s: seq<T>): (r: seq<T>)
    ensures |r| == |s| && forall i :: 0 <= i < |s| ==> r[i] == s[|s| - 1 - i]
  {
    seq(|s|, i requires 0 <= i < |s| => s[|s| - 1 - i])
  }

  lemma RevJoin<T>(a: seq<T>, b: seq<T>)
    ensures Rev(a + b) == Rev(b) + Rev(a)
  {
  }

  lemma RevTwice<T>(s: seq<T>)
    ensures Rev(Rev(s)) == s
  {
  }

  /** Every stretch between backslashes reversed where it stands. */
  function Flip(s: seq<byte>): (r: seq<byte>)
    decreases |s|
  {
    var k := FirstOf(s, BS);
    if k == |s| then Rev(s) else Rev(s[..k]) + BS + Flip(s[k + 1..])
  }

  /** What the two passes make of a string. */
  function TurnAround(s: seq<byte>): seq<byte> {
    Flip(Rev(s))
  }

  lemma {:induction false} FlipLength(s: seq<byte>)
    ensures |Flip(s)| == |s|
    decreases |s|
  {
    var k := FirstOf(s, BS);
    if k < |s| {
      FlipLength(s[k + 1..]);
    }
  }

  lemma NoBackslash(s: seq<byte>)
    requires BACKSLASH !in s
    ensures FirstOf(s, BS) == |s| && Flip(s) == Rev(s)
  {
    FirstAt(s, BS, |s|);
    hide FirstOf;
  }

  lemma {:induction false} FirstBefore(x: seq<byte>, y: seq<byte>)
    ensures FirstOf(x + BS + y, BS) == FirstOf(x, BS)
  {
    FirstFacts(x, BS);
    var k := FirstOf(x, BS);
    assert forall j :: 0 <= j < k ==> (x + BS + y)[j] == x[j];
    FirstAt(x + BS + y, BS, k);
  }

  /** Where a joined string is cut first. */
  lemma CutJoin(x: seq<byte>, y: seq<byte>)
    ensures var s, k := x + BS + y, FirstOf(x, BS);
      && FirstOf(s, BS) == k < |s| && s[..k] == x[..k]
      && s[k + 1..] == if k == |x| then y else x[k + 1..] + BS + y
  {
    hide FirstOf;
    FirstBefore(x, y);
    CutBefore(x, y, FirstOf(x, BS));
  }

  lemma CutBefore(x: seq<byte>, y: seq<byte>, k: nat)
    requires k <= |x|
    ensures var s := x + BS + y;
      && s[..k] == x[..k] && s[k + 1..] == if k == |x| then y else x[k + 1..] + BS + y
  {
    var s := x + BS + y;
    assert forall j :: 0 <= j < |x| ==> s[j] == x[j];
    if k == |x| {
      assert s[k + 1..] == y;
    }
  }

  /** A backslash separates: both sides are flipped on their own. */
  lemma {:induction false} FlipJoin(x: seq<byte>, y: seq<byte>)
    ensures Flip(x + BS + y) == Flip(x) + BS + Flip(y)
    decreases |x|
  {
    hide Flip, Rev, FirstOf;
    var k := FirstOf(x, BS);
    CutJoin(x, y);
    FlipUnfold(x);
    FlipUnfold(x + BS + y);
    if k < |x| {
      FlipJoin(x[k + 1..], y);
      Reassociate(Rev(x[..k]), Flip(x[k + 1..]), Flip(y));
    }
  }

  lemma Reassociate(a: seq<byte>, b: seq<byte>, c: seq<byte>)
    ensures a + BS + (b + BS + c) == (a + BS + b) + BS + c
  {
  }

  /** Turning around exchanges the two sides of a backslash. */
  lemma TurnJoin(x: seq<byte>, y: seq<byte>)
    ensures TurnAround(x + BS + y) == TurnAround(y) + BS + TurnAround(x)
  {
    RevJoin(x + BS, y);
    RevJoin(x, BS);
    assert Rev(y) + (Rev(BS) + Rev(x)) == Rev(y) + BS + Rev(x);
    FlipJoin(Rev(y), Rev(x));
  }

  lemma TurnName(s: seq<byte>)
    requires BACKSLASH !in s
    ensures TurnAround(s) == s
  {
    assert forall i :: 0 <= i < |s| ==> s[i] in s;
    NoBackslash(Rev(s));
    RevTwice(s);
  }

  lemma {:induction false} SplitJoin(x: seq<byte>, y: seq<byte>)
    ensures Split(x + BS + y, BS) == Split(x, BS) + Split(y, BS)
    decreases |x|
  {
    hide Split, FirstOf;
    var k := FirstOf(x, BS);
    CutJoin(x, y);
    SplitNext(x, BS);
    SplitNext(x + BS + y, BS);
    if k < |x| {
      SplitJoin(x[k + 1..], y);
      assert [x[..k]] + (Split(x[k + 1..], BS) + Split(y, BS)) == ([x[..k]] + Split(x[k + 1..], BS)) + Split(y, BS);
    } else {
      assert x[..k] == x;
    }
  }

  /** For every string: the same names between the backslashes, in the opposite order. */
  lemma {:induction false} NamesReversed(s: seq<byte>)
    ensures Split(TurnAround(s), BS) == Rev(Split(s, BS))
    decreases |s|
  {
    var k := FirstOf(s, BS);
    FirstFacts(s, BS);
    if k == |s| {
      FirstToIn(s);
      TurnName(s);
      assert Rev([s]) == [s];
    } else {
      var p, rest := s[..k], s[k + 1..];
      assert s == p + BS + rest;
      TurnJoin(p, rest);
      FirstToIn(p);
      TurnName(p);
      NoBackslash(p);
      NamesReversed(rest);
      SplitJoin(TurnAround(rest), p);
      assert Split(p, BS) == [p] == Rev([p]);
      RevJoin([p], Split(rest, BS));
      hide Flip, TurnAround, FirstOf, Rev;
      assert Split(s, BS) == [p] + Split(rest, BS);
    }
  }

  lemma FirstToIn(p: seq<byte>)
    requires forall j :: 0 <= j < |p| ==> p[j] !in BS
    ensures BACKSLASH !in p
  {
  }

  // ---- in place ----

  /** Reverses the bytes from `from` up to `upto`, two pointers moving towards each other. */
  method ReverseRange(mem: array<byte>, from: nat, upto: nat)
    requires from <= upto <= mem.Length
    modifies mem
    ensures var was := old(mem[..]); mem[..] == was[..from] + Rev(was[from..upto]) + was[upto..]
  {
    var start, end: int := from, upto - 1;
    while start < end
      invariant from <= start <= upto && end == from + upto - 1 - start && start <= end + 1
      invariant forall k :: 0 <= k < mem.Length ==>
        mem[k] == if from <= k < start || end < k < upto then old(mem[from + upto - 1 - k]) else old(mem[k])
    {
      var c := mem[start];
      mem[start] := mem[end];
      mem[end] := c;
      start := start + 1;
      end := end - 1;
    }
  }

  /** No NUL before the one at `prog`. */
  predicate TextTo(m: seq<byte>, prog: nat) {
    prog < |m| && m[prog] == 0 && forall i :: 0 <= i < prog ==> m[i] != 0
  }

  /** Flipping what stands from `start` on gives `goal`; past the end there is nothing left to do. */
  predicate ToFlip(m: seq<byte>, start: nat, prog: nat, goal: seq<byte>)
    requires prog < |m|
  {
    if start <= prog then m[..start] + Flip(m[start..prog]) == goal else start == prog + 1 && m[..prog] == goal
  }

  /** What is left to do after the stretch from `start` up to `end` has been reversed. */
  lemma FlipStep(m: seq<byte>, m': seq<byte>, start: nat, end: nat, prog: nat, goal: seq<byte>)
    requires start < prog < |m| && ToFlip(m, start, prog, goal)
    requires end == start + FirstOf(m[start..prog], BS)
    requires m' == m[..start] + Rev(m[start..end]) + m[end..]
    ensures |m'| == |m| && ToFlip(m', end + 1, prog, goal)
  {
    hide Flip, FirstOf, Rev;
    var s, r := m[start..prog], Rev(m[start..end]);
    FlipUnfold(s);
    assert s[..end - start] == m[start..end];
    if end < prog {
      var rest := Flip(m[end + 1..prog]);
      assert s[end - start + 1..] == m[end + 1..prog];
      Spliced(m, m', start, r, end, prog);
      assert m[..start] + (r + BS + rest) == m[..start] + r + BS + rest;
    } else {
      assert m'[..prog] == m[..start] + r;
    }
  }

  lemma FlipUnfold(s: seq<byte>)
    ensures var k := FirstOf(s, BS);
      && (k < |s| ==> s[k] == BACKSLASH)
      && Flip(s) == if k == |s| then Rev(s) else Rev(s[..k]) + BS + Flip(s[k + 1..])
    ensures FirstOf(s, BS) == |s| ==> s[..FirstOf(s, BS)] == s
  {
    FirstFacts(s, BS);
  }

  lemma Spliced(m: seq<byte>, m': seq<byte>, start: nat, r: seq<byte>, end: nat, prog: nat)
    requires start <= end < prog < |m| && |r| == end - start && m' == m[..start] + r + m[end..]
    ensures |m'| == |m| && m'[..end + 1] == m[..start] + r + [m[end]] && m'[end + 1..prog] == m[end + 1..prog]
  {
    assert forall j :: end <= j < |m| ==> m'[j] == m[j];
    assert m'[..end] == m[..start] + r;
  }

  /** Reversing a stretch of a text leaves a text, and all behind the stretch as it was. */
  lemma TextStep(m: seq<byte>, m': seq<byte>, from: nat, upto: nat, prog: nat)
    requires from <= upto <= prog && TextTo(m, prog)
    requires m' == m[..from] + Rev(m[from..upto]) + m[upto..]
    ensures TextTo(m', prog) && m'[prog..] == m[prog..]
  {
  }

  /** The search for the next backslash, from `start` in a text that ends at `prog`. */
  method NextSeparator(mem: array<byte>, start: nat, prog: nat) returns (end: nat)
    requires start <= prog && TextTo(mem[..], prog)
    ensures end == start + FirstOf(mem[..][start..prog], BS)
  {
    StringIs(mem[..], start, mem[..][start..prog]);
    FirstMember(mem[..][start..prog]);
    var r := StrChr(mem, start, BACKSLASH);
    end := if r == -1 then prog else r;
  }

  lemma FirstMember(s: seq<byte>)
    ensures BACKSLASH in s <==> FirstOf(s, BS) < |s|
  {
    FirstFacts(s, BS);
  }

  /** The loop that reverses each directory name, searching for the next backslash each time. */
  method FlipInPlace(mem: array<byte>, prog: nat)
    requires TextTo(mem[..], prog)
    modifies mem
    ensures TextTo(mem[..], prog) && mem[..][..prog] == Flip(old(mem[..])[..prog])
    ensures mem[..][prog..] == old(mem[..])[prog..]
  {
    ghost var was := mem[..];
    ghost var goal := Flip(was[..prog]);
    var start: nat := 0;
    assert was[..0] + Flip(was[0..prog]) == goal;
    hide Flip, FirstOf, Rev, TextTo;
    while start < prog
      invariant TextTo(mem[..], prog) && mem[..][prog..] == was[prog..]
      invariant ToFlip(mem[..], start, prog, goal)
    {
      ghost var m := mem[..];
      var end := NextSeparator(mem, start, prog);
      ReverseRange(mem, start, end);
      TextStep(m, mem[..], start, end, prog);
      FlipStep(m, mem[..], start, end, prog, goal);
      hide ToFlip;
      start := end + 1;
    }
    FlipDone(mem[..], start, prog, goal);
  }

  lemma FlipDone(m: seq<byte>, start: nat, prog: nat, goal: seq<byte>)
    requires prog < |m| && start >= prog && ToFlip(m, start, prog, goal)
    ensures m[..prog] == goal
  {
    assert Flip([]) == [];
  }
}
