/** C strings in arrays, the string search, and the tokeniser that cuts a string up in place. */
module Tokenizer {
  import opened Bytes

  // ---- strings in memory ----

  /** The NUL-terminated string at `i`, as far as there is one. */
  function StringAt(mem: seq<byte>, i: nat): (s: seq<byte>)
    requires i <= |mem|
    ensures i + |s| <= |mem|
    decreases |mem| - i
  {
    if i == |mem| || mem[i] == 0 then [] else [mem[i]] + StringAt(mem, i + 1)
  }

  lemma {:induction false} StringFacts(mem: seq<byte>, i: nat)
    requires i <= |mem|
    ensures var s := StringAt(mem, i);
      && s == mem[i..i + |s|] && (i + |s| < |mem| ==> mem[i + |s|] == 0)
      && forall j :: 0 <= j < |s| ==> s[j] != 0
    decreases |mem| - i
  {
    if i < |mem| && mem[i] != 0 {
      StringFacts(mem, i + 1);
    }
  }

  /** There is a terminator at or after `i`. */
  predicate Terminated(mem: seq<byte>, i: nat) {
    i <= |mem| && i + |StringAt(mem, i)| < |mem|
  }

  /** Whatever runs without a NUL up to one is the string there. */
  lemma {:induction false} StringIs(mem: seq<byte>, i: nat, s: seq<byte>)
    requires i + |s| < |mem| && mem[i..i + |s|] == s && mem[i + |s|] == 0
    requires forall j :: 0 <= j < |s| ==> s[j] != 0
    ensures StringAt(mem, i) == s && Terminated(mem, i)
    decreases |s|
  {
    if s != [] {
      assert s[0] == mem[i];
      assert mem[i + 1..i + 1 + |s[1..]|] == s[1..];
      StringIs(mem, i + 1, s[1..]);
    }
  }

  /** The first position of a character of `ds`; the length if there is none. */
  function FirstOf(s: seq<byte>, ds: seq<byte>): (k: nat)
    ensures k <= |s|
  {
    if s == [] || s[0] in ds then 0 else 1 + FirstOf(s[1..], ds)
  }

  lemma {:induction false} FirstFacts(s: seq<byte>, ds: seq<byte>)
    ensures var k := FirstOf(s, ds);
      (forall i :: 0 <= i < k ==> s[i] !in ds) && (k < |s| ==> s[k] in ds)
  {
    if s != [] && s[0] !in ds {
      FirstFacts(s[1..], ds);
      var k := FirstOf(s[1..], ds);
      assert forall i :: 0 <= i < k ==> s[i + 1] == s[1..][i];
    }
  }

  /** `strchr`: where `c` first stands in the string at `from`, or -1. */
  method StrChr(mem: array<byte>, from: nat, c: byte) returns (r: int)
    requires Terminated(mem[..], from)
    ensures var s := StringAt(mem[..], from);
      if c == 0 then r == from + |s|
      else if c in s then r == from + FirstOf(s, [c])
      else r == -1
  {
    ghost var s := StringAt(mem[..], from);
    StringFacts(mem[..], from);
    hide StringAt, FirstOf;
    var i: nat := 0;
    while mem[from + i] != 0
      invariant i <= |s| && c !in s[..i]
      decreases |s| - i
    {
      assert i < |s| && mem[from + i] == s[i];
      if mem[from + i] == c {
        FirstAt(s, [c], i);
        return from + i;
      }
      i := i + 1;
    }
    assert i == |s|;
    assert s[..i] == s;
    r := if c == 0 then from + i else -1;
  }

  lemma FirstAt(s: seq<byte>, ds: seq<byte>, i: nat)
    requires i <= |s| && (forall j :: 0 <= j < i ==> s[j] !in ds) && (i < |s| ==> s[i] in ds)
    ensures FirstOf(s, ds) == i
  {
    FirstFacts(s, ds);
  }

  // ---- cutting a string into pieces ----

  /** The maximal stretches free of delimiters, including empty ones. */
  function Split(s: seq<byte>, ds: seq<byte>): (ps: seq<seq<byte>>)
    ensures |ps| > 0
    decreases |s|
  {
    var k := FirstOf(s, ds);
    if k == |s| then [s] else [s[..k]] + Split(s[k + 1..], ds)
  }

  /** The delimiters of a string, in order. */
  function Cuts(s: seq<byte>, ds: seq<byte>): (r: seq<byte>) {
    if s == [] then [] else (if s[0] in ds then [s[0]] else []) + Cuts(s[1..], ds)
  }

  /** Pieces with the given characters between them. */
  function Interleave(ps: seq<seq<byte>>, cs: seq<byte>): seq<byte>
    requires |ps| == |cs| + 1
  {
    if cs == [] then ps[0] else ps[0] + [cs[0]] + Interleave(ps[1..], cs[1..])
  }

  /** The string with every delimiter overwritten by a terminator. */
  function Cut(s: seq<byte>, ds: seq<byte>): (r: seq<byte>)
    ensures |r| == |s|
  {
    seq(|s|, i requires 0 <= i < |s| => if s[i] in ds then 0 else s[i])
  }

  lemma {:induction false} CutsFrom(s: seq<byte>, ds: seq<byte>)
    ensures var k := FirstOf(s, ds);
      Cuts(s, ds) == if k == |s| then [] else [s[k]] + Cuts(s[k + 1..], ds)
  {
    hide Cuts, FirstOf;
    CutsStep(s, ds);
    if s != [] && s[0] !in ds {
      var k := FirstOf(s[1..], ds);
      CutsFrom(s[1..], ds);
      if k < |s[1..]| {
        assert s[1..][k + 1..] == s[k + 2..];
      }
    }
  }

  lemma CutsStep(s: seq<byte>, ds: seq<byte>)
    ensures s == [] ==> FirstOf(s, ds) == 0 && Cuts(s, ds) == []
    ensures s != [] && s[0] in ds ==> FirstOf(s, ds) == 0 && Cuts(s, ds) == [s[0]] + Cuts(s[1..], ds)
    ensures s != [] && s[0] !in ds ==> FirstOf(s, ds) == 1 + FirstOf(s[1..], ds) && Cuts(s, ds) == Cuts(s[1..], ds)
  {
  }

  /** Pieces and delimiters together give the string back, and no piece holds a delimiter. */
  lemma {:induction false} SplitLosesNothing(s: seq<byte>, ds: seq<byte>)
    ensures |Split(s, ds)| == |Cuts(s, ds)| + 1
    ensures Interleave(Split(s, ds), Cuts(s, ds)) == s
    ensures forall p, c :: p in Split(s, ds) && c in p ==> c !in ds
    decreases |s|
  {
    var k := FirstOf(s, ds);
    CutsFrom(s, ds);
    FirstFacts(s, ds);
    if k < |s| {
      SplitLosesNothing(s[k + 1..], ds);
      assert s == s[..k] + [s[k]] + s[k + 1..];
    }
  }

  /** Splitting undoes interleaving: the pieces are the only ones without delimiters. */
  lemma {:induction false} SplitUnique(ps: seq<seq<byte>>, cs: seq<byte>, ds: seq<byte>)
    requires |ps| == |cs| + 1
    requires forall p, c :: p in ps && c in p ==> c !in ds
    requires forall c :: c in cs ==> c in ds
    ensures Split(Interleave(ps, cs), ds) == ps
  {
    assert ps[0] in ps;
    if cs == [] {
      FirstAt(ps[0], ds, |ps[0]|);
    } else {
      SplitUnique(ps[1..], cs[1..], ds);
      assert cs[0] in cs;
      SplitAtFirst(ps[0], cs[0], Interleave(ps[1..], cs[1..]), ds);
    }
  }

  /** The first piece ends at the first delimiter. */
  lemma SplitAtFirst(p: seq<byte>, c: byte, rest: seq<byte>, ds: seq<byte>)
    requires c in ds && forall x :: x in p ==> x !in ds
    ensures FirstOf(p + [c] + rest, ds) == |p|
    ensures Split(p + [c] + rest, ds) == [p] + Split(rest, ds)
  {
    var s := p + [c] + rest;
    assert forall j :: 0 <= j < |p| ==> s[j] == p[j];
    FirstAt(s, ds, |p|);
    hide FirstOf;
    assert s[..|p|] == p && s[|p| + 1..] == rest;
  }

  // ---- strtok ----

  /** The memory and where the next token starts. */
  datatype Cursor = Cursor(mem: seq<byte>, next: nat)

  predicate CursorOk(t: Cursor) {
    Terminated(t.mem, t.next)
  }

  /** One call: the token ends at the first delimiter, which becomes its terminator. */
  function Advance(t: Cursor, ds: seq<byte>): Cursor
    requires CursorOk(t)
  {
    var s := StringAt(t.mem, t.next);
    var k := FirstOf(s, ds);
    if k == |s| then Cursor(t.mem, t.next + k) else Cursor(t.mem[t.next + k := 0], t.next + k + 1)
  }

  /** The string left, before and after a call, and the token the call leaves behind it. */
  lemma AdvanceCuts(t: Cursor, ds: seq<byte>)
    requires CursorOk(t)
    ensures var s, t' := StringAt(t.mem, t.next), Advance(t, ds);
      var k := FirstOf(s, ds);
      && |t'.mem| == |t.mem| && CursorOk(t')
      && StringAt(t'.mem, t'.next) == (if k == |s| then [] else s[k + 1..])
      && StringAt(t'.mem, t.next) == s[..k]
  {
    var s := StringAt(t.mem, t.next);
    var k := FirstOf(s, ds);
    StringFacts(t.mem, t.next);
    hide FirstOf, StringAt;
    if k == |s| {
      StringIs(t.mem, t.next + k, []);
    } else {
      CutAt(t.mem, t.next, s, k);
    }
  }

  /** Cutting a string at position `k` leaves a string on either side. */
  lemma CutAt(mem: seq<byte>, i: nat, s: seq<byte>, k: nat)
    requires i <= |mem| && s == StringAt(mem, i) && k < |s| && Terminated(mem, i)
    ensures var mem' := mem[i + k := 0];
      && StringAt(mem', i) == s[..k]
      && StringAt(mem', i + k + 1) == s[k + 1..] && Terminated(mem', i + k + 1)
  {
    var mem' := mem[i + k := 0];
    hide StringAt;
    StringFacts(mem, i);
    assert mem'[i..i + k] == s[..k];
    StringIs(mem', i, s[..k]);
    assert mem'[i + k + 1..i + k + 1 + |s[k + 1..]|] == s[k + 1..];
    StringIs(mem', i + k + 1, s[k + 1..]);
  }

  /** The state after `n` calls. */
  function Calls(t: Cursor, ds: seq<byte>, n: nat): (t': Cursor)
    requires CursorOk(t)
    ensures CursorOk(t') && |t'.mem| == |t.mem|
    decreases n
  {
    if n == 0 then t
    else
      AdvanceCuts(t, ds);
      Calls(Advance(t, ds), ds, n - 1)
  }

  /** What call number `n`, from 0, returns: the string at the token when the call is done. */
  function Token(t: Cursor, ds: seq<byte>, n: nat): seq<byte>
    requires CursorOk(t)
  {
    var u := Calls(t, ds, n);
    AdvanceCuts(u, ds);
    StringAt(Advance(u, ds).mem, u.next)
  }

  lemma TokenNext(t: Cursor, ds: seq<byte>, n: nat)
    requires CursorOk(t) && n > 0
    ensures CursorOk(Advance(t, ds))
    ensures Calls(t, ds, n) == Calls(Advance(t, ds), ds, n - 1)
    ensures Token(t, ds, n) == Token(Advance(t, ds), ds, n - 1)
  {
    AdvanceCuts(t, ds);
    hide StringAt, FirstOf, Advance, CursorOk;
  }

  lemma SplitNext(s: seq<byte>, ds: seq<byte>)
    ensures var k := FirstOf(s, ds);
      Split(s, ds) == if k == |s| then [s] else [s[..k]] + Split(s[k + 1..], ds)
  {
    hide FirstOf;
  }

  /** The calls return the pieces of the string, in order, and after them the empty string. */
  lemma {:induction false} TokensArePieces(t: Cursor, ds: seq<byte>, n: nat)
    requires CursorOk(t)
    ensures Token(t, ds, n) == Piece(StringAt(t.mem, t.next), ds, n)
    decreases n
  {
    FirstToken(t, ds, n);
    hide StringAt, Piece, CursorOk;
    if n > 0 {
      TokenNext(t, ds, n);
      hide Token, Calls;
      TokensArePieces(Advance(t, ds), ds, n - 1);
    }
  }

  /** Piece `n` of the string, or the empty string past the last one. */
  function Piece(s: seq<byte>, ds: seq<byte>, n: nat): seq<byte> {
    if n < |Split(s, ds)| then Split(s, ds)[n] else []
  }

  lemma FirstToken(t: Cursor, ds: seq<byte>, n: nat)
    requires CursorOk(t)
    ensures var s, t' := StringAt(t.mem, t.next), Advance(t, ds);
      && CursorOk(t') && Token(t, ds, 0) == Piece(s, ds, 0)
      && (n > 0 ==> Piece(s, ds, n) == Piece(StringAt(t'.mem, t'.next), ds, n - 1))
  {
    hide StringAt, FirstOf, Advance, CursorOk, Split;
    AdvanceCuts(t, ds);
    SplitNext(StringAt(t.mem, t.next), ds);
    SplitNothing(ds);
  }

  lemma SplitNothing(ds: seq<byte>)
    ensures FirstOf([], ds) == 0 && Split([], ds) == [[]]
  {
    SplitNext([], ds);
  }

  /** Once all pieces are out, a call changes nothing. */
  lemma {:induction false} ExhaustedStays(t: Cursor, ds: seq<byte>, n: nat)
    requires CursorOk(t) && n >= |Split(StringAt(t.mem, t.next), ds)|
    ensures Advance(Calls(t, ds, n), ds) == Calls(t, ds, n)
    decreases n
  {
    var s := StringAt(t.mem, t.next);
    AdvanceCuts(t, ds);
    hide StringAt, FirstOf, Advance, CursorOk;
    if FirstOf(s, ds) == |s| {
      StuckStays(Advance(t, ds), ds, n - 1);
    } else {
      ExhaustedStays(Advance(t, ds), ds, n - 1);
    }
  }

  lemma {:induction false} StuckStays(t: Cursor, ds: seq<byte>, n: nat)
    requires CursorOk(t) && StringAt(t.mem, t.next) == []
    ensures Calls(t, ds, n) == t && Advance(t, ds) == t
    decreases n
  {
    if n > 0 {
      StuckStays(t, ds, n - 1);
    }
  }

  /** Memory where the string `s` at `i` has been cut up and all else is as it was. */
  function CutIn(mem: seq<byte>, i: nat, s: seq<byte>, ds: seq<byte>): seq<byte>
    requires i + |s| <= |mem|
  {
    mem[..i] + Cut(s, ds) + mem[i + |s|..]
  }

  lemma NothingCut(mem: seq<byte>, i: nat, s: seq<byte>, ds: seq<byte>)
    requires i + |s| <= |mem| && mem[i..i + |s|] == s && FirstOf(s, ds) == |s|
    ensures CutIn(mem, i, s, ds) == mem
  {
    hide FirstOf;
    FirstFacts(s, ds);
  }

  lemma CutFirst(s: seq<byte>, ds: seq<byte>)
    requires FirstOf(s, ds) < |s|
    ensures var k := FirstOf(s, ds); Cut(s, ds) == s[..k] + [0] + Cut(s[k + 1..], ds)
  {
    hide FirstOf;
    FirstFacts(s, ds);
  }

  lemma CutInNext(mem: seq<byte>, i: nat, s: seq<byte>, ds: seq<byte>, mem': seq<byte>, i': nat)
    requires i + |s| <= |mem| && mem[i..i + |s|] == s && FirstOf(s, ds) < |s|
    requires i' == i + FirstOf(s, ds) + 1 && mem' == mem[i' - 1 := 0]
    ensures CutIn(mem', i', s[FirstOf(s, ds) + 1..], ds) == CutIn(mem, i, s, ds)
  {
    hide FirstOf, Cut;
    var k := FirstOf(s, ds);
    CutFirst(s, ds);
    assert mem'[..i'] == mem[..i] + s[..k] + [0];
  }

  /** The call that finds no delimiter finds nothing to cut. */
  lemma LastCutIn(t: Cursor, ds: seq<byte>)
    requires CursorOk(t) && FirstOf(StringAt(t.mem, t.next), ds) == |StringAt(t.mem, t.next)|
    ensures Advance(t, ds).mem == t.mem == CutIn(t.mem, t.next, StringAt(t.mem, t.next), ds)
  {
    StringFacts(t.mem, t.next);
    hide StringAt, FirstOf, CutIn;
    NothingCut(t.mem, t.next, StringAt(t.mem, t.next), ds);
  }

  /** A call that finds a delimiter leaves the rest of the cutting to do. */
  lemma AdvanceCutIn(t: Cursor, ds: seq<byte>)
    requires CursorOk(t) && FirstOf(StringAt(t.mem, t.next), ds) < |StringAt(t.mem, t.next)|
    ensures var s, t' := StringAt(t.mem, t.next), Advance(t, ds);
      CursorOk(t') && CutIn(t'.mem, t'.next, StringAt(t'.mem, t'.next), ds) == CutIn(t.mem, t.next, s, ds)
  {
    var s, t' := StringAt(t.mem, t.next), Advance(t, ds);
    AdvanceCuts(t, ds);
    assert t.mem[t.next..t.next + |s|] == s by {
      StringFacts(t.mem, t.next);
    }
    hide StringAt, FirstOf, CutIn, CursorOk;
    CutInNext(t.mem, t.next, s, ds, t'.mem, t'.next);
  }

  /** When all pieces are out every delimiter, and nothing else in memory, has been overwritten. */
  lemma {:induction false} AllCut(t: Cursor, ds: seq<byte>, n: nat)
    requires CursorOk(t) && n >= |Split(StringAt(t.mem, t.next), ds)|
    ensures Calls(t, ds, n).mem == CutIn(t.mem, t.next, StringAt(t.mem, t.next), ds)
    decreases n
  {
    hide StringAt, FirstOf, CursorOk, Calls, Token, Split, CutIn, Advance;
    var s := StringAt(t.mem, t.next);
    AdvanceCuts(t, ds);
    SplitNext(s, ds);
    TokenNext(t, ds, n);
    if FirstOf(s, ds) == |s| {
      LastCutIn(t, ds);
      StuckStays(Advance(t, ds), ds, n - 1);
    } else {
      AdvanceCutIn(t, ds);
      AllCut(Advance(t, ds), ds, n - 1);
    }
  }

  /** The loop of `strtok`: stops after the first delimiter, overwriting it, or at the terminator. */
  method CutToken(mem: array<byte>, start: nat, delims: array<byte>) returns (next: nat)
    requires mem != delims && Terminated(mem[..], start) && Terminated(delims[..], 0)
    modifies mem
    ensures Cursor(mem[..], next) == Advance(Cursor(old(mem[..]), start), StringAt(delims[..], 0))
  {
    hide StringAt, FirstOf;
    next := start;
    ghost var was := mem[..];
    ghost var ds, s := StringAt(delims[..], 0), StringAt(was, start);
    StringFacts(was, start);
    while mem[next] != 0
      invariant mem[..] == was && start <= next <= start + |s|
      invariant forall i :: 0 <= i < next - start ==> s[i] !in ds
      decreases start + |s| - next
    {
      ghost var i := next - start;
      assert mem[next] == s[i];
      var found := StrChr(delims, 0, mem[next]);
      if found != -1 {
        FirstAt(s, ds, i);
        mem[next] := 0;
        next := next + 1;
        return;
      }
      next := next + 1;
    }
    FirstAt(s, ds, |s|);
  }

  /** `strtok` with its static `next_token`, a place in `text`. */
  class Strtok {
    var text: array?<byte>
    var next: nat

    constructor ()
      ensures text == null
    {
      text, next := null, 0;
    }

    /** Starts on a new string, or goes on with the last one. Returns where the token starts. */
    method Next(str: array?<byte>, delims: array<byte>) returns (start: nat, none: bool)
      requires Terminated(delims[..], 0)
      requires str != null ==> str != delims && Terminated(str[..], 0)
      requires str == null && text != null ==> text != delims && Terminated(text[..], next)
      modifies this, str, text
      ensures none <==> str == null && old(text) == null
      ensures text == if str != null then str else old(text)
      ensures !none ==>
        var t := if str != null then Cursor(old(str[..]), 0) else Cursor(old(text[..]), old(next));
        && start == t.next && Terminated(text[..], next)
        && Cursor(text[..], next) == Advance(t, StringAt(old(delims[..]), 0))
      ensures str != null && old(text) != null && old(text) != str ==> old(text)[..] == old(text[..])
    {
      start, none := 0, false;
      if str != null {
        text, next := str, 0;
      }
      if text == null {
        none := true;
        return;
      }
      ghost var t := Cursor(text[..], next);
      AdvanceCuts(t, StringAt(delims[..], 0));
      start := next;
      next := CutToken(text, start, delims);
    }
  }
}
