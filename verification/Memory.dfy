/** Moving and comparing memory. */
module Memory {
  import opened Bytes

  /** Memory after `n` bytes at `src` have been copied to `dest`. */
  function Moved(mem: seq<byte>, dest: nat, src: nat, n: nat): (r: seq<byte>)
    requires dest + n <= |mem| && src + n <= |mem|
    ensures |r| == |mem|
  {
    mem[..dest] + mem[src..src + n] + mem[dest + n..]
  }

  lemma MovedNone(mem: seq<byte>, dest: nat, src: nat)
    requires dest <= |mem| && src <= |mem|
    ensures Moved(mem, dest, src, 0) == mem
  {
  }

  lemma MovedOneMore(was: seq<byte>, dest: nat, src: nat, n: nat)
    requires dest < src && src + n < |was|
    ensures Moved(was, dest, src, n)[src + n] == was[src + n]
    ensures Moved(was, dest, src, n)[dest + n := was[src + n]] == Moved(was, dest, src, n + 1)
  {
  }

  lemma MovedOneBefore(was: seq<byte>, dest: nat, src: nat, n: nat)
    requires 0 < src <= dest && dest + n <= |was|
    ensures Moved(was, dest, src, n)[src - 1] == was[src - 1]
    ensures Moved(was, dest, src, n)[dest - 1 := was[src - 1]] == Moved(was, dest - 1, src - 1, n + 1)
  {
  }

  lemma MovedBytes(mem: seq<byte>, dest: nat, src: nat, n: nat)
    requires dest + n <= |mem| && src + n <= |mem|
    ensures forall k :: 0 <= k < |mem| ==>
      Moved(mem, dest, src, n)[k] == if dest <= k < dest + n then mem[src + k - dest] else mem[k]
  {
  }

  /** The loop of `memmove` from the front: right when it moves bytes down. */
  method MoveDown(mem: array<byte>, dest: nat, src: nat, n: nat)
    requires dest < src && src + n <= mem.Length
    modifies mem
    ensures mem[..] == Moved(old(mem[..]), dest, src, n)
  {
    hide Moved;
    MovedNone(mem[..], dest, src);
    for i := 0 to n
      invariant mem[..] == Moved(old(mem[..]), dest, src, i)
    {
      MovedOneMore(old(mem[..]), dest, src, i);
      mem[dest + i] := mem[src + i];
    }
  }

  /** The loop from the back: right when it moves bytes up. */
  method MoveUp(mem: array<byte>, dest: nat, src: nat, n: nat)
    requires src <= dest && dest + n <= mem.Length
    modifies mem
    ensures mem[..] == Moved(old(mem[..]), dest, src, n)
  {
    hide Moved;
    MovedNone(mem[..], dest + n, src + n);
    var i: nat := n;
    while i != 0
      invariant i <= n && mem[..] == Moved(old(mem[..]), dest + i, src + i, n - i)
    {
      MovedOneBefore(old(mem[..]), dest + i, src + i, n - i);
      mem[dest + i - 1] := mem[src + i - 1];
      i := i - 1;
    }
  }

  /** `memmove` inside one piece of memory: right also when source and destination overlap. */
  method MemMove(mem: array<byte>, dest: nat, src: nat, n: nat)
    requires dest + n <= mem.Length && src + n <= mem.Length
    modifies mem
    ensures mem[..] == Moved(old(mem[..]), dest, src, n)
    ensures forall k :: 0 <= k < mem.Length ==>
      mem[k] == old(if dest <= k < dest + n then mem[src + k - dest] else mem[k])
  {
    MovedBytes(mem[..], dest, src, n);
    hide Moved;
    if dest < src {
      MoveDown(mem, dest, src, n);
    } else {
      MoveUp(mem, dest, src, n);
    }
  }

  /** The order of equally long byte strings: decided at the first byte that differs. */
  function Compare(a: seq<byte>, b: seq<byte>): int
    requires |a| == |b|
  {
    if a == [] then 0 else if a[0] < b[0] then -1 else if a[0] > b[0] then 1 else Compare(a[1..], b[1..])
  }

  /** It is a total order: equal exactly on equal strings, antisymmetric and transitive. */
  lemma {:induction false} CompareOrders(a: seq<byte>, b: seq<byte>, c: seq<byte>)
    requires |a| == |b| == |c|
    ensures Compare(a, b) == 0 <==> a == b
    ensures Compare(a, b) == -Compare(b, a)
    ensures Compare(a, b) <= 0 && Compare(b, c) <= 0 ==> Compare(a, c) <= 0
  {
    if a != [] {
      CompareOrders(a[1..], b[1..], c[1..]);
      assert a == [a[0]] + a[1..] && b == [b[0]] + b[1..];
    }
  }

  /** The sign: the smaller string is the one with the smaller byte where they first differ. */
  lemma CompareAt(a: seq<byte>, b: seq<byte>, i: nat)
    requires |a| == |b| && i < |a| && a[..i] == b[..i] && a[i] != b[i]
    ensures Compare(a, b) == if a[i] < b[i] then -1 else 1
  {
    CompareFrom(a, b, i);
    assert a[i..][0] == a[i] && b[i..][0] == b[i];
  }

  lemma {:induction false} CompareFrom(a: seq<byte>, b: seq<byte>, i: nat)
    requires |a| == |b| && i <= |a| && a[..i] == b[..i]
    ensures Compare(a, b) == Compare(a[i..], b[i..])
  {
    if i > 0 {
      assert a[0] == a[..i][0] == b[..i][0] == b[0];
      assert a[1..][..i - 1] == a[..i][1..] == b[..i][1..] == b[1..][..i - 1];
      CompareFrom(a[1..], b[1..], i - 1);
      assert a[1..][i - 1..] == a[i..] && b[1..][i - 1..] == b[i..];
    } else {
      assert a[0..] == a && b[0..] == b;
    }
  }

  /** `memcmp`. */
  method MemCmp(a: array<byte>, b: array<byte>, n: nat) returns (r: int)
    requires n <= a.Length && n <= b.Length
    ensures r == Compare(a[..n], b[..n])
    ensures r == 0 <==> a[..n] == b[..n]
    ensures forall i :: 0 <= i < n && a[..i] == b[..i] && a[i] != b[i] ==> r == if a[i] < b[i] then -1 else 1
  {
    ghost var s, t := a[..n], b[..n];
    CompareOrders(s, t, t);
    forall i | 0 <= i < n && a[..i] == b[..i] && a[i] != b[i]
      ensures Compare(s, t) == if a[i] < b[i] then -1 else 1
    {
      assert s[..i] == a[..i] && t[..i] == b[..i];
      CompareAt(s, t, i);
    }
    for i := 0 to n
      invariant s[..i] == t[..i]
    {
      CompareFrom(s, t, i);
      if a[i] < b[i] {
        return -1;
      } else if a[i] > b[i] {
        return 1;
      }
    }
    CompareFrom(s, t, n);
    r := 0;
  }
}
