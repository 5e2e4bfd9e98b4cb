/** Fixed-width unsigned integers and their little-endian byte images. */
module Bytes {
  type byte = i: int | 0 <= i < 0x100
  type uint16 = i: int | 0 <= i < 0x1_0000
  type uint32 = i: int | 0 <= i < 0x1_0000_0000

  function Zeros(n: nat): (z: seq<byte>)
    ensures |z| == n
    ensures forall i :: 0 <= i < n ==> z[i] == 0
  {
    seq(n, i => 0)
  }

  function FromLe16(b: seq<byte>): uint16
    requires |b| == 2
  {
    b[0] as int + 0x100 * (b[1] as int)
  }

  /** The two bytes of `v`, low byte first; `FromLe16` reads them back. */
  function ToLe16(v: uint16): (b: seq<byte>)
    ensures |b| == 2 && FromLe16(b) == v
  {
    [v % 0x100, v / 0x100]
  }

  function FromLe32(b: seq<byte>): uint32
    requires |b| == 4
  {
    FromLe16(b[..2]) as int + 0x1_0000 * (FromLe16(b[2..]) as int)
  }

  /** The four bytes of `v`, low byte first; `FromLe32` reads them back. */
  function ToLe32(v: uint32): (b: seq<byte>)
    ensures |b| == 4 && FromLe32(b) == v
  {
    var b := ToLe16(v % 0x1_0000) + ToLe16(v / 0x1_0000);
    assert b[..2] == ToLe16(v % 0x1_0000) && b[2..] == ToLe16(v / 0x1_0000);
    b
  }

  lemma Le16Injective(a: seq<byte>, b: seq<byte>)
    requires |a| == |b| == 2 && FromLe16(a) == FromLe16(b)
    ensures a == b
  {
    assert a[0] == FromLe16(a) % 0x100 == b[0];
  }

  lemma SameHalves(a: uint16, b: uint16, c: uint16, d: uint16)
    requires a as int + 0x1_0000 * (b as int) == c as int + 0x1_0000 * (d as int)
    ensures a == c && b == d
  {
  }

  lemma Le32Injective(a: seq<byte>, b: seq<byte>)
    requires |a| == |b| == 4 && FromLe32(a) == FromLe32(b)
    ensures a == b
  {
    hide FromLe16;
    SameHalves(FromLe16(a[..2]), FromLe16(a[2..]), FromLe16(b[..2]), FromLe16(b[2..]));
    Le16Injective(a[..2], b[..2]);
    Le16Injective(a[2..], b[2..]);
    assert a == a[..2] + a[2..] && b == b[..2] + b[2..];
  }

  /** ceil(n / d) as the sources compute it on exact quotients. */
  function CeilDiv(n: nat, d: nat): (q: nat)
    requires d > 0
    ensures n <= q * d < n + d
  {
    var q := (n + d - 1) / d;
    assert n + d - 1 == d * q + (n + d - 1) % d;
    q
  }
}
