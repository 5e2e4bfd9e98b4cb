/** Byte copying, and the disk as an image of 512-byte blocks held in memory. */
module BlockDevice {
  import opened Bytes
  import opened FatLayout

  const IMAGE_SIZE: nat := 4194304

  /** `dest` with `src` written over it from offset `at` on. */
  function Overwrite(dest: seq<byte>, at: nat, src: seq<byte>): (r: seq<byte>)
    requires at + |src| <= |dest|
    ensures |r| == |dest|
  {
    dest[..at] + src + dest[at + |src|..]
  }

  method MemCpy(dest: array<byte>, to: nat, src: array<byte>, from: nat, n: nat)
    requires dest != src && to + n <= dest.Length && from + n <= src.Length
    modifies dest
    ensures dest[..] == Overwrite(old(dest[..]), to, old(src[..])[from..from + n])
  {
    for i := 0 to n
      invariant forall k :: 0 <= k < dest.Length ==>
        dest[k] == if to <= k < to + i then src[from + k - to] else old(dest[k])
      invariant src[..] == old(src[..])
    {
      dest[to + i] := src[from + i];
    }
  }

  method MemZero(dest: array<byte>, n: nat)
    requires n <= dest.Length
    modifies dest
    ensures dest[..] == Overwrite(old(dest[..]), 0, Zeros(n))
  {
    for i := 0 to n
      invariant forall k :: 0 <= k < dest.Length ==> dest[k] == if k < i then 0 else old(dest[k])
    {
      dest[i] := 0;
    }
  }

  /** The clusters of an image. */
  function ClustersOf(bytes: seq<byte>): Disk
    requires |bytes| == IMAGE_SIZE
  {
    seq<Cluster>(IMAGE_CLUSTERS, c requires 0 <= c < IMAGE_CLUSTERS =>
      bytes[CLUSTER_SIZE * c .. CLUSTER_SIZE * c + CLUSTER_SIZE])
  }

  lemma OverwriteCluster(bytes: seq<byte>, c: nat, data: Cluster)
    requires |bytes| == IMAGE_SIZE && c < IMAGE_CLUSTERS
    ensures ClustersOf(Overwrite(bytes, CLUSTER_SIZE * c, data)) == ClustersOf(bytes)[c := data]
  {
    var bytes' := Overwrite(bytes, CLUSTER_SIZE * c, data);
    forall x | 0 <= x < IMAGE_CLUSTERS
      ensures ClustersOf(bytes')[x] == ClustersOf(bytes)[c := data][x]
    {
      if x == c {
        assert bytes'[CLUSTER_SIZE * c .. CLUSTER_SIZE * c + CLUSTER_SIZE] == data;
      } else if x < c {
        assert CLUSTER_SIZE * x + CLUSTER_SIZE <= CLUSTER_SIZE * c;
      } else {
        assert CLUSTER_SIZE * c + CLUSTER_SIZE <= CLUSTER_SIZE * x;
      }
    }
  }

  lemma OverwriteAppend(bytes: seq<byte>, at: nat, a: seq<byte>, b: seq<byte>)
    requires at + |a| + |b| <= |bytes|
    ensures Overwrite(Overwrite(bytes, at, a), at + |a|, b) == Overwrite(bytes, at, a + b)
  {
  }

  lemma OverwriteNothing(bytes: seq<byte>, at: nat, src: seq<byte>, from: nat)
    requires at <= |bytes| && from <= |src|
    ensures Overwrite(bytes, at, src[from .. from]) == bytes
  {
  }

  /** Overwriting with `i` consecutive blocks and then the next is overwriting with `i + 1`. */
  lemma BlockAppend(src: seq<byte>, from: nat, dest: seq<byte>, at: nat, i: nat)
    requires from + BLOCK_SIZE * (i + 1) <= |src| && at + BLOCK_SIZE * (i + 1) <= |dest|
    ensures var next := src[from + BLOCK_SIZE * i .. from + BLOCK_SIZE * i + BLOCK_SIZE];
      Overwrite(Overwrite(dest, at, src[from .. from + BLOCK_SIZE * i]), at + BLOCK_SIZE * i, next)
      == Overwrite(dest, at, src[from .. from + BLOCK_SIZE * (i + 1)])
  {
    var done := src[from .. from + BLOCK_SIZE * i];
    var next := src[from + BLOCK_SIZE * i .. from + BLOCK_SIZE * i + BLOCK_SIZE];
    OverwriteAppend(dest, at, done, next);
    assert src[from .. from + BLOCK_SIZE * (i + 1)] == done + next;
  }

  class Device {
    const image: array<byte>

    constructor (image: array<byte>)
      ensures this.image == image
    {
      this.image := image;
    }

    predicate Valid() {
      image.Length == IMAGE_SIZE
    }

    ghost function Disk(): Disk
      requires Valid()
      reads image
    {
      ClustersOf(image[..])
    }

    method ReadBlocks(ptr: array<byte>, at: nat, lba: nat, count: nat)
      requires ptr != image && at + BLOCK_SIZE * count <= ptr.Length
      requires BLOCK_SIZE * (lba + count) <= image.Length
      modifies ptr
      ensures ptr[..] == Overwrite(old(ptr[..]), at, image[..][BLOCK_SIZE * lba .. BLOCK_SIZE * (lba + count)])
    {
      hide Overwrite;
      ghost var bytes, src, from := ptr[..], image[..], BLOCK_SIZE * lba;
      OverwriteNothing(bytes, at, src, from);
      for i := 0 to count
        invariant image[..] == src
        invariant ptr[..] == Overwrite(bytes, at, src[from .. from + BLOCK_SIZE * i])
      {
        BlockAppend(src, from, bytes, at, i);
        MemCpy(ptr, at + BLOCK_SIZE * i, image, BLOCK_SIZE * (lba + i), BLOCK_SIZE);
      }
    }

    method WriteBlocks(ptr: array<byte>, at: nat, lba: nat, count: nat)
      requires ptr != image && at + BLOCK_SIZE * count <= ptr.Length
      requires BLOCK_SIZE * (lba + count) <= image.Length
      modifies image
      ensures image[..] == Overwrite(old(image[..]), BLOCK_SIZE * lba, ptr[..][at .. at + BLOCK_SIZE * count])
    {
      hide Overwrite;
      ghost var bytes, src, to := image[..], ptr[..], BLOCK_SIZE * lba;
      OverwriteNothing(bytes, to, src, at);
      for i := 0 to count
        invariant ptr[..] == src
        invariant image[..] == Overwrite(bytes, to, src[at .. at + BLOCK_SIZE * i])
      {
        BlockAppend(src, at, bytes, to, i);
        MemCpy(image, BLOCK_SIZE * (lba + i), ptr, at + BLOCK_SIZE * i, BLOCK_SIZE);
      }
    }
  }
}
