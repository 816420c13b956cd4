/**
  Clients of `AudioFifo.Fifo` that use its contracts alone: a producer and a
  consumer taking turns on one buffer.
 */
module FifoScenarios {
  import opened AudioFifo

  /** A fresh array holding the bytes `s`: the producer's sample block. */
  method ArrayOf(s: seq<uint8>) returns (arr: array<uint8>)
    ensures fresh(arr) && arr[..] == s
  {
    arr := new uint8[|s|];
    forall i | 0 <= i < |s| {
      arr[i] := s[i];
    }
  }

  /** One producer block followed by one consumer drain: `src` is written,
      then `dst.Length` bytes are read into `dst`. */
  method Exchange(f: Fifo, src: array<uint8>, dst: array<uint8>)
    requires f.Valid() && f.size > 0
    requires src.Length <= f.avail && dst.Length <= |f.Contents()| + src.Length
    requires src != f.buffer && dst != f.buffer
    modifies f, f.buffer, dst
    ensures f.Valid() && f.size == old(f.size) && f.buffer == old(f.buffer)
    ensures dst[..] == (old(f.Contents()) + old(src[..]))[..dst.Length]
    ensures f.Contents() == (old(f.Contents()) + old(src[..]))[dst.Length..]
  {
    ghost var queued := f.Contents() + src[..];
    f.Write(src, src.Length);
    assert f.Contents() == queued;
    f.Read(dst, dst.Length);
  }

  /** A buffer of 16 bytes: write 12, read 8, write 10 (this write wraps past
      the end of the storage), then read the 14 left. The reads return the
      written bytes, oldest first, and the buffer ends empty. */
  method WrapAroundRoundTrip(a: seq<uint8>, b: seq<uint8>) returns (r1: seq<uint8>, r2: seq<uint8>, left: nat)
    requires |a| == 12 && |b| == 10
    ensures r1 == a[..8]
    ensures r2 == a[8..] + b
    ensures left == 0
  {
    var f := new Fifo();
    var ok := f.Init(16, true);
    var src1 := ArrayOf(a);
    var src2 := ArrayOf(b);
    var dst1, dst2 := new uint8[8], new uint8[14];
    Exchange(f, src1, dst1);
    r1 := dst1[..];
    assert f.Contents() == a[8..];
    Exchange(f, src2, dst2);
    r2 := dst2[..];
    left := f.Occupied();
  }

  /** Resetting twice leaves the same state as resetting once. */
  method ResetTwice(f: Fifo)
    requires f.Valid()
    modifies f
    ensures f.Valid() && f.Contents() == []
    ensures f.avail == f.size && f.first == 0 && f.last == 0
    ensures f.size == old(f.size) && f.buffer == old(f.buffer)
  {
    f.Reset();
    ghost var once := (f.avail, f.first, f.last);
    f.Reset();
    assert (f.avail, f.first, f.last) == once;
  }
}
