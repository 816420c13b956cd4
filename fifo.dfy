/**
  The byte ring buffer (`Fifo`) that carries resampled audio from the
  emulation thread to the audio-device callback.

  The buffer holds `size` bytes; `avail` of them are free. Unread bytes start
  at the read cursor `first` and run, wrapping past the end of the storage,
  up to the write cursor `last`. Each operation is one atomic step: the lock
  the original takes around `read`, `write`, `occupied` and `free` is not
  modelled.
 */
module AudioFifo {

  newtype uint8 = x: int | 0 <= x < 256

  /** An index below `2 * n` brought back into `[0, n)`: what `% n` does to a
      cursor plus a transfer size that is at most `n`. */
  function Wrap(x: nat, n: nat): (r: nat)
    requires x < 2 * n
    ensures r < n
  {
    if x < n then x else x - n
  }

  /** The cursor update the source writes with `%` agrees with `Wrap`. */
  lemma ModIsWrap(x: nat, n: nat)
    requires x < 2 * n
    ensures x % n == Wrap(x, n)
  {
  }

  /** How far position `j` lies after position `at`, going forward round a
      ring of `n` slots. */
  function Offset(j: nat, at: nat, n: nat): (d: nat)
    requires j < n && at < n
    ensures d < n
  {
    if at <= j then j - at else j + n - at
  }

  /** The `count` bytes of ring `buf` that start at position `from`. */
  function Unread(buf: seq<uint8>, from: nat, count: nat): (r: seq<uint8>)
    requires from < |buf| && count <= |buf|
    ensures |r| == count
  {
    seq(count, i requires 0 <= i < count => buf[Wrap(from + i, |buf|)])
  }

  /** Ring `buf` after the bytes `d` were stored one after the other from
      position `at` on, wrapping past the end: the positions whose forward
      distance from `at` is below `|d|` take the new bytes, the others keep
      theirs. */
  function Overwrite(buf: seq<uint8>, at: nat, d: seq<uint8>): (r: seq<uint8>)
    requires at < |buf| && |d| <= |buf|
    ensures |r| == |buf|
  {
    seq(|buf|, j requires 0 <= j < |buf| =>
      if Offset(j, at, |buf|) < |d| then d[Offset(j, at, |buf|)] else buf[j])
  }

  /** `s` with `piece` stored from position `at` on, without wrapping: the
      effect of one `memcpy` into storage that held `s`. */
  function Spliced(s: seq<uint8>, at: nat, piece: seq<uint8>): (r: seq<uint8>)
    requires at + |piece| <= |s|
    ensures |r| == |s|
  {
    s[..at] + piece + s[at + |piece|..]
  }

  /** Reading: the two contiguous spans `read` copies out (from the cursor to
      the end of the storage, then from its start) are exactly the next `n`
      bytes of the ring. */
  lemma {:induction false} UnreadSpans(buf: seq<uint8>, from: nat, n: nat, span1: nat, span2: nat)
    requires from < |buf| && n <= |buf|
    requires span1 + span2 == n && span1 <= |buf| - from
    requires span2 > 0 ==> span1 == |buf| - from
    ensures buf[from..from + span1] + buf[..span2] == Unread(buf, from, n)
  {
    var lhs := buf[from..from + span1] + buf[..span2];
    forall i | 0 <= i < n
      ensures lhs[i] == Unread(buf, from, n)[i]
    {
      if i < span1 {
        assert Wrap(from + i, |buf|) == from + i;
        assert lhs[i] == buf[from + i];
      } else {
        assert Wrap(from + i, |buf|) == i - span1;
        assert lhs[i] == buf[i - span1];
      }
    }
  }

  /** Two back-to-back copies into the destination of `read` leave it holding
      the two pieces one after the other, and nothing after them changed. */
  lemma {:induction false} SplicedInSequence(dst: seq<uint8>, p: seq<uint8>, q: seq<uint8>)
    requires |p| + |q| <= |dst|
    ensures Spliced(Spliced(dst, 0, p), |p|, q)[..|p| + |q|] == p + q
    ensures Spliced(Spliced(dst, 0, p), |p|, q)[|p| + |q|..] == dst[|p| + |q|..]
  {
  }

  /** Taking `n` bytes off the front of the unread region leaves the region
      that starts `n` positions later. */
  lemma {:induction false} UnreadDrop(buf: seq<uint8>, from: nat, count: nat, n: nat)
    requires from < |buf| && n <= count <= |buf|
    ensures Unread(buf, from, count)[..n] == Unread(buf, from, n)
    ensures Unread(buf, Wrap(from + n, |buf|), count - n) == Unread(buf, from, count)[n..]
  {
    var N := |buf|;
    var rest := Unread(buf, Wrap(from + n, N), count - n);
    forall i | 0 <= i < count - n
      ensures rest[i] == Unread(buf, from, count)[n + i]
    {
      assert Wrap(Wrap(from + n, N) + i, N) == Wrap(from + n + i, N);
    }
  }

  /** Writing: the two spans `write` stores (from the cursor to the end of the
      storage, then from its start) together make `Overwrite`. */
  lemma {:induction false} OverwriteBySpans(buf: seq<uint8>, at: nat, d: seq<uint8>, span1: nat, span2: nat)
    requires at < |buf| && |d| <= |buf|
    requires span1 + span2 == |d| && span1 <= |buf| - at
    requires span2 > 0 ==> span1 == |buf| - at
    ensures span2 <= at
    ensures Spliced(Spliced(buf, at, d[..span1]), 0, d[span1..]) == Overwrite(buf, at, d)
  {
  }

  /** Storing `d` right after the unread region appends `d` to it and leaves
      the bytes already there intact. */
  lemma {:induction false} UnreadAfterOverwrite(buf: seq<uint8>, from: nat, count: nat, d: seq<uint8>)
    requires from < |buf| && count + |d| <= |buf|
    ensures Unread(Overwrite(buf, Wrap(from + count, |buf|), d), from, count + |d|)
            == Unread(buf, from, count) + d
  {
    var N := |buf|;
    var at := Wrap(from + count, N);
    var after := Overwrite(buf, at, d);
    var lhs := Unread(after, from, count + |d|);
    var rhs := Unread(buf, from, count) + d;
    forall i | 0 <= i < count + |d|
      ensures lhs[i] == rhs[i]
    {
      var p := Wrap(from + i, N);
      if i < count {
        assert Offset(p, at, N) == N + i - count;
      } else {
        assert Offset(p, at, N) == i - count;
      }
    }
  }

  /** Where the `i`-th byte of a transfer that starts at cursor `at` lands
      in storage of `n` bytes. */
  function Slot(at: nat, i: nat, n: nat): nat
    requires n > 0
  {
    (at + i) % n
  }

  /** `write` stores byte `d[i]` at position `(at + i) % n` of the storage. */
  lemma {:induction false} OverwriteStores(buf: seq<uint8>, at: nat, d: seq<uint8>, i: nat)
    requires at < |buf| && |d| <= |buf| && i < |d|
    ensures Overwrite(buf, at, d)[Slot(at, i, |buf|)] == d[i]
  {
    ModIsWrap(at + i, |buf|);
    assert Offset(Wrap(at + i, |buf|), at, |buf|) == i;
  }

  /** `write` changes no byte of the storage outside the positions
      `(at + i) % n` with `i < |d|`. */
  lemma {:induction false} OverwriteOnlyThere(buf: seq<uint8>, at: nat, d: seq<uint8>, j: nat)
    requires at < |buf| && |d| <= |buf| && j < |buf|
    requires forall i :: 0 <= i < |d| ==> Slot(at, i, |buf|) != j
    ensures Overwrite(buf, at, d)[j] == buf[j]
  {
    var k := Offset(j, at, |buf|);
    ModIsWrap(at + k, |buf|);
    assert Slot(at, k, |buf|) == j;
  }

  /** `memcpy(dst + dstAt, src + srcAt, n)` between two distinct arrays. */
  method CopyBytes(dst: array<uint8>, dstAt: nat, src: array<uint8>, srcAt: nat, n: nat)
    requires dst != src
    requires dstAt + n <= dst.Length && srcAt + n <= src.Length
    modifies dst
    ensures dst[..] == Spliced(old(dst[..]), dstAt, src[srcAt..srcAt + n])
  {
    forall k | 0 <= k < n {
      dst[dstAt + k] := src[srcAt + k];
    }
  }

  /** How `read` and `write` split a transfer of `n` bytes that starts at
      `cursor`: `span1` bytes up to the end of the storage, then `span2`
      bytes from its start. */
  method SplitSpan(n: nat, cursor: nat, capacity: nat) returns (span1: nat, span2: nat)
    requires cursor <= capacity
    ensures span1 + span2 == n
    ensures span1 <= capacity - cursor
    ensures n <= capacity ==> span2 <= cursor
    ensures span2 > 0 <==> n > capacity - cursor
    ensures span2 > 0 ==> span1 == capacity - cursor
  {
    span1 := n;
    span2 := 0;
    if span1 > capacity - cursor {
      span1 := capacity - cursor;
      span2 := n - span1;
    }
  }

  /** The copying half of `read`: the `n` bytes of the ring `buf` from
      position `from` on go to the front of `data`, in at most two spans. */
  method CopyOut(buf: array<uint8>, from: nat, data: array<uint8>, n: nat)
    requires from < buf.Length && n <= buf.Length
    requires n <= data.Length && data != buf
    modifies data
    ensures data[..n] == Unread(buf[..], from, n)
    ensures data[n..] == old(data[n..])
  {
    ghost var before := data[..];
    var span1, span2 := SplitSpan(n, from, buf.Length);
    CopyBytes(data, 0, buf, from, span1);
    CopyBytes(data, span1, buf, 0, span2);
    SplicedInSequence(before, buf[from..from + span1], buf[..span2]);
    UnreadSpans(buf[..], from, n, span1, span2);
  }

  /** The copying half of `write`: the first `n` bytes of `data` go into the
      ring `buf` from position `at` on, in at most two spans. */
  method CopyIn(buf: array<uint8>, at: nat, data: array<uint8>, n: nat)
    requires at < buf.Length && n <= buf.Length
    requires n <= data.Length && data != buf
    modifies buf
    ensures buf[..] == Overwrite(old(buf[..]), at, data[..n])
  {
    ghost var before, d := buf[..], data[..n];
    var span1, span2 := SplitSpan(n, at, buf.Length);
    CopyBytes(buf, at, data, 0, span1);
    assert data[0..span1] == d[..span1];
    CopyBytes(buf, 0, data, span1, span2);
    assert data[span1..span1 + span2] == d[span1..];
    OverwriteBySpans(before, at, d, span1, span2);
  }

  class Fifo {
    var buffer: array<uint8>
    var size: nat
    var avail: nat
    var first: nat
    var last: nat

    /** The object invariant: cursors inside the storage, free space within
        the capacity, and the write cursor exactly `occupied` bytes after the
        read cursor. */
    ghost predicate Valid()
      reads this
    {
      buffer.Length == size && avail <= size &&
      if size == 0 then first == 0 && last == 0
      else first < size && last == Wrap(first + (size - avail), size)
    }

    /** The bytes written and not yet read, oldest first. */
    ghost function Contents(): (c: seq<uint8>)
      requires Valid()
      reads this, buffer
      ensures |c| == size - avail
    {
      if size == 0 then [] else Unread(buffer[..], first, size - avail)
    }

    /** A `Fifo` object before `Init`: no storage. */
    constructor ()
      ensures Valid() && size == 0 && Contents() == []
    {
      buffer := new uint8[0];
      size, avail, first, last := 0, 0, 0, 0;
    }

    /** `init(n)`. `obtained` tells whether creating the lock and allocating
        the `n` bytes of storage succeeded; when not, `init` returns false and
        the object is left as it was. */
    method Init(n: nat, obtained: bool) returns (ok: bool)
      modifies this
      ensures ok == obtained
      ensures ok ==> Valid() && fresh(buffer) && size == n
      ensures ok ==> avail == n && first == 0 && last == 0 && Contents() == []
      ensures !ok ==> unchanged(this)
    {
      if !obtained {
        return false;
      }
      buffer := new uint8[n];
      size, avail := n, n;
      first, last := 0, 0;
      ok := true;
    }

    /** `reset()`: everything buffered is dropped; the storage is kept. The
        new state depends on the capacity alone, so a second reset changes
        nothing. */
    method Reset()
      requires Valid()
      modifies this`avail, this`first, this`last
      ensures Valid() && Contents() == []
      ensures avail == size && first == 0 && last == 0
    {
      avail := size;
      first, last := 0, 0;
    }

    /** `read(data, n)`: the oldest `n` unread bytes are copied to `data` and
        taken off the queue; the storage itself is not written. */
    method Read(data: array<uint8>, n: nat)
      requires Valid() && size > 0
      requires n <= size - avail
      requires n <= data.Length && data != buffer
      modifies this`first, this`avail, data
      ensures Valid()
      ensures data[..n] == old(Contents())[..n]
      ensures data[n..] == old(data[n..])
      ensures Contents() == old(Contents())[n..]
      ensures buffer[..] == old(buffer[..])
      ensures first == (old(first) + n) % size && avail == old(avail) + n
    {
      ghost var count, was := size - avail, Contents();
      CopyOut(buffer, first, data, n);
      UnreadDrop(buffer[..], first, count, n);
      ModIsWrap(first + n, size);
      first := (first + n) % size;
      avail := avail + n;
      assert Contents() == was[n..];
    }

    /** `write(data, n)`: the `n` bytes of `data` are appended to the queue;
        only the storage positions `(last + i) % size`, `i < n`, change. */
    method Write(data: array<uint8>, n: nat)
      requires Valid() && size > 0
      requires n <= avail
      requires n <= data.Length && data != buffer
      modifies this`last, this`avail, buffer
      ensures Valid()
      ensures Contents() == old(Contents()) + data[..n]
      ensures buffer[..] == Overwrite(old(buffer[..]), old(last), data[..n])
      ensures last == (old(last) + n) % size && avail == old(avail) - n
    {
      ghost var buf := buffer[..];
      CopyIn(buffer, last, data, n);
      UnreadAfterOverwrite(buf, first, size - avail, data[..n]);
      ModIsWrap(last + n, size);
      last := (last + n) % size;
      avail := avail - n;
    }

    /** `occupied()`: how many bytes are waiting to be read. */
    method Occupied() returns (r: nat)
      requires Valid()
      ensures r == |Contents()|
    {
      r := size - avail;
    }

    /** `free()`: how many more bytes fit; with `Occupied` it always adds up
        to the capacity. */
    method Free() returns (r: nat)
      requires Valid()
      ensures r + |Contents()| == size
    {
      r := avail;
    }
  }
}
