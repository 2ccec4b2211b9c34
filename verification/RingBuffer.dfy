/** The circular byte buffer of ring_buffer.h refines a bounded FIFO queue. */
module RingBuffer {

  type Byte = b: int | 0 <= b < 256

  function Wrap(x: nat, size: nat): (r: nat)
    requires x < 2 * size
    ensures r == if x < size then x else x - size
  {
    x % size
  }

  /** The bytes of `b` from `head` round to `tail`. */
  function Queue(b: seq<Byte>, head: nat, tail: nat): (s: seq<Byte>)
    requires head < |b| && tail < |b|
    ensures |s| == if head <= tail then tail - head else tail + |b| - head
  {
    if head <= tail then b[head..tail] else b[head..] + b[..tail]
  }

  lemma QueueAt(b: seq<Byte>, head: nat, tail: nat, k: nat)
    requires head < |b| && tail < |b| && k < |Queue(b, head, tail)|
    ensures Queue(b, head, tail)[k] == b[Wrap(head + k, |b|)]
  {
  }

  /** `b` with `s` copied to position `at`: what memcpy does. */
  function Spliced(b: seq<Byte>, at: nat, s: seq<Byte>): (r: seq<Byte>)
    requires at + |s| <= |b|
    ensures |r| == |b|
  {
    seq(|b|, i requires 0 <= i < |b| => if at <= i < at + |s| then s[i - at] else b[i])
  }

  lemma SplicedTwice(b: seq<Byte>, at: nat, x: seq<Byte>, y: seq<Byte>)
    requires at + |x| + |y| <= |b|
    ensures Spliced(Spliced(b, at, x), at + |x|, y) == Spliced(b, at, x + y)
  {
  }

  lemma SplicedPrefix(b: seq<Byte>, s: seq<Byte>)
    requires |s| <= |b|
    ensures Spliced(b, 0, s)[..|s|] == s && Spliced(b, 0, s)[|s|..] == b[|s|..]
  {
  }

  lemma DropFromHead(b: seq<Byte>, head: nat, tail: nat, len: nat)
    requires head < |b| && tail < |b| && len <= |Queue(b, head, tail)|
    ensures Queue(b, Wrap(head + len, |b|), tail) == Queue(b, head, tail)[len..]
  {
    var q, r := Queue(b, head, tail), Queue(b, Wrap(head + len, |b|), tail);
    forall k | 0 <= k < |r| ensures r[k] == q[len..][k] {
      QueueAt(b, Wrap(head + len, |b|), tail, k);
      QueueAt(b, head, tail, len + k);
    }
  }

  lemma TakeFromHead(b: seq<Byte>, head: nat, tail: nat, len: nat)
    requires head < |b| && tail < |b| && len <= |Queue(b, head, tail)|
    ensures Queue(b, head, tail)[..len] ==
            if head + len > |b| then b[head..] + b[..head + len - |b|] else b[head..head + len]
  {
    forall k | 0 <= k < len ensures Queue(b, head, tail)[k] == b[Wrap(head + k, |b|)] {
      QueueAt(b, head, tail, k);
    }
  }

  /** `d` with `len` bytes from `head` on copied to its front, in one copy or two where `b` ends. */
  function Fetched(d: seq<Byte>, b: seq<Byte>, head: nat, len: nat): (r: seq<Byte>)
    requires head < |b| && len < |b| && len <= |d|
    ensures |r| == |d|
  {
    if head + len > |b| then
      var right := |b| - head;
      Spliced(Spliced(d, 0, b[head..head + right]), right, b[0..0 + (len - right)])
    else Spliced(d, 0, b[head..head + len])
  }

  lemma FetchedFromHead(d: seq<Byte>, b: seq<Byte>, head: nat, tail: nat, len: nat)
    requires head < |b| && tail < |b| && len <= |Queue(b, head, tail)| && len <= |d|
    ensures len < |b| && Fetched(d, b, head, len) == Spliced(d, 0, Queue(b, head, tail)[..len])
  {
    TakeFromHead(b, head, tail, len);
    if head + len > |b| {
      var right := |b| - head;
      assert b[head..head + right] == b[head..] && b[0..0 + (len - right)] == b[..len - right];
      SplicedTwice(d, 0, b[head..], b[..len - right]);
    }
  }

  /** Storing `s` behind `tail` with one copy, or two where the buffer ends. */
  function Stored(b: seq<Byte>, tail: nat, s: seq<Byte>): (r: seq<Byte>)
    requires tail < |b| && |s| < |b|
    ensures |r| == |b|
  {
    if tail + |s| > |b| then Spliced(Spliced(b, tail, s[..|b| - tail]), 0, s[|b| - tail..])
    else Spliced(b, tail, s)
  }

  lemma StoredAt(b: seq<Byte>, tail: nat, s: seq<Byte>, i: nat)
    requires tail < |b| && |s| < |b| && i < |b|
    ensures i < |s| ==> Stored(b, tail, s)[Wrap(tail + i, |b|)] == s[i]
    ensures i >= |s| ==> Stored(b, tail, s)[Wrap(tail + i, |b|)] == b[Wrap(tail + i, |b|)]
  {
    if tail + |s| > |b| {
      var once := Spliced(b, tail, s[..|b| - tail]);
      assert Stored(b, tail, s) == Spliced(once, 0, s[|b| - tail..]);
    } else {
      assert Stored(b, tail, s) == Spliced(b, tail, s);
    }
  }

  lemma PutAtTail(b: seq<Byte>, head: nat, tail: nat, s: seq<Byte>)
    requires head < |b| && tail < |b| && |Queue(b, head, tail)| + |s| < |b|
    ensures Queue(Stored(b, tail, s), head, Wrap(tail + |s|, |b|)) == Queue(b, head, tail) + s
  {
    var q, r := Queue(b, head, tail), Queue(Stored(b, tail, s), head, Wrap(tail + |s|, |b|));
    forall k | 0 <= k < |r| ensures r[k] == (q + s)[k] {
      QueueAt(Stored(b, tail, s), head, Wrap(tail + |s|, |b|), k);
      if k < |q| {
        QueueAt(b, head, tail, k);
        StoredAt(b, tail, s, k + |b| - |q|);
      } else {
        StoredAt(b, tail, s, k - |q|);
      }
    }
  }

  class Ring {
    const size: nat
    const buf: array<Byte>
    var head: nat
    var tail: nat

    ghost predicate Valid()
      reads this
    {
      buf.Length == size && head < size && tail < size
    }

    /** The queued bytes, oldest first. */
    ghost function Contents(): (s: seq<Byte>)
      requires Valid()
      reads this, buf
      ensures |s| == Used()
    {
      Queue(buf[..], head, tail)
    }

    /** One byte of the allocation is never used, so that empty and full differ. */
    constructor (capacity: nat)
      ensures Valid() && fresh(buf) && size == capacity + 1 && Contents() == []
    {
      size := capacity + 1;
      buf := new Byte[capacity + 1](_ => 0);
      head, tail := 0, 0;
    }

    function Used(): (n: nat)
      requires Valid()
      reads this
      ensures n == if head <= tail then tail - head else tail + size - head
    {
      Wrap(tail - head + size, size)
    }

    function Free(): (n: nat)
      requires Valid()
      reads this
      ensures n + Used() == size - 1
    {
      size - Used() - 1
    }

    predicate Empty()
      requires Valid()
      reads this
      ensures Empty() <==> head == tail
    {
      Used() == 0
    }

    /** memcpy between the buffer and a caller's array. */
    static method Copy(dst: array<Byte>, at: nat, src: array<Byte>, from: nat, n: nat)
      requires dst != src && at + n <= dst.Length && from + n <= src.Length
      modifies dst
      ensures dst[..] == Spliced(old(dst[..]), at, src[..][from..from + n]) && src[..] == old(src[..])
    {
      for i := 0 to n
        invariant dst[at..at + i] == src[from..from + i]
        invariant dst[..at] == old(dst[..at]) && dst[at + i..] == old(dst[at + i..])
      {
        dst[at + i] := src[from + i];
      }
      assert src[from..from + n] == src[..][from..from + n];
    }

    method Read(dst: array<Byte>, n: int) returns (len: int)
      requires Valid() && dst != buf && n <= dst.Length
      modifies this, dst
      ensures Valid()
      ensures len == if n < |old(Contents())| then n else |old(Contents())|
      ensures len > 0 ==>
                && dst[..len] == old(Contents())[..len] && dst[len..] == old(dst[len..])
                && Contents() == old(Contents())[len..]
      ensures len <= 0 ==> dst[..] == old(dst[..]) && Contents() == old(Contents())
    {
      len := if Used() < n then Used() else n;
      if len > 0 {
        ghost var d, taken := dst[..], Contents()[..len];
        FetchedFromHead(d, buf[..], head, tail, len);
        CopyOut(dst, len);
        SplicedPrefix(d, taken);
        assert dst[..len] == dst[..][..len] && dst[len..] == dst[..][len..];
        DropFromHead(buf[..], head, tail, len);
        head := Wrap(head + len, size);
      }
    }

    /** The copy of read_ring_buffer: in two pieces where the queue runs past the end of the buffer. */
    method CopyOut(dst: array<Byte>, len: nat)
      requires Valid() && dst != buf && len <= dst.Length && len < size
      modifies dst
      ensures dst[..] == Fetched(old(dst[..]), old(buf[..]), head, len) && buf[..] == old(buf[..])
    {
      ghost var b, d := buf[..], dst[..];
      if head + len > size {
        var right := size - head;
        var left := len - right;
        Copy(dst, 0, buf, head, right);
        ghost var once := dst[..];
        assert once == Spliced(d, 0, b[head..head + right]);
        Copy(dst, right, buf, 0, left);
        assert dst[..] == Spliced(once, right, b[0..0 + left]);
      } else {
        Copy(dst, 0, buf, head, len);
        assert dst[..] == Spliced(d, 0, b[head..head + len]);
      }
    }

    /** Callers must leave room: the source asserts it. */
    method Write(src: array<Byte>)
      requires Valid() && src != buf && 0 < src.Length <= Free()
      modifies this, buf
      ensures Valid() && Contents() == old(Contents()) + src[..]
    {
      PutAtTail(buf[..], head, tail, src[..]);
      CopyIn(src);
      tail := Wrap(tail + src.Length, size);
    }

    method CopyIn(src: array<Byte>)
      requires Valid() && src != buf && src.Length < size
      modifies buf
      ensures buf[..] == Stored(old(buf[..]), tail, src[..])
    {
      ghost var b, s := buf[..], src[..];
      var len := src.Length;
      if tail + len > size {
        var right := size - tail;
        var left := len - right;
        Copy(buf, tail, src, 0, right);
        assert s[0..0 + right] == s[..right] && s[right..right + left] == s[right..];
        Copy(buf, 0, src, right, left);
      } else {
        Copy(buf, tail, src, 0, len);
        assert s[0..0 + len] == s;
      }
    }
  }
}
