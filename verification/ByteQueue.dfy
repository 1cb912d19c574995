/** The ring buffer that interrupt handlers and the main loop share (byte_queue.c, byte_queue.h). */
module ByteQueue {
  import opened Bytes

  /** The cell i places after a cursor in a ring. */
  function Slot(cursor: nat, i: nat, capacity: nat): nat {
    if cursor + i >= capacity then cursor + i - capacity else cursor + i
  }

  /** The n bytes from a cursor on. */
  function Ring(cells: seq<byte>, from: nat, n: nat): (r: seq<byte>)
    requires from < |cells| && n <= |cells|
    ensures |r| == n
  {
    seq(n, i requires 0 <= i < n => cells[Slot(from, i, |cells|)])
  }

  lemma RingSplit(cells: seq<byte>, from: nat, m: nat, n: nat)
    requires from < |cells| && m <= n <= |cells|
    ensures Slot(from, m, |cells|) < |cells|
    ensures Ring(cells, from, n)[..m] == Ring(cells, from, m)
    ensures Ring(cells, from, n)[m..] == Ring(cells, Slot(from, m, |cells|), n - m)
  {
    var next := Slot(from, m, |cells|);
    forall i | 0 <= i < n - m ensures Ring(cells, from, n)[m..][i] == Ring(cells, next, n - m)[i] {
      assert Slot(next, i, |cells|) == Slot(from, m + i, |cells|);
    }
    forall i | 0 <= i < m ensures Ring(cells, from, n)[..m][i] == Ring(cells, from, m)[i] {
      assert Ring(cells, from, n)[i] == cells[Slot(from, i, |cells|)];
    }
  }

  /** A stretch of the ring is one slice of the array, or two when it wraps. */
  lemma RingSlices(cells: seq<byte>, from: nat, n: nat)
    requires from < |cells| && n <= |cells|
    ensures from + n <= |cells| ==> Ring(cells, from, n) == cells[from..from + n]
    ensures from + n > |cells| ==> Ring(cells, from, n) == cells[from..] + cells[..from + n - |cells|]
  {
    if from + n > |cells| {
      var slices := cells[from..] + cells[..from + n - |cells|];
      forall i | 0 <= i < n ensures Ring(cells, from, n)[i] == slices[i] {
        assert Ring(cells, from, n)[i] == cells[Slot(from, i, |cells|)];
      }
    }
  }

  /** Only the cells of a stretch matter to it. */
  lemma RingFrame(a: seq<byte>, b: seq<byte>, from: nat, n: nat)
    requires |a| == |b| && from < |a| && n <= |a|
    requires forall i :: 0 <= i < n ==> a[Slot(from, i, |a|)] == b[Slot(from, i, |a|)]
    ensures Ring(a, from, n) == Ring(b, from, n)
  {
  }

  /** Data written behind a stretch of the ring becomes its end, if there is room for it. */
  lemma RingWritten(a: seq<byte>, b: seq<byte>, from: nat, n: nat, data: seq<byte>)
    requires |a| == |b| && from < |a| && n + |data| <= |a|
    requires var w := Slot(from, n, |a|);
             && (forall i :: 0 <= i < |data| ==> b[Slot(w, i, |a|)] == data[i])
             && (forall c :: 0 <= c < |a| && (forall i :: 0 <= i < |data| ==> c != Slot(w, i, |a|)) ==> b[c] == a[c])
    ensures Ring(b, from, n + |data|) == Ring(a, from, n) + data
  {
    var w := Slot(from, n, |a|);
    forall i | 0 <= i < n ensures a[Slot(from, i, |a|)] == b[Slot(from, i, |a|)] {
      forall j | 0 <= j < |data| ensures Slot(from, i, |a|) != Slot(w, j, |a|) {
      }
    }
    RingFrame(a, b, from, n);
    RingSplit(b, from, n, n + |data|);
    assert Ring(b, w, |data|) == data;
    assert Ring(b, from, n + |data|) == Ring(b, from, n + |data|)[..n] + Ring(b, from, n + |data|)[n..];
  }

  class Queue {
    const buf: array<byte>
    var readCursor: nat
    var writeCursor: nat
    var size: nat

    ghost predicate Valid()
      reads this
    {
      && buf.Length > 0 && readCursor < buf.Length && size <= buf.Length
      && writeCursor == Slot(readCursor, size, buf.Length)
    }

    /** The bytes counted in `size`, oldest first. */
    ghost function Contents(): (s: seq<byte>)
      requires Valid()
      reads this, buf
      ensures |s| == size
    {
      Ring(buf[..], readCursor, size)
    }

    constructor (capacity: nat)
      requires capacity > 0
      ensures Valid() && fresh(buf) && buf.Length == capacity && Contents() == []
    {
      buf := new byte[capacity](_ => 0);
      readCursor, writeCursor, size := 0, 0, 0;
    }

    method ByteQueueClear()
      requires Valid()
      modifies this
      ensures Valid() && Contents() == []
    {
      readCursor, writeCursor, size := 0, 0, 0;
    }

    /** Appends one byte, or drops it when there is no room. */
    method ByteQueuePushByte(b: byte) returns (overflow: bool)
      requires Valid()
      modifies this, buf
      ensures Valid()
      ensures overflow == (|old(Contents())| == buf.Length)
      ensures Contents() == if overflow then old(Contents()) else old(Contents()) + [b]
      ensures readCursor == old(readCursor)
    {
      if size == buf.Length { return true; }
      ghost var cells, w := buf[..], writeCursor;
      assert Slot(w, 0, buf.Length) == w;
      buf[writeCursor] := b;
      writeCursor := writeCursor + 1;
      if writeCursor == buf.Length { writeCursor := 0; }
      size := size + 1;
      RingWritten(cells, buf[..], readCursor, size - 1, [b]);
      return false;
    }

    method ByteQueuePullByte() returns (b: byte)
      requires Valid() && Contents() != []
      modifies this
      ensures Valid()
      ensures b == old(Contents())[0] && Contents() == old(Contents())[1..]
    {
      RingSplit(buf[..], readCursor, 1, size);
      b := buf[readCursor];
      readCursor := readCursor + 1;
      if readCursor == buf.Length { readCursor := 0; }
      size := size - 1;
    }

    /** Writes the data behind the write cursor, in one or two pieces. */
    method CopyIn(data: seq<byte>)
      requires Valid() && data != [] && size + |data| <= buf.Length
      modifies this`writeCursor, buf
      ensures forall i :: 0 <= i < |data| ==> buf[Slot(old(writeCursor), i, buf.Length)] == data[i]
      ensures forall c | 0 <= c < buf.Length && (forall i :: 0 <= i < |data| ==> c != Slot(old(writeCursor), i, buf.Length))
                :: buf[c] == old(buf[c])
      ensures writeCursor == Slot(readCursor, size + |data|, buf.Length)
    {
      ghost var w := writeCursor;
      if writeCursor + |data| <= buf.Length {
        forall i | 0 <= i < |data| { buf[writeCursor + i] := data[i]; }
        writeCursor := writeCursor + |data|;
        if writeCursor == buf.Length { writeCursor := writeCursor - buf.Length; }
      } else {
        var first := buf.Length - writeCursor;
        forall i | 0 <= i < first { buf[writeCursor + i] := data[i]; }
        forall i | 0 <= i < |data| - first { buf[i] := data[first + i]; }
        writeCursor := writeCursor + |data| - buf.Length;
      }
      forall c | 0 <= c < buf.Length && buf[c] != old(buf[c])
        ensures exists i :: 0 <= i < |data| && c == Slot(w, i, buf.Length)
      {
        assert c == Slot(w, if c >= w then c - w else c + buf.Length - w, buf.Length);
      }
    }

    /** Appends all of the data in one or two pieces, or nothing when it does not fit. */
    method ByteQueuePushBuffer(data: seq<byte>) returns (overflow: bool)
      requires Valid()
      modifies this, buf
      ensures Valid()
      ensures overflow == (|old(Contents())| + |data| > buf.Length && data != [])
      ensures Contents() == if overflow then old(Contents()) else old(Contents()) + data
      ensures readCursor == old(readCursor)
    {
      if data == [] { return false; }
      if size + |data| > buf.Length { return true; }
      ghost var cells := buf[..];
      CopyIn(data);
      size := size + |data|;
      RingWritten(cells, buf[..], readCursor, size - |data|, data);
      return false;
    }

    /** A slice that ends at the write cursor or at the end of the array, without wrapping. */
    method ByteQueuePeek() returns (offset: nat, length: nat)
      requires Valid()
      ensures offset + length <= buf.Length && length <= |Contents()|
      ensures buf[offset..offset + length] == Contents()[..length]
      ensures offset == readCursor && (length == 0 <==> Contents() == [])
    {
      offset := readCursor;
      if size == 0 {
        length := 0;
      } else if writeCursor <= readCursor {
        length := buf.Length - readCursor;
      } else {
        length := writeCursor - readCursor;
      }
      RingSplit(buf[..], readCursor, length, size);
      RingSlices(buf[..], readCursor, length);
    }

    /** Two slices that together are the oldest bytes, at most `max` of them. */
    method ByteQueuePeekMax(max: nat) returns (offset1: nat, length1: nat, offset2: nat, length2: nat)
      requires Valid()
      ensures offset1 + length1 <= buf.Length && offset2 + length2 <= buf.Length
      ensures length1 + length2 == if max <= |Contents()| then max else |Contents()|
      ensures buf[offset1..offset1 + length1] + buf[offset2..offset2 + length2] == Contents()[..length1 + length2]
      ensures length1 == 0 ==> length2 == 0
    {
      var n := if max > size then size else max;
      offset1, offset2 := readCursor, 0;
      if readCursor + n > buf.Length {
        length1 := buf.Length - readCursor;
        length2 := n - length1;
      } else {
        length1, length2 := n, 0;
      }
      RingSplit(buf[..], readCursor, n, size);
      RingSlices(buf[..], readCursor, n);
    }

    method ByteQueuePull(n: nat)
      requires Valid() && n <= |Contents()|
      modifies this
      ensures Valid() && Contents() == old(Contents())[n..]
    {
      RingSplit(buf[..], readCursor, n, size);
      readCursor := readCursor + n;
      size := size - n;
      if readCursor >= buf.Length { readCursor := readCursor - buf.Length; }
    }

    method ByteQueuePullToBuffer(n: nat) returns (data: seq<byte>)
      requires Valid() && n <= |Contents()|
      modifies this
      ensures Valid() && data == old(Contents())[..n] && Contents() == old(Contents())[n..]
    {
      var offset1, length1, offset2, length2 := ByteQueuePeekMax(n);
      data := buf[offset1..offset1 + length1] + buf[offset2..offset2 + length2];
      ByteQueuePull(n);
    }
  }
}
