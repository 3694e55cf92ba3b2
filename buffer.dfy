/**
 * The connection byte buffer: a growable vector of bytes with a read cursor
 * and a write cursor.  The store is split into the prependable span
 * [0, readIdx), the readable span [readIdx, writeIdx) and the writable span
 * [writeIdx, capacity).  The kernel calls readv and write are not modelled;
 * their results (how many bytes arrived, how many were accepted, errno) are
 * parameters of ReadFd and WriteFd.
 */
module ByteBuffer {
  import opened Common

  /** Initial capacity of a default-constructed buffer. */
  const DefaultSize: nat := 1024
  /** Size of the stack scratch area that ReadFd gives readv as its second region. */
  const ScratchSize: nat := 65535

  class Buffer {
    var buf: seq<char>
    var readIdx: nat
    var writeIdx: nat

    /** The cursor invariant: readIdx <= writeIdx <= capacity. */
    ghost predicate Valid()
      reads this
    {
      readIdx <= writeIdx <= |buf|
    }

    /** The capacity and both cursors. */
    function Shape(): Layout
      reads this
    {
      Layout(|buf|, readIdx, writeIdx)
    }

    /** The readable bytes, in order. */
    ghost function Contents(): seq<char>
      reads this
      requires Valid()
    {
      buf[readIdx..writeIdx]
    }

    constructor (initBuffSize: nat := DefaultSize)
      ensures Valid()
      ensures |buf| == initBuffSize && readIdx == 0 && writeIdx == 0
      ensures Contents() == []
    {
      buf := seq(initBuffSize, _ => '\0');
      readIdx, writeIdx := 0, 0;
    }

    function ReadableBytes(): (n: nat)
      reads this
      requires Valid()
      ensures n == |Contents()|
    {
      writeIdx - readIdx
    }

    function WritableBytes(): (n: nat)
      reads this
      requires Valid()
      ensures writeIdx + n == |buf|
    {
      |buf| - writeIdx
    }

    function PrependableBytes(): (n: nat)
      reads this
      requires Valid()
      ensures n + ReadableBytes() + WritableBytes() == |buf|
    {
      readIdx
    }

    /** Position of the first readable byte. */
    function Peek(): (p: nat)
      reads this
      requires Valid()
      ensures p + ReadableBytes() == writeIdx
      ensures ReadableBytes() > 0 ==> buf[p] == Contents()[0]
    {
      readIdx
    }

    /** Position of the first writable byte. */
    function BeginWrite(): (p: nat)
      reads this
      requires Valid()
      ensures p + WritableBytes() == |buf|
    {
      writeIdx
    }

    /** Marks len bytes already placed at BeginWrite() as readable. */
    method HasWritten(len: nat)
      requires Valid() && len <= WritableBytes()
      modifies this
      ensures Valid() && buf == old(buf) && readIdx == old(readIdx)
      ensures writeIdx == old(writeIdx) + len
      ensures Contents() == old(Contents()) + buf[old(writeIdx)..writeIdx]
    {
      writeIdx := writeIdx + len;
    }

    /** Consumes len readable bytes; the source asserts len <= ReadableBytes(). */
    method Retrieve(len: nat)
      requires Valid() && len <= ReadableBytes()
      modifies this
      ensures Valid() && buf == old(buf) && writeIdx == old(writeIdx)
      ensures readIdx == old(readIdx) + len
      ensures Contents() == old(Contents())[len..]
    {
      readIdx := readIdx + len;
    }

    /** Consumes the readable bytes before position end, so that end becomes the first readable byte. */
    method RetrieveUntil(end: nat)
      requires Valid() && Peek() <= end <= writeIdx
      modifies this
      ensures Valid() && buf == old(buf) && writeIdx == old(writeIdx)
      ensures readIdx == end
      ensures Contents() == old(Contents())[end - old(readIdx)..]
    {
      Retrieve(end - Peek());
    }

    /** Zeroes the whole store and resets both cursors; the capacity is kept. */
    method RetrieveAll()
      requires Valid()
      modifies this
      ensures Valid() && |buf| == old(|buf|)
      ensures readIdx == 0 && writeIdx == 0 && Contents() == []
      ensures forall k :: 0 <= k < |buf| ==> buf[k] == '\0'
    {
      buf := seq(|buf|, _ => '\0');
      readIdx := 0;
      writeIdx := 0;
    }

    /** Returns the readable bytes and then empties the buffer. */
    method RetrieveAllToStr() returns (s: string)
      requires Valid()
      modifies this
      ensures Valid() && |buf| == old(|buf|)
      ensures s == old(Contents())
      ensures readIdx == 0 && writeIdx == 0 && Contents() == []
      ensures forall k :: 0 <= k < |buf| ==> buf[k] == '\0'
    {
      s := buf[readIdx..writeIdx];
      RetrieveAll();
    }

    /** Copies s into the store at position at; nothing else changes. */
    method Place(at: nat, s: seq<char>)
      requires at + |s| <= |buf|
      modifies this
      ensures |buf| == old(|buf|) && buf[at..at + |s|] == s
      ensures buf[..at] == old(buf[..at]) && buf[at + |s|..] == old(buf[at + |s|..])
      ensures readIdx == old(readIdx) && writeIdx == old(writeIdx)
    {
      buf := buf[..at] + s + buf[at + |s|..];
    }

    /** std::vector::resize to a larger size: old bytes kept, new bytes zero. */
    method Grow(newSize: nat)
      requires Valid() && |buf| <= newSize
      modifies this
      ensures Valid() && |buf| == newSize
      ensures readIdx == old(readIdx) && writeIdx == old(writeIdx)
      ensures buf[..old(|buf|)] == old(buf)
      ensures forall k :: old(|buf|) <= k < newSize ==> buf[k] == '\0'
      ensures Contents() == old(Contents())
    {
      buf := buf + seq(newSize - |buf|, _ => '\0');
    }

    /** Moves the readable bytes to offset 0, front to back (std::copy). */
    method Compact()
      requires Valid()
      modifies this
      ensures Valid() && |buf| == old(|buf|)
      ensures readIdx == 0 && writeIdx == old(writeIdx - readIdx)
      ensures Contents() == old(Contents())
    {
      var r, n := readIdx, writeIdx - readIdx;
      var i := 0;
      while i < n
        invariant 0 <= i <= n && |buf| == old(|buf|) && readIdx == r && writeIdx == r + n
        invariant forall k :: 0 <= k < i ==> buf[k] == old(buf[r + k])
        invariant forall k :: i <= k < |buf| ==> buf[k] == old(buf[k])
      {
        buf := buf[i := buf[r + i]];
        i := i + 1;
      }
      readIdx := 0;
      writeIdx := n;
    }

    /** Makes room for len more bytes: compaction when the prependable and
        writable spans together suffice, otherwise growth to writeIdx + len. */
    method MakeSpace(len: nat)
      requires Valid()
      modifies this
      ensures Valid()
      ensures Contents() == old(Contents()) && WritableBytes() >= len
      ensures old(WritableBytes() + PrependableBytes()) < len ==>
                |buf| == old(writeIdx) + len && readIdx == old(readIdx)
      ensures old(WritableBytes() + PrependableBytes()) >= len ==>
                |buf| == old(|buf|) && readIdx == 0
    {
      if WritableBytes() + PrependableBytes() < len {
        Grow(writeIdx + len);
      } else {
        Compact();
      }
    }

    /** MakeSpace as the source writes it: the growth branch resizes to
        writeIdx + len - 1, one byte short of what the caller asked for. */
    method MakeSpaceAsWritten(len: nat)
      requires Valid()
      modifies this
      ensures Valid()
      ensures Contents() == old(Contents())
      ensures old(WritableBytes() + PrependableBytes()) < len ==>
                |buf| == old(writeIdx) + len - 1 && WritableBytes() == len - 1
      ensures old(WritableBytes() + PrependableBytes()) >= len ==>
                |buf| == old(|buf|) && readIdx == 0 && WritableBytes() >= len
    {
      if WritableBytes() + PrependableBytes() < len {
        Grow(writeIdx + len - 1);
      } else {
        Compact();
      }
    }

    /** EnsureWriteable as the source writes it; assertionHolds reports whether
        its final assert(WritableBytes() >= len) is satisfied. */
    method EnsureWriteableAsWritten(len: nat) returns (assertionHolds: bool)
      requires Valid()
      modifies this
      ensures Valid()
      ensures Contents() == old(Contents())
      ensures assertionHolds == (WritableBytes() >= len)
      ensures assertionHolds <==> old(WritableBytes()) >= len || old(WritableBytes() + PrependableBytes()) >= len
      ensures !assertionHolds ==> WritableBytes() == len - 1
    {
      if WritableBytes() < len {
        MakeSpaceAsWritten(len);
      }
      assertionHolds := WritableBytes() >= len;
    }

    /** Guarantees len writable bytes, without losing readable ones. */
    method EnsureWriteable(len: nat)
      requires Valid()
      modifies this
      ensures Valid()
      ensures Contents() == old(Contents()) && WritableBytes() >= len
      ensures |buf| == AppendCapacity(old(|buf|), old(readIdx), old(writeIdx), len)
      ensures Shape() == MadeRoom(old(Shape()), len)
      ensures old(WritableBytes()) >= len ==> buf == old(buf) && readIdx == old(readIdx)
    {
      if WritableBytes() < len {
        MakeSpace(len);
      }
    }

    /** Appends s after the readable bytes. */
    method Append(s: seq<char>)
      requires Valid()
      modifies this
      ensures Valid()
      ensures Contents() == old(Contents()) + s
      ensures |buf| == AppendCapacity(old(|buf|), old(readIdx), old(writeIdx), |s|)
      ensures Shape() == Appended(old(Shape()), |s|)
      ensures old(WritableBytes()) >= |s| ==> readIdx == old(readIdx)
    {
      EnsureWriteable(|s|);
      ghost var before, w := Contents(), writeIdx;
      Place(writeIdx, s);
      assert buf[readIdx..writeIdx] == before;
      HasWritten(|s|);
      assert buf[w..writeIdx] == s;
    }

    /** Appends the readable span of another buffer, which is left unchanged. */
    method AppendBuffer(other: Buffer)
      requires Valid() && other.Valid() && other != this
      modifies this
      ensures Valid()
      ensures Contents() == old(Contents()) + other.Contents()
      ensures other.Contents() == old(other.Contents())
    {
      Append(other.buf[other.Peek()..other.Peek() + other.ReadableBytes()]);
    }

    /**
     * One readv into the writable span and the scratch area.  n is what readv
     * returned and incoming the bytes it delivered (n of them when n >= 0);
     * errno is the error code when n < 0.
     */
    method ReadFd(n: int, incoming: seq<char>, errno: int) returns (len: int, savedErrno: Option<int>)
      requires Valid()
      requires n >= 0 ==> |incoming| == n && n <= ReadvRoom(Shape())
      modifies this
      ensures Valid()
      ensures len == n
      ensures n < 0 ==> savedErrno == Some(errno) && buf == old(buf)
                        && readIdx == old(readIdx) && writeIdx == old(writeIdx)
      ensures n >= 0 ==> savedErrno == None && Contents() == old(Contents()) + incoming
      ensures n >= 0 ==> Shape() == AfterReadv(old(Shape()), n)
      ensures 0 <= n <= old(WritableBytes()) ==>
                |buf| == old(|buf|) && readIdx == old(readIdx) && writeIdx == old(writeIdx) + n
      ensures n > old(WritableBytes()) ==>
                |buf| == AppendCapacity(old(|buf|), old(readIdx), old(|buf|), n - old(WritableBytes()))
    {
      var writable := WritableBytes();
      len := n;
      savedErrno := None;
      if n < 0 {
        savedErrno := Some(errno);
      } else if n <= writable {
        ghost var before := Contents();
        Place(writeIdx, incoming);
        assert buf[readIdx..writeIdx] == before;
        HasWritten(n);
        assert buf[old(writeIdx)..writeIdx] == incoming;
      } else {
        ghost var before := Contents();
        Place(writeIdx, incoming[..writable]);
        assert buf[readIdx..writeIdx] == before;
        writeIdx := |buf|;
        assert Contents() == before + incoming[..writable];
        Append(incoming[writable..]);
        assert incoming[..writable] + incoming[writable..] == incoming;
      }
    }

    /**
     * One write of the readable span.  accepted is what write returned (never
     * more than was offered) and errno the error code when it is negative;
     * sent is the prefix of the readable bytes that left the buffer.
     */
    method WriteFd(accepted: int, errno: int) returns (len: int, savedErrno: Option<int>, sent: seq<char>)
      requires Valid() && accepted <= ReadableBytes()
      modifies this
      ensures Valid() && buf == old(buf) && writeIdx == old(writeIdx)
      ensures len == accepted
      ensures accepted < 0 ==> savedErrno == Some(errno) && readIdx == old(readIdx) && sent == []
      ensures accepted >= 0 ==> savedErrno == None && readIdx == old(readIdx) + accepted
      ensures accepted >= 0 ==> sent == old(Contents())[..accepted] && Contents() == old(Contents())[accepted..]
    {
      len := accepted;
      if accepted < 0 {
        savedErrno := Some(errno);
        sent := [];
        return;
      }
      savedErrno := None;
      sent := buf[readIdx..readIdx + accepted];
      readIdx := readIdx + accepted;
    }
  }

  /** A buffer's capacity and its two cursors. */
  datatype Layout = Layout(size: nat, readIdx: nat, writeIdx: nat)
  {
    predicate Ok()
    {
      readIdx <= writeIdx <= size
    }
  }

  /** The layout after EnsureWriteable(len): kept when len bytes are already
      writable, compacted to offset 0 when the prependable and writable spans
      together suffice, otherwise grown to writeIdx + len. */
  function MadeRoom(l: Layout, len: nat): (r: Layout)
    requires l.Ok()
    ensures r.Ok() && r.size >= l.size && r.size - r.writeIdx >= len
    ensures r.writeIdx - r.readIdx == l.writeIdx - l.readIdx
    ensures l.size - l.writeIdx >= len ==> r == l
  {
    if l.size - l.writeIdx >= len then l
    else if l.size - l.writeIdx + l.readIdx >= len then Layout(l.size, 0, l.writeIdx - l.readIdx)
    else Layout(l.writeIdx + len, l.readIdx, l.writeIdx)
  }

  /** The layout after Append of len bytes: room is made, then the write
      cursor moves past them. */
  function Appended(l: Layout, len: nat): (r: Layout)
    requires l.Ok()
    ensures r.Ok() && r.size >= l.size
    ensures r.writeIdx - r.readIdx == l.writeIdx - l.readIdx + len
  {
    var m := MadeRoom(l, len);
    m.(writeIdx := m.writeIdx + len)
  }

  /** How much one readv can deliver: the writable span plus the scratch area. */
  function ReadvRoom(l: Layout): (n: nat)
    requires l.Ok()
    ensures n >= ScratchSize
  {
    l.size - l.writeIdx + ScratchSize
  }

  /** The layout after a readv that delivered n bytes: they land in the
      writable span when they fit; otherwise the span is filled and the
      rest, taken from the scratch area, is appended. */
  function AfterReadv(l: Layout, n: nat): (r: Layout)
    requires l.Ok() && n <= ReadvRoom(l)
    ensures r.Ok() && r.size >= l.size
    ensures r.writeIdx - r.readIdx == l.writeIdx - l.readIdx + n
  {
    if n <= l.size - l.writeIdx then l.(writeIdx := l.writeIdx + n)
    else Appended(l.(writeIdx := l.size), n - (l.size - l.writeIdx))
  }

  /** The capacity after making room for len bytes in a store of the given
      capacity and cursors: unchanged when the free spans suffice, otherwise
      exactly writeIdx + len (it never shrinks). */
  function AppendCapacity(capacity: nat, readIdx: nat, writeIdx: nat, len: nat): (c: nat)
    requires readIdx <= writeIdx <= capacity
    ensures c >= capacity
    ensures c - writeIdx + (if c == capacity then readIdx else 0) >= len
    ensures c == MadeRoom(Layout(capacity, readIdx, writeIdx), len).size
  {
    if capacity - writeIdx >= len || capacity - writeIdx + readIdx >= len then capacity else writeIdx + len
  }

  /** A buffer of capacity 4 filled with four bytes: making room for two more
      with the source's EnsureWriteable leaves one writable byte, so its
      assertion fails. */
  method ShortGrowthWitness() returns (assertionHolds: bool, writable: nat)
    ensures !assertionHolds && writable == 1
  {
    var b := FilledFour();
    assertionHolds := b.EnsureWriteableAsWritten(2);
    writable := b.WritableBytes();
  }

  /** A fresh buffer of capacity 4 after appending four bytes: full, with
      nothing read. */
  method FilledFour() returns (b: Buffer)
    ensures fresh(b) && b.Valid() && b.Shape() == Layout(4, 0, 4)
  {
    b := new Buffer(4);
    b.Append("abcd");
    assert Appended(Layout(4, 0, 0), 4) == Layout(4, 0, 4);
  }

  /** A default buffer starts empty with capacity 1024. */
  method DefaultBufferIsEmpty() returns (capacity: nat, readable: nat)
    ensures capacity == 1024 && readable == 0
  {
    var b := new Buffer();
    capacity := |b.buf|;
    readable := b.ReadableBytes();
  }

  /** RetrieveAllToStr then Append of the same bytes reproduces them. */
  method RetrieveAppendRoundTrip(b: Buffer) returns (s: string)
    requires b.Valid()
    modifies b
    ensures b.Valid() && s == old(b.Contents()) && b.Contents() == s
  {
    s := b.RetrieveAllToStr();
    b.Append(s);
  }
}
