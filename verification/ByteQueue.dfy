/**
 The sliding buffer: a vector of bytes with a read and a write position.  Whatever it does inside, it
 is a first-in, first-out queue.
 */
module ByteQueue {
  type Byte = b: int | 0 <= b < 256

  /** How much room compaction leaves in front. */
  const HEAD: nat := 16

  /** The bytes of an unsigned integer as a little-endian host stores it. */
  function BytesOf(n: nat, width: nat): (s: seq<Byte>)
    ensures |s| == width
  {
    if width == 0 then [] else [n % 256] + BytesOf(n / 256, width - 1)
  }

  function NumberOf(s: seq<Byte>): nat {
    if s == [] then 0 else s[0] + 256 * NumberOf(s[1..])
  }

  function Power256(k: nat): nat {
    if k == 0 then 1 else 256 * Power256(k - 1)
  }

  /** An integer written is the integer read. */
  lemma {:induction false} NumberOfBytes(n: nat, width: nat)
    requires n < Power256(width)
    ensures NumberOf(BytesOf(n, width)) == n
  {
    if width > 0 {
      NumberOfBytes(n / 256, width - 1);
      assert BytesOf(n, width)[1..] == BytesOf(n / 256, width - 1);
    }
  }

  /** The lowest bytes come first. */
  lemma {:induction false} LowBytesFirst(low: nat, high: nat, k: nat, width: nat)
    requires low < Power256(k)
    ensures BytesOf(low + Power256(k) * high, k + width) == BytesOf(low, k) + BytesOf(high, width)
    decreases k
  {
    if k > 0 {
      var p := Power256(k - 1);
      assert low + (256 * p) * high == low + 256 * (p * high);
      assert (low + 256 * (p * high)) / 256 == low / 256 + p * high;
      LowBytesFirst(low / 256, high, k - 1, width);
    }
  }

  function Min(a: nat, b: nat): nat {
    if a < b then a else b
  }

  class ByteArray {
    var buffer: array<Byte>
    var readIndex: nat
    var writeIndex: nat

    ghost predicate Valid()
      reads this
    {
      readIndex <= writeIndex <= buffer.Length
    }

    /** The bytes waiting to be read. */
    ghost function Contents(): seq<Byte>
      requires Valid()
      reads this, buffer
    {
      buffer[readIndex..writeIndex]
    }

    /** An empty buffer, its positions at 0 (which the constructor leaves to chance and clear sets). */
    constructor (size: nat)
      ensures Valid() && Contents() == [] && buffer.Length == size && fresh(buffer)
    {
      buffer := new Byte[size](_ => 0);
      readIndex, writeIndex := 0, 0;
    }

    method Clear()
      requires Valid()
      modifies this
      ensures Valid() && Contents() == [] && fresh(buffer)
    {
      readIndex, writeIndex := 0, 0;
      buffer := new Byte[0];
    }

    function ReadableSize(): (n: nat)
      requires Valid()
      reads this, buffer
      ensures n == |Contents()|
    {
      writeIndex - readIndex
    }

    function WriteableSize(): nat
      requires Valid()
      reads this
    {
      buffer.Length - writeIndex
    }

    /** The copy loop of a compaction, from the front. */
    method CopyDown(from: nat, to: nat, len: nat)
      requires to <= from && from + len <= buffer.Length
      modifies buffer
      ensures buffer[to..to + len] == old(buffer[from..from + len])
    {
      var k := 0;
      while k < len
        invariant 0 <= k <= len
        invariant buffer[to..to + k] == old(buffer[from..from + k])
        invariant buffer[from + k..from + len] == old(buffer[from + k..from + len])
      {
        assert buffer[from + k] == buffer[from + k..from + len][0] == old(buffer[from + k]);
        buffer[to + k] := buffer[from + k];
        k := k + 1;
      }
    }

    /**
     MakeSpace, as Write calls it: when the bytes do not fit.  Either the buffer grows, to less than
     what is readable plus twice the size plus the head, or the bytes move strictly downwards.
     */
    method MakeSpace(size: nat)
      requires Valid() && WriteableSize() < size
      modifies this, buffer
      ensures Valid() && Contents() == old(Contents()) && WriteableSize() >= size
      ensures buffer == old(buffer) || fresh(buffer)
      ensures buffer == old(buffer) ==> readIndex == HEAD < old(readIndex)
      ensures buffer != old(buffer) ==> old(buffer.Length) < buffer.Length < |Contents()| + 2 * size + HEAD
    {
      if readIndex + WriteableSize() < size + HEAD {
        var grown := new Byte[writeIndex + size](_ => 0);
        forall i | 0 <= i < writeIndex {
          grown[i] := buffer[i];
        }
        assert forall i :: 0 <= i < writeIndex ==> grown[i] == buffer[i];
        assert grown[..writeIndex] == buffer[..writeIndex];
        assert grown[readIndex..writeIndex] == grown[..writeIndex][readIndex..];
        buffer := grown;
      } else {
        var readable := ReadableSize();
        CopyDown(readIndex, HEAD, readable);
        readIndex := HEAD;
        writeIndex := HEAD + readable;
      }
    }

    method Write(data: seq<Byte>)
      requires Valid()
      modifies this, buffer
      ensures Valid() && Contents() == old(Contents()) + data
      ensures buffer == old(buffer) || fresh(buffer)
      ensures buffer != old(buffer) ==> buffer.Length < |old(Contents())| + 2 * |data| + HEAD
    {
      if WriteableSize() < |data| {
        MakeSpace(|data|);
      }
      CopyIn(data);
    }

    /** The copy at the end of Write. */
    method CopyIn(data: seq<Byte>)
      requires Valid() && WriteableSize() >= |data|
      modifies this`writeIndex, buffer
      ensures Valid() && Contents() == old(Contents()) + data
    {
      ghost var before := Contents();
      forall i | 0 <= i < |data| {
        buffer[writeIndex + i] := data[i];
      }
      assert buffer[readIndex..writeIndex] == before;
      assert buffer[writeIndex..writeIndex + |data|] == data;
      writeIndex := writeIndex + |data|;
    }

    method Read(size: nat) returns (data: seq<Byte>)
      requires Valid()
      modifies this`readIndex
      ensures Valid()
      ensures data == old(Contents())[..Min(size, |old(Contents())|)]
      ensures Contents() == old(Contents())[Min(size, |old(Contents())|)..]
    {
      var n := if size > ReadableSize() then ReadableSize() else size;
      if n == 0 {
        return [];
      }
      data := buffer[readIndex..readIndex + n];
      assert forall i :: 0 <= i < n ==> data[i] == Contents()[i];
      readIndex := readIndex + n;
    }

    /** GetReadBuffer hands out the same bytes by reference. */
    method GetReadBuffer(len: nat) returns (base: nat, size: nat)
      requires Valid()
      modifies this`readIndex
      ensures Valid() && base + size <= buffer.Length
      ensures size == Min(len, |old(Contents())|) && buffer[base..base + size] == old(Contents())[..size]
      ensures Contents() == old(Contents())[size..]
    {
      size := if len > ReadableSize() then ReadableSize() else len;
      base := readIndex;
      assert forall i :: 0 <= i < size ==> buffer[base + i] == Contents()[i];
      readIndex := readIndex + size;
    }

    method ToString() returns (data: seq<Byte>)
      requires Valid()
      modifies this`readIndex
      ensures Valid() && data == old(Contents()) && Contents() == []
    {
      if ReadableSize() == 0 {
        return [];
      }
      data := Read(ReadableSize());
    }

    method WriteInt(n: nat, width: nat)
      requires Valid() && n < Power256(width)
      modifies this, buffer
      ensures Valid() && Contents() == old(Contents()) + BytesOf(n, width)
      ensures buffer == old(buffer) || fresh(buffer)
    {
      Write(BytesOf(n, width));
    }

    /** ReadInt: what is not there to be read keeps whatever the variable held. */
    method ReadInt(width: nat, held: seq<Byte>) returns (n: nat)
      requires Valid() && |held| == width
      modifies this`readIndex
      ensures Valid()
      ensures var k := Min(width, |old(Contents())|);
              n == NumberOf(old(Contents())[..k] + held[k..]) && Contents() == old(Contents())[k..]
    {
      var data := Read(width);
      n := NumberOf(data + held[|data|..]);
    }
  }

  // ---------------------------------------------------------------- histories

  /** ReadInt's `held` is what its variable, of as many bytes, holds beforehand. */
  datatype Op =
    | Write(data: seq<Byte>)
    | WriteInt(n: nat, width: nat)
    | Read(size: nat)
    | ReadAll
    | GetReadBuffer(size: nat)
    | ReadInt(held: seq<Byte>)
    | Clear

  datatype Shown = Nothing | Bytes(data: seq<Byte>) | Number(n: nat)

  function Written(op: Op): seq<Byte> {
    match op
    case Write(data) => data
    case WriteInt(n, width) => BytesOf(n, width)
    case _ => []
  }

  /** How many of `size` waiting bytes an operation takes, or, clearing, drops. */
  function Taken(op: Op, size: nat): (k: nat)
    ensures k <= size
  {
    match op
    case Read(n) => Min(n, size)
    case GetReadBuffer(n) => Min(n, size)
    case ReadInt(held) => Min(|held|, size)
    case ReadAll => size
    case Clear => size
    case _ => 0
  }

  /** What an operation that takes these bytes shows of them. */
  function Shows(op: Op, taken: seq<Byte>): Shown
    requires op.ReadInt? ==> |taken| <= |op.held|
  {
    match op
    case Read(n) => Bytes(taken)
    case GetReadBuffer(n) => Bytes(taken)
    case ReadAll => Bytes(taken)
    case ReadInt(held) => Number(NumberOf(taken + held[|taken|..]))
    case _ => Nothing
  }

  /** What an operation shows when these bytes wait. */
  function Answer(op: Op, waiting: seq<Byte>): Shown {
    Shows(op, waiting[..Taken(op, |waiting|)])
  }

  /** A queue: what waits after a history. */
  function Waiting(ops: seq<Op>): seq<Byte>
    decreases |ops|
  {
    if ops == [] then []
    else
      var before, op := Waiting(ops[..|ops| - 1]), ops[|ops| - 1];
      before[Taken(op, |before|)..] + Written(op)
  }

  /** All bytes taken in a history, in the order in which they were taken. */
  function Gone(ops: seq<Op>): seq<Byte>
    decreases |ops|
  {
    if ops == [] then []
    else
      var before, op := Waiting(ops[..|ops| - 1]), ops[|ops| - 1];
      Gone(ops[..|ops| - 1]) + before[..Taken(op, |before|)]
  }

  function AllWritten(ops: seq<Op>): seq<Byte>
    decreases |ops|
  {
    if ops == [] then [] else AllWritten(ops[..|ops| - 1]) + Written(ops[|ops| - 1])
  }

  /** Reading some of what waits, and appending, moves the seam between read and waiting. */
  lemma Requeue(out: seq<Byte>, waiting: seq<Byte>, k: nat, more: seq<Byte>)
    requires k <= |waiting|
    ensures (out + waiting[..k]) + (waiting[k..] + more) == (out + waiting) + more
  {
    assert waiting == waiting[..k] + waiting[k..];
  }

  /** First in, first out: what was taken, followed by what waits, is what was written, in order. */
  lemma {:induction false} FirstInFirstOut(ops: seq<Op>)
    ensures Gone(ops) + Waiting(ops) == AllWritten(ops)
    decreases |ops|
  {
    if ops != [] {
      hide Taken, Written;
      var front, op := ops[..|ops| - 1], ops[|ops| - 1];
      FirstInFirstOut(front);
      Requeue(Gone(front), Waiting(front), Taken(op, |Waiting(front)|), Written(op));
    }
  }

  /** One operation of the class. */
  method Perform(b: ByteArray, op: Op) returns (r: Shown)
    requires b.Valid()
    requires op.WriteInt? ==> op.n < Power256(op.width)
    modifies b, b.buffer
    ensures b.Valid() && (b.buffer == old(b.buffer) || fresh(b.buffer))
    ensures r == Answer(op, old(b.Contents()))
    ensures b.Contents() == old(b.Contents())[Taken(op, |old(b.Contents())|)..] + Written(op)
  {
    r := Nothing;
    match op {
      case Write(data) => b.Write(data);
      case WriteInt(n, width) => b.WriteInt(n, width);
      case Read(n) =>
        var data := b.Read(n);
        r := Bytes(data);
      case ReadAll =>
        var data := b.ToString();
        r := Bytes(data);
      case GetReadBuffer(n) =>
        var base, size := b.GetReadBuffer(n);
        r := Bytes(b.buffer[base..base + size]);
      case ReadInt(held) =>
        var n := b.ReadInt(|held|, held);
        r := Number(n);
      case Clear => b.Clear();
    }
  }

  /**
   Over any history of operations, with buffers growing, compacting and being replaced as they will, the
   class is this queue: every operation shows what the queue would have shown.
   */
  method RunHistory(b: ByteArray, ops: seq<Op>) returns (shown: seq<Shown>)
    requires b.Valid() && b.Contents() == []
    requires forall i :: 0 <= i < |ops| && ops[i].WriteInt? ==> ops[i].n < Power256(ops[i].width)
    modifies b, b.buffer
    ensures b.Valid() && b.Contents() == Waiting(ops) && Gone(ops) + b.Contents() == AllWritten(ops)
    ensures |shown| == |ops| && forall i :: 0 <= i < |ops| ==> shown[i] == Answer(ops[i], Waiting(ops[..i]))
  {
    hide Written, Answer, Taken, Gone, AllWritten, Power256;
    shown := [];
    assert ops[..0] == [];
    for i := 0 to |ops|
      invariant b.Valid() && (b.buffer == old(b.buffer) || fresh(b.buffer)) && b.Contents() == Waiting(ops[..i])
      invariant |shown| == i && forall j :: 0 <= j < i ==> shown[j] == Answer(ops[j], Waiting(ops[..j]))
    {
      assert ops[..i + 1][..i] == ops[..i];
      var r := Perform(b, ops[i]);
      shown := shown + [r];
    }
    assert ops[..|ops|] == ops;
    FirstInFirstOut(ops);
  }
}
