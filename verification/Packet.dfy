/**
 The bounded packet writer and reader of packet.c: big-endian integers, a
 payload limit, and errors that stick.
 */
module Packets {
  import opened Arithmetic

  type Byte = b: nat | b < 256

  const PAYLOAD_MAX: nat := 65534
  const SIZE_MAX: nat := 0xffff_ffff_ffff_ffff
  const UINT8: nat := 0x100
  const UINT16: nat := 0x1_0000
  const UINT32: nat := 0x1_0000_0000

  datatype Error = NoError | Truncated | InvalidEncoding | LimitExceeded | TrailingData | SizeOverflow

  // ---- big-endian integers -------------------------------------------------

  function Bytes16(v: nat): (b: seq<Byte>)
    requires v < UINT16
    ensures |b| == 2
  {
    [v / 0x100 % 0x100, v % 0x100]
  }

  function Bytes32(v: nat): (b: seq<Byte>)
    requires v < UINT32
    ensures |b| == 4
  {
    [v / 0x100_0000 % 0x100, v / 0x1_0000 % 0x100, v / 0x100 % 0x100, v % 0x100]
  }

  function Word16(b: seq<Byte>): (v: nat)
    requires |b| == 2
    ensures v < UINT16
  {
    b[0] as nat * 0x100 + b[1] as nat
  }

  function Word32(b: seq<Byte>): (v: nat)
    requires |b| == 4
    ensures v < UINT32
  {
    b[0] as nat * 0x100_0000 + b[1] as nat * 0x1_0000 + b[2] as nat * 0x100 + b[3] as nat
  }

  function Bytes64(v: nat): (b: seq<Byte>)
    requires v <= UINT64_MAX
    ensures |b| == 8
  {
    Bytes32(v / UINT32) + Bytes32(v % UINT32)
  }

  function Word64(b: seq<Byte>): (v: nat)
    requires |b| == 8
    ensures v <= UINT64_MAX
  {
    Word32(b[..4]) * UINT32 + Word32(b[4..])
  }

  lemma Words16(v: nat)
    requires v < UINT16
    ensures Word16(Bytes16(v)) == v
  {}

  lemma Words32(v: nat)
    requires v < UINT32
    ensures Word32(Bytes32(v)) == v
  {
    var a := v / 0x100;
    var b := a / 0x100;
    var c := b / 0x100;
    DivUnique(v, 0x1_0000, b, 0x100 * (a % 0x100) + v % 0x100);
    DivUnique(v, 0x100_0000, c, 0x1_0000 * (b % 0x100) + 0x100 * (a % 0x100) + v % 0x100);
  }

  /** And bytes are those of the word they make. */
  lemma BytesOfWord16(b: seq<Byte>)
    requires |b| == 2
    ensures Bytes16(Word16(b)) == b
  {}

  lemma BytesOfWord32(b: seq<Byte>)
    requires |b| == 4
    ensures Bytes32(Word32(b)) == b
  {
    var v := Word32(b);
    var c, d := b[0] as nat * 0x100 + b[1], b[0] as nat * 0x1_0000 + b[1] as nat * 0x100 + b[2];
    DivUnique(v, 0x100, d, b[3]);
    DivUnique(d, 0x100, c, b[2]);
    DivUnique(c, 0x100, b[0], b[1]);
    DivUnique(v, 0x1_0000, c, b[2] as nat * 0x100 + b[3]);
    DivUnique(v, 0x100_0000, b[0], b[1] as nat * 0x1_0000 + b[2] as nat * 0x100 + b[3]);
  }

  lemma BytesOfWord64(b: seq<Byte>)
    requires |b| == 8
    ensures Bytes64(Word64(b)) == b
  {
    hide Word32, Bytes32;
    BytesOfWord32(b[..4]);
    BytesOfWord32(b[4..]);
    DivUnique(Word64(b), UINT32, Word32(b[..4]), Word32(b[4..]));
    assert b[..4] + b[4..] == b;
  }

  lemma Words64(v: nat)
    requires v <= UINT64_MAX
    ensures Word64(Bytes64(v)) == v
  {
    hide Word32, Bytes32;
    Words32(v / UINT32);
    Words32(v % UINT32);
    assert Bytes64(v)[..4] == Bytes32(v / UINT32) && Bytes64(v)[4..] == Bytes32(v % UINT32);
  }

  /** The two's complement byte of an int8. */
  function ByteOfInt8(n: int): Byte
    requires -128 <= n < 128
  {
    if n < 0 then n + 256 else n
  }

  function Int8OfByte(b: Byte): (n: int)
    ensures -128 <= n < 128
  {
    if b >= 128 then b - 256 else b
  }

  lemma Int8RoundTrip(n: int)
    requires -128 <= n < 128
    ensures Int8OfByte(ByteOfInt8(n)) == n
  {}

  // ---- the writer ----------------------------------------------------------

  class Writer {
    var data: array<Byte>
    var len: nat
    /** The least the buffer grows by. */
    var expand: nat
    /** No payload grows past this. */
    var limit: nat
    /** The first failure, which sticks. */
    var error: Error

    ghost predicate Valid()
      reads this
    {
      len <= data.Length && len <= limit <= SIZE_MAX
    }

    ghost function Contents(): seq<Byte>
      requires Valid()
      reads this, data
    {
      data[..len]
    }

    /** packet_new() */
    constructor (size: nat, expand: nat)
      ensures Valid() && fresh(data) && Contents() == [] && error == NoError && limit == PAYLOAD_MAX
    {
      data := new Byte[size];
      len, this.expand, limit, error := 0, expand, PAYLOAD_MAX, NoError;
    }

    /** packet_ensure(): room for size more bytes, or a sticky error. Growth is
     capped by the limit yet always suffices, so the size never overflows. */
    method Ensure(size: nat) returns (ok: bool)
      requires Valid()
      modifies this
      ensures Valid() && limit == old(limit) && len == old(len) && expand == old(expand)
      ensures data == old(data) || fresh(data)
      ensures Contents() == old(Contents())
      ensures ok <==> old(error) == NoError && len + size <= limit
      ensures ok ==> error == NoError && len + size <= data.Length
      ensures !ok ==> error == (if old(error) == NoError then LimitExceeded else old(error))
    {
      if error != NoError {
        return false;
      }
      if len > limit || size > limit - len {
        error := LimitExceeded;
        return false;
      }
      var available := if len <= data.Length then data.Length - len else 0;
      if size <= available {
        return true;
      }
      var needed := size - available;
      var growth := if expand < needed then needed else expand;
      if data.Length > limit || growth > limit - data.Length {
        growth := limit - if data.Length < limit then data.Length else limit;
      }
      if growth < needed || data.Length > SIZE_MAX - growth {
        // The C code's SIZE_OVERFLOW branch: the limit check already excludes it.
        assert false;
      }
      Reallocate(data.Length + growth);
      return true;
    }

    method Reallocate(size: nat)
      requires Valid() && data.Length <= size
      modifies this`data
      ensures Valid() && fresh(data) && data.Length == size && Contents() == old(Contents())
    {
      var larger := new Byte[size];
      var i := 0;
      while i < len
        invariant 0 <= i <= len && data == old(data)
        invariant forall j :: 0 <= j < i ==> larger[j] == data[j]
      {
        larger[i] := data[i];
        i := i + 1;
      }
      data := larger;
    }

    /** A write of some bytes either appends them all or changes nothing but
     the error. */
    twostate predicate Wrote(bytes: seq<Byte>)
      requires old(Valid()) && Valid()
      reads this, data
    {
      && limit == old(limit)
      && if old(error) == NoError && old(len) + |bytes| <= limit
         then error == NoError && Contents() == old(Contents()) + bytes
         else error != NoError && Contents() == old(Contents())
    }

    /** packet_writer_write_uint8() and, through its byte, write_int8() */
    method WriteUint8(v: Byte)
      requires Valid()
      modifies this, data
      ensures Valid() && (data == old(data) || fresh(data)) && Wrote([v])
    {
      var ok := Ensure(1);
      if ok {
        data[len] := v;
        len := len + 1;
      }
    }

    /** packet_writer_write_uint16() */
    method WriteUint16(v: nat)
      requires Valid() && v < UINT16
      modifies this, data
      ensures Valid() && (data == old(data) || fresh(data)) && Wrote(Bytes16(v))
    {
      hide Bytes16;
      var ok := Ensure(2);
      if ok {
        var b := Bytes16(v);
        data[len], data[len + 1] := b[0], b[1];
        len := len + 2;
      }
    }

    /** packet_writer_write_uint32() */
    method WriteUint32(v: nat)
      requires Valid() && v < UINT32
      modifies this, data
      ensures Valid() && (data == old(data) || fresh(data)) && Wrote(Bytes32(v))
    {
      hide Bytes32;
      var ok := Ensure(4);
      if ok {
        var b := Bytes32(v);
        data[len], data[len + 1], data[len + 2], data[len + 3] := b[0], b[1], b[2], b[3];
        len := len + 4;
      }
    }

    /** packet_writer_write_uint64() */
    method WriteUint64(v: nat)
      requires Valid() && v <= UINT64_MAX
      modifies this, data
      ensures Valid() && (data == old(data) || fresh(data)) && Wrote(Bytes64(v))
    {
      hide Bytes64;
      var ok := Ensure(8);
      if ok {
        var b := Bytes64(v);
        forall i | 0 <= i < 8 {
          data[len + i] := b[i];
        }
        assert data[..len + 8] == data[..len] + b;
        len := len + 8;
      }
    }

    /** packet_writer_rollback() to a mark, a length the packet once had. */
    method Rollback(mark: nat)
      requires Valid() && mark <= len
      modifies this`len
      ensures Valid() && Contents() == old(Contents())[..mark]
    {
      len := mark;
    }
  }

  // ---- writing one thing after another -------------------------------------

  /** A packet that held start, after some bytes were written to it. */
  ghost predicate Written(packet: Writer, start: seq<Byte>, bytes: seq<Byte>)
    requires packet.Valid()
    reads packet, packet.data
  {
    if |start| + |bytes| <= packet.limit then packet.error == NoError && packet.Contents() == start + bytes
    else packet.error != NoError && start <= packet.Contents()
  }

  method Put8(packet: Writer, v: Byte, ghost start: seq<Byte>, ghost before: seq<Byte>)
    requires packet.Valid() && Written(packet, start, before)
    modifies packet, packet.data
    ensures packet.Valid() && packet.limit == old(packet.limit)
    ensures packet.data == old(packet.data) || fresh(packet.data)
    ensures Written(packet, start, before + [v])
  {
    packet.WriteUint8(v);
    assert start + (before + [v]) == start + before + [v];
  }

  method Put16(packet: Writer, v: nat, ghost start: seq<Byte>, ghost before: seq<Byte>)
    requires packet.Valid() && v < UINT16 && Written(packet, start, before)
    modifies packet, packet.data
    ensures packet.Valid() && packet.limit == old(packet.limit)
    ensures packet.data == old(packet.data) || fresh(packet.data)
    ensures Written(packet, start, before + Bytes16(v))
  {
    hide Bytes16;
    packet.WriteUint16(v);
    assert start + (before + Bytes16(v)) == start + before + Bytes16(v);
  }

  method Put32(packet: Writer, v: nat, ghost start: seq<Byte>, ghost before: seq<Byte>)
    requires packet.Valid() && v < UINT32 && Written(packet, start, before)
    modifies packet, packet.data
    ensures packet.Valid() && packet.limit == old(packet.limit)
    ensures packet.data == old(packet.data) || fresh(packet.data)
    ensures Written(packet, start, before + Bytes32(v))
  {
    hide Bytes32;
    packet.WriteUint32(v);
    assert start + (before + Bytes32(v)) == start + before + Bytes32(v);
  }

  method Put64(packet: Writer, v: nat, ghost start: seq<Byte>, ghost before: seq<Byte>)
    requires packet.Valid() && v <= UINT64_MAX && Written(packet, start, before)
    modifies packet, packet.data
    ensures packet.Valid() && packet.limit == old(packet.limit)
    ensures packet.data == old(packet.data) || fresh(packet.data)
    ensures Written(packet, start, before + Bytes64(v))
  {
    hide Bytes64;
    packet.WriteUint64(v);
    assert start + (before + Bytes64(v)) == start + before + Bytes64(v);
  }

  lemma WrittenAll(packet: Writer, start: seq<Byte>, bytes: seq<Byte>)
    requires packet.Valid() && Written(packet, start, bytes)
    ensures packet.error == NoError <==> |start| + |bytes| <= packet.limit
    ensures packet.error == NoError ==> packet.Contents() == start + bytes
    ensures packet.error != NoError ==> |start| <= packet.len && packet.Contents()[..|start|] == start
  {}

  // ---- the reader ----------------------------------------------------------

  class Reader {
    const data: seq<Byte>
    var pos: nat
    var error: Error

    ghost predicate Valid()
      reads this
    {
      pos <= |data|
    }

    /** What is still to be read. */
    ghost function Rest(): seq<Byte>
      requires Valid()
      reads this
    {
      data[pos..]
    }

    /** packet_reader_init() */
    constructor (data: seq<Byte>)
      ensures Valid() && this.data == data && error == NoError && Rest() == data
    {
      this.data, pos, error := data, 0, NoError;
    }

    /** packet_reader_take(): the next bytes, or none and a sticky error. Asking
     for none moves nothing. */
    method Take(n: nat) returns (ok: bool, bytes: seq<Byte>)
      requires Valid()
      modifies this
      ensures Valid() && (ok <==> old(error) == NoError && n <= |old(Rest())|)
      ensures ok ==> error == NoError && bytes == old(Rest())[..n] && Rest() == old(Rest())[n..]
      ensures !ok ==>
        bytes == [] && Rest() == old(Rest()) && error == (if old(error) == NoError then Truncated else old(error))
    {
      if error != NoError {
        return false, [];
      }
      if n > |data| - pos {
        error := Truncated;
        return false, [];
      }
      if n == 0 {
        return true, [];
      }
      ok, bytes := true, data[pos..pos + n];
      pos := pos + n;
    }

    /** packet_reader_read_uint8(): zero once failed. */
    method ReadUint8() returns (v: Byte)
      requires Valid()
      modifies this
      ensures Valid()
      ensures old(error) == NoError && 1 <= |old(Rest())| ==>
        error == NoError && v == old(Rest())[0] && Rest() == old(Rest())[1..]
      ensures old(error) != NoError || 1 > |old(Rest())| ==>
        v == 0 && error != NoError && Rest() == old(Rest())
    {
      var ok, bytes := Take(1);
      v := if ok then bytes[0] else 0;
    }

    method ReadUint16() returns (v: nat)
      requires Valid()
      modifies this
      ensures Valid() && v < UINT16
      ensures old(error) == NoError && 2 <= |old(Rest())| ==>
        error == NoError && v == Word16(old(Rest())[..2]) && Rest() == old(Rest())[2..]
      ensures old(error) != NoError || 2 > |old(Rest())| ==>
        v == 0 && error != NoError && Rest() == old(Rest())
    {
      var ok, bytes := Take(2);
      v := if ok then Word16(bytes) else 0;
    }

    method ReadUint32() returns (v: nat)
      requires Valid()
      modifies this
      ensures Valid() && v < UINT32
      ensures old(error) == NoError && 4 <= |old(Rest())| ==>
        error == NoError && v == Word32(old(Rest())[..4]) && Rest() == old(Rest())[4..]
      ensures old(error) != NoError || 4 > |old(Rest())| ==>
        v == 0 && error != NoError && Rest() == old(Rest())
    {
      var ok, bytes := Take(4);
      v := if ok then Word32(bytes) else 0;
    }

    method ReadUint64() returns (v: nat)
      requires Valid()
      modifies this
      ensures Valid() && v <= UINT64_MAX
      ensures old(error) == NoError && 8 <= |old(Rest())| ==>
        error == NoError && v == Word64(old(Rest())[..8]) && Rest() == old(Rest())[8..]
      ensures old(error) != NoError || 8 > |old(Rest())| ==>
        v == 0 && error != NoError && Rest() == old(Rest())
    {
      var ok, bytes := Take(8);
      v := if ok then Word64(bytes) else 0;
    }

    /** packet_reader_finish(): whether everything was read, and well. */
    method Finish() returns (ok: bool)
      requires Valid()
      modifies this`error
      ensures ok <==> old(error) == NoError && Rest() == []
      ensures error == (if old(error) == NoError && Rest() != [] then TrailingData else old(error))
    {
      if error == NoError && pos != |data| {
        error := TrailingData;
      }
      return error == NoError;
    }
  }

  // ---- reading one thing after another -------------------------------------

  /** A reader of some bytes, after what should be its first ones was read. */
  ghost predicate Consumed(reader: Reader, start: seq<Byte>, before: seq<Byte>)
    requires reader.Valid()
    reads reader
  {
    if |before| <= |start| then reader.error == NoError && start == before + reader.Rest()
    else reader.error != NoError
  }

  lemma Onwards(start: seq<Byte>, before: seq<Byte>, bytes: seq<Byte>, rest: seq<Byte>)
    requires start == before + (bytes + rest)
    ensures start == (before + bytes) + rest
  {}

  method Get8(reader: Reader, ghost start: seq<Byte>, ghost before: seq<Byte>) returns (v: Byte)
    requires reader.Valid() && Consumed(reader, start, before)
    modifies reader
    ensures reader.Valid() && Consumed(reader, start, before + [v])
  {
    ghost var rest := reader.Rest();
    v := reader.ReadUint8();
    if reader.error == NoError {
      assert rest == [v] + rest[1..];
      Onwards(start, before, [v], rest[1..]);
    }
  }

  method Get16(reader: Reader, ghost start: seq<Byte>, ghost before: seq<Byte>) returns (v: nat)
    requires reader.Valid() && Consumed(reader, start, before)
    modifies reader
    ensures reader.Valid() && v < UINT16 && Consumed(reader, start, before + Bytes16(v))
  {
    hide Bytes16, Word16;
    ghost var rest := reader.Rest();
    v := reader.ReadUint16();
    if reader.error == NoError {
      BytesOfWord16(rest[..2]);
      assert rest == rest[..2] + rest[2..];
      Onwards(start, before, Bytes16(v), rest[2..]);
    }
  }

  method Get32(reader: Reader, ghost start: seq<Byte>, ghost before: seq<Byte>) returns (v: nat)
    requires reader.Valid() && Consumed(reader, start, before)
    modifies reader
    ensures reader.Valid() && v < UINT32 && Consumed(reader, start, before + Bytes32(v))
  {
    hide Bytes32, Word32;
    ghost var rest := reader.Rest();
    v := reader.ReadUint32();
    if reader.error == NoError {
      BytesOfWord32(rest[..4]);
      assert rest == rest[..4] + rest[4..];
      Onwards(start, before, Bytes32(v), rest[4..]);
    }
  }

  method Get64(reader: Reader, ghost start: seq<Byte>, ghost before: seq<Byte>) returns (v: nat)
    requires reader.Valid() && Consumed(reader, start, before)
    modifies reader
    ensures reader.Valid() && v <= UINT64_MAX && Consumed(reader, start, before + Bytes64(v))
  {
    hide Bytes64, Word64;
    ghost var rest := reader.Rest();
    v := reader.ReadUint64();
    if reader.error == NoError {
      BytesOfWord64(rest[..8]);
      assert rest == rest[..8] + rest[8..];
      Onwards(start, before, Bytes64(v), rest[8..]);
    }
  }
}
