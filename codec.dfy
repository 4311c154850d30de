/**
 * The message codec: a cursor reader over an immutable byte buffer and an
 * append-only builder. Messages on the wire are a 4-byte little-endian length
 * followed by that many bytes of body; peer message bodies start with a 4-byte
 * little-endian code.
 */
module Codec {
  import opened Primitives

  /** Peer message codes used by the modelled messages. */
  const PeerSearchResponse: int32 := 9
  const QueueDownload: int32 := 43

  /** The exception classes of the source, with their inheritance. */
  datatype ExceptionClass = MessageException | MessageReadException | MessageCompressionException

  /** MessageReadException and MessageCompressionException both derive from MessageException. */
  predicate IsA(c: ExceptionClass, ancestor: ExceptionClass) {
    c == ancestor || ancestor == MessageException
  }

  /** What the codec raises instead of returning a value. */
  datatype MessageError =
    | CodeMismatch(expected: int32, received: int32)
    | ReadFailure(position: nat, requested: int, length: nat)
    | SeekFailure(target: int, length: nat)
    | CompressionFailure
  {
    function Class(): (c: ExceptionClass)
      ensures IsA(c, MessageException)
      ensures c == MessageException <==> CodeMismatch?
      ensures c == MessageCompressionException <==> CompressionFailure?
    {
      match this
      case CodeMismatch(_, _) => MessageException
      case ReadFailure(_, _, _) => MessageReadException
      case SeekFailure(_, _) => MessageReadException
      case CompressionFailure => MessageCompressionException
    }
  }

  datatype Result<+T> = Ok(value: T) | Err(error: MessageError) {
    predicate IsFailure() {
      Err?
    }

    function PropagateFailure<U>(): Result<U>
      requires Err?
    {
      Err(error)
    }

    function Extract(): T
      requires Ok?
    {
      value
    }
  }

  /** The result of an operation that returns nothing but may fail. */
  datatype Outcome = Pass | Fail(error: MessageError) {
    predicate IsFailure() {
      Fail?
    }

    function PropagateFailure<U>(): Result<U>
      requires Fail?
    {
      Err(error)
    }
  }

  /** A value read from a cursor, and the cursor after the read. */
  datatype Parsed<+T> = Parsed(value: T, next: Cursor)

  /** A read position in a buffer; the state of a MessageReader as a value. */
  datatype Cursor = Cursor(buffer: seq<byte>, position: nat) {

    predicate Valid() {
      position <= |buffer|
    }

    /**
     * Takes the next count bytes. Fails, leaving nothing consumed, when count
     * is negative or fewer than count bytes remain.
     */
    function ReadBytes(count: int): (r: Result<Parsed<seq<byte>>>)
      requires Valid()
      ensures r.Ok? <==> 0 <= count <= |buffer| - position
      ensures r.Ok? ==> r.value.next == Cursor(buffer, position + count) && r.value.next.Valid()
      ensures r.Ok? ==> |r.value.value| == count && buffer[position..position + count] == r.value.value
      ensures r.Err? ==> r.error == ReadFailure(position, count, |buffer|)
    {
      if count < 0 || count > |buffer| - position then
        Err(ReadFailure(position, count, |buffer|))
      else
        Ok(Parsed(buffer[position..position + count], Cursor(buffer, position + count)))
    }

    function ReadByte(): (r: Result<Parsed<byte>>)
      requires Valid()
      ensures r.Ok? <==> position < |buffer|
      ensures r.Ok? ==> r.value == Parsed(buffer[position], Cursor(buffer, position + 1))
      ensures r.Err? ==> r.error.Class() == MessageReadException
    {
      var bs :- ReadBytes(1);
      Ok(Parsed(bs.value[0], bs.next))
    }

    function ReadInteger(): (r: Result<Parsed<int32>>)
      requires Valid()
      ensures r.Ok? <==> position + 4 <= |buffer|
      ensures r.Ok? ==> r.value.next == Cursor(buffer, position + 4) && r.value.next.Valid()
      ensures r.Ok? ==> r.value.value == DecodeInt32(buffer[position..position + 4])
      ensures r.Err? ==> r.error.Class() == MessageReadException
    {
      var bs :- ReadBytes(4);
      Ok(Parsed(DecodeInt32(bs.value), bs.next))
    }

    function ReadLong(): (r: Result<Parsed<int64>>)
      requires Valid()
      ensures r.Ok? <==> position + 8 <= |buffer|
      ensures r.Ok? ==> r.value.next == Cursor(buffer, position + 8) && r.value.next.Valid()
      ensures r.Ok? ==> r.value.value == DecodeInt64(buffer[position..position + 8])
      ensures r.Err? ==> r.error.Class() == MessageReadException
    {
      var bs :- ReadBytes(8);
      Ok(Parsed(DecodeInt64(bs.value), bs.next))
    }

    /** A 4-byte length n followed by n raw bytes. */
    function ReadString(): (r: Result<Parsed<seq<byte>>>)
      requires Valid()
      ensures r.Ok? <==> position + 4 <= |buffer|
                         && 0 <= DecodeInt32(buffer[position..position + 4]) <= |buffer| - position - 4
      ensures r.Ok? ==> |r.value.value| == DecodeInt32(buffer[position..position + 4])
      ensures r.Ok? ==> r.value.value == buffer[position + 4..position + 4 + |r.value.value|]
      ensures r.Ok? ==> r.value.next == Cursor(buffer, position + 4 + |r.value.value|) && r.value.next.Valid()
      ensures r.Err? ==> r.error.Class() == MessageReadException
    {
      var length :- ReadInteger();
      length.next.ReadBytes(length.value)
    }

    /** Moves to an absolute position, which must lie in [0, |buffer|]. */
    function Seek(target: int): (r: Result<Cursor>)
      ensures r.Ok? <==> 0 <= target <= |buffer|
      ensures r.Ok? ==> r.value == Cursor(buffer, target) && r.value.Valid()
      ensures r.Err? ==> r.error == SeekFailure(target, |buffer|)
    {
      if 0 <= target <= |buffer| then Ok(Cursor(buffer, target)) else Err(SeekFailure(target, |buffer|))
    }

    /**
     * Replaces the unread bytes by their inflated form and reads on from its
     * start; inflate stands for the zlib library, None for a malformed stream.
     */
    function Decompress(inflate: seq<byte> -> Option<seq<byte>>): (r: Result<Cursor>)
      requires Valid()
      ensures r.Ok? <==> inflate(buffer[position..]).Some?
      ensures r.Ok? ==> r.value == Cursor(inflate(buffer[position..]).value, 0)
      ensures r.Err? ==> r.error == CompressionFailure
    {
      match inflate(buffer[position..])
      case Some(inflated) => Ok(Cursor(inflated, 0))
      case None => Err(CompressionFailure)
    }
  }

  /** The value of a read, without the cursor. */
  function ValueOf<T>(r: Result<Parsed<T>>): Result<T> {
    match r
    case Ok(p) => Ok(p.value)
    case Err(e) => Err(e)
  }

  /** Where a read leaves the cursor c it started from: unmoved on failure. */
  function After<T>(r: Result<Parsed<T>>, c: Cursor): Cursor {
    if r.Ok? then r.value.next else c
  }

  function OutcomeOf(r: Result<Cursor>): Outcome {
    if r.Ok? then Pass else Fail(r.error)
  }

  function Moved(r: Result<Cursor>, c: Cursor): Cursor {
    if r.Ok? then r.value else c
  }

  /** The fields a builder appends. */
  function EncodeByte(b: byte): seq<byte> {
    [b]
  }

  function EncodeString(s: seq<byte>): (bs: seq<byte>)
    requires |s| <= Int32Max
    ensures |bs| == 4 + |s|
  {
    EncodeInt32(|s|) + s
  }

  /**
   * The whole message: the body prefixed with its own length, the same
   * length-prefix encoding a string uses; the frame is the body's string form.
   */
  function Frame(body: seq<byte>): (bytes: seq<byte>)
    requires |body| <= Int32Max
    ensures |bytes| == 4 + |body|
  {
    EncodeString(body)
  }

  /**
   * The body of a framed message: the declared length must be non-negative
   * and no more than what follows it; bytes beyond it are not part of the message.
   */
  function Unframe(bytes: seq<byte>): (r: Result<seq<byte>>)
    ensures r.Ok? <==> 4 <= |bytes| && 0 <= DecodeInt32(bytes[..4]) <= |bytes| - 4
    ensures r.Ok? ==> |r.value| == DecodeInt32(bytes[..4]) && r.value == bytes[4..4 + |r.value|]
    ensures r.Err? ==> r.error.Class() == MessageReadException
  {
    var length :- Cursor(bytes, 0).ReadInteger();
    var body :- length.next.ReadBytes(length.value);
    Ok(body.value)
  }

  lemma UnframeFrame(body: seq<byte>)
    requires |body| <= Int32Max
    ensures Unframe(Frame(body)) == Ok(body)
  {
    var bytes := Frame(body);
    assert bytes[..4] == EncodeInt32(|body|);
    DecodeEncodeInt32(|body|);
    assert bytes[4..4 + |body|] == body;
  }

  // Reading back what a builder wrote, at any offset of any buffer.

  lemma ReadIntegerAfterWrite(prefix: seq<byte>, v: int32, suffix: seq<byte>)
    ensures var buffer := prefix + EncodeInt32(v) + suffix;
            Cursor(buffer, |prefix|).ReadInteger() == Ok(Parsed(v, Cursor(buffer, |prefix| + 4)))
  {
    var buffer := prefix + EncodeInt32(v) + suffix;
    assert buffer[|prefix|..|prefix| + 4] == EncodeInt32(v);
    DecodeEncodeInt32(v);
  }

  lemma ReadLongAfterWrite(prefix: seq<byte>, v: int64, suffix: seq<byte>)
    ensures var buffer := prefix + EncodeInt64(v) + suffix;
            Cursor(buffer, |prefix|).ReadLong() == Ok(Parsed(v, Cursor(buffer, |prefix| + 8)))
  {
    var buffer := prefix + EncodeInt64(v) + suffix;
    assert buffer[|prefix|..|prefix| + 8] == EncodeInt64(v);
    DecodeEncodeInt64(v);
  }

  lemma ReadByteAfterWrite(prefix: seq<byte>, b: byte, suffix: seq<byte>)
    ensures var buffer := prefix + EncodeByte(b) + suffix;
            Cursor(buffer, |prefix|).ReadByte() == Ok(Parsed(b, Cursor(buffer, |prefix| + 1)))
  {
    var buffer := prefix + EncodeByte(b) + suffix;
    assert buffer[|prefix|] == b;
  }

  lemma ReadStringAfterWrite(prefix: seq<byte>, s: seq<byte>, suffix: seq<byte>)
    requires |s| <= Int32Max
    ensures var buffer := prefix + EncodeString(s) + suffix;
            Cursor(buffer, |prefix|).ReadString() == Ok(Parsed(s, Cursor(buffer, |prefix| + 4 + |s|)))
  {
    var buffer := prefix + EncodeString(s) + suffix;
    assert buffer == prefix + EncodeInt32(|s|) + (s + suffix);
    ReadIntegerAfterWrite(prefix, |s|, s + suffix);
    assert buffer[|prefix| + 4..|prefix| + 4 + |s|] == s;
  }

  /**
   * A cursor-based reader (MessageReader). It owns its buffer; only Decompress
   * replaces it. The position always stays within [0, |payload|].
   */
  class MessageReader {
    var payload: seq<byte>
    var position: nat

    predicate Valid()
      reads this
    {
      position <= |payload|
    }

    function State(): Cursor
      reads this
    {
      Cursor(payload, position)
    }

    constructor (payload: seq<byte>)
      ensures Valid() && State() == Cursor(payload, 0)
    {
      this.payload := payload;
      position := 0;
    }

    /** A peer message code: a 4-byte little-endian integer. */
    method ReadCode() returns (r: Result<int32>)
      requires Valid()
      modifies this
      ensures Valid()
      ensures r == ValueOf(old(State()).ReadInteger())
      ensures State() == After(old(State()).ReadInteger(), old(State()))
    {
      r := ReadInteger();
    }

    method ReadByte() returns (r: Result<byte>)
      requires Valid()
      modifies this
      ensures Valid()
      ensures r == ValueOf(old(State()).ReadByte())
      ensures State() == After(old(State()).ReadByte(), old(State()))
    {
      var read := State().ReadByte();
      if read.Ok? {
        position := read.value.next.position;
        r := Ok(read.value.value);
      } else {
        r := Err(read.error);
      }
    }

    method ReadInteger() returns (r: Result<int32>)
      requires Valid()
      modifies this
      ensures Valid()
      ensures r == ValueOf(old(State()).ReadInteger())
      ensures State() == After(old(State()).ReadInteger(), old(State()))
    {
      var read := State().ReadInteger();
      if read.Ok? {
        position := read.value.next.position;
        r := Ok(read.value.value);
      } else {
        r := Err(read.error);
      }
    }

    method ReadLong() returns (r: Result<int64>)
      requires Valid()
      modifies this
      ensures Valid()
      ensures r == ValueOf(old(State()).ReadLong())
      ensures State() == After(old(State()).ReadLong(), old(State()))
    {
      var read := State().ReadLong();
      if read.Ok? {
        position := read.value.next.position;
        r := Ok(read.value.value);
      } else {
        r := Err(read.error);
      }
    }

    method ReadString() returns (r: Result<seq<byte>>)
      requires Valid()
      modifies this
      ensures Valid()
      ensures r == ValueOf(old(State()).ReadString())
      ensures State() == After(old(State()).ReadString(), old(State()))
    {
      var read := State().ReadString();
      if read.Ok? {
        position := read.value.next.position;
        r := Ok(read.value.value);
      } else {
        r := Err(read.error);
      }
    }

    method Seek(target: int) returns (r: Outcome)
      requires Valid()
      modifies this
      ensures Valid()
      ensures r == OutcomeOf(old(State()).Seek(target))
      ensures State() == Moved(old(State()).Seek(target), old(State()))
    {
      if 0 <= target <= |payload| {
        position := target;
        r := Pass;
      } else {
        r := Fail(SeekFailure(target, |payload|));
      }
    }

    method Decompress(inflate: seq<byte> -> Option<seq<byte>>) returns (r: Outcome)
      requires Valid()
      modifies this
      ensures Valid()
      ensures r == OutcomeOf(old(State()).Decompress(inflate))
      ensures State() == Moved(old(State()).Decompress(inflate), old(State()))
    {
      var inflated := inflate(payload[position..]);
      if inflated.Some? {
        payload, position := inflated.value, 0;
        r := Pass;
      } else {
        r := Fail(CompressionFailure);
      }
    }
  }

  /** An append-only message builder (MessageBuilder): writes never touch earlier bytes. */
  class MessageBuilder {
    var bytes: seq<byte>

    constructor ()
      ensures bytes == []
    {
      bytes := [];
    }

    method WriteCode(code: int32)
      modifies this
      ensures bytes == old(bytes) + EncodeInt32(code)
    {
      bytes := bytes + EncodeInt32(code);
    }

    method WriteString(s: seq<byte>)
      requires |s| <= Int32Max
      modifies this
      ensures bytes == old(bytes) + EncodeString(s)
    {
      bytes := bytes + EncodeString(s);
    }

    method Build() returns (message: seq<byte>)
      requires |bytes| <= Int32Max
      ensures message == Frame(bytes)
      ensures Unframe(message) == Ok(bytes)
    {
      message := EncodeInt32(|bytes|) + bytes;
      UnframeFrame(bytes);
    }
  }
}
