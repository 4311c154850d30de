/**
 * A search response parsed only as far as filtering needs (SearchResponseSlim):
 * the header at the front of the decompressed payload, the trailer at a fixed
 * offset from its end, and a reader left just after the header so that the
 * file list can be parsed later.
 */
module Responses {
  import opened Primitives
  import opened Codec

  /** A received message envelope: its code and the bytes after the code. */
  datatype Message = Message(code: int32, payload: seq<byte>)

  /** The zlib inflater the reader calls; None stands for a truncated or malformed stream. */
  type Inflater = seq<byte> -> Option<seq<byte>>

  /** The trailer starts this many bytes before the end of the decompressed payload. */
  const TrailerOffset: nat := 17

  /**
   * The constructor stores every argument unchanged in the field of the same name.
   * The retained reader is kept as a value: the decompressed buffer and a position in it.
   */
  datatype SearchResponseSlim = SearchResponseSlim(
    username: seq<byte>,
    token: int32,
    fileCount: int32,
    freeUploadSlots: int32,
    uploadSpeed: int32,
    queueLength: int64,
    messageReader: Cursor)

  /**
   * What Parse returns or raises for the given message. Once the seek to the
   * trailer has succeeded at least 17 bytes remain, so the three trailer reads
   * and the seek back cannot fail.
   */
  function Decode(message: Message, inflate: Inflater): (r: Result<SearchResponseSlim>)
    ensures r.Ok? ==> message.code == PeerSearchResponse
    ensures r.Err? && r.error.CodeMismatch? <==> message.code != PeerSearchResponse
    ensures r.Err? && r.error.CodeMismatch? ==> r.error == CodeMismatch(PeerSearchResponse, message.code)
  {
    if message.code != PeerSearchResponse then
      Err(CodeMismatch(PeerSearchResponse, message.code))
    else
      var start :- Cursor(message.payload, 0).Decompress(inflate);
      DecodeInflated(start)
  }

  /** The part of Decode after decompression: the header from the front, the trailer from the end. */
  function DecodeInflated(start: Cursor): (r: Result<SearchResponseSlim>)
    requires start.Valid()
    ensures r.Ok? ==> r.value.messageReader.buffer == start.buffer && |start.buffer| >= TrailerOffset
  {
    var header :- HeaderFields(start);
    DecodeTrailer(header.3, header.0, header.1, header.2)
  }

  /** The part of Decode after the header: the trailer reads at 17 bytes before the end, then the seek back. */
  function DecodeTrailer(afterHeader: Cursor, username: seq<byte>, token: int32, fileCount: int32): (r: Result<SearchResponseSlim>)
    requires afterHeader.Valid()
    ensures r.Ok? ==> r.value.messageReader == afterHeader && |afterHeader.buffer| >= TrailerOffset
  {
    var trailer :- afterHeader.Seek(|afterHeader.buffer| - TrailerOffset);
    var fields := TrailerFields(trailer);
    var back := trailer.Seek(afterHeader.position).value;
    Ok(SearchResponseSlim(username, token, fileCount, fields.0, fields.1, fields.2, back))
  }

  /** The username string and the token and file count integers, read in that order. */
  function HeaderFields(start: Cursor): (r: Result<(seq<byte>, int32, int32, Cursor)>)
    requires start.Valid()
    ensures r.Ok? ==> r.value.3.Valid() && r.value.3.buffer == start.buffer
  {
    var username :- start.ReadString();
    var token :- username.next.ReadInteger();
    var fileCount :- token.next.ReadInteger();
    Ok((username.value, token.value, fileCount.value, fileCount.next))
  }

  /** The byte, integer and long read in that order from a cursor with at least 13 bytes left. */
  function TrailerFields(trailer: Cursor): (fields: (byte, int32, int64))
    requires trailer.Valid() && trailer.position + 13 <= |trailer.buffer|
    ensures var p := trailer.position;
            && fields.0 == trailer.buffer[p]
            && fields.1 == DecodeInt32(trailer.buffer[p + 1..p + 5])
            && fields.2 == DecodeInt64(trailer.buffer[p + 5..p + 13])
  {
    var freeUploadSlots := trailer.ReadByte().value;
    var uploadSpeed := freeUploadSlots.next.ReadInteger().value;
    var queueLength := uploadSpeed.next.ReadLong().value;
    (freeUploadSlots.value, uploadSpeed.value, queueLength.value)
  }

  /** The header reads of Parse, on the reader. */
  method ReadHeader(reader: MessageReader) returns (r: Result<(seq<byte>, int32, int32)>)
    requires reader.Valid()
    modifies reader
    ensures reader.Valid()
    ensures var h := HeaderFields(old(reader.State()));
            && (r.Ok? <==> h.Ok?)
            && (h.Ok? ==> r.value == (h.value.0, h.value.1, h.value.2) && reader.State() == h.value.3)
            && (h.Err? ==> r.error == h.error)
  {
    var username :- reader.ReadString();
    var token :- reader.ReadInteger();
    var fileCount :- reader.ReadInteger();
    return Ok((username, token, fileCount));
  }

  /** The trailer reads of Parse, on a reader with at least 13 bytes left. */
  method ReadTrailer(reader: MessageReader) returns (fields: (byte, int32, int64))
    requires reader.Valid() && reader.position + 13 <= |reader.payload|
    modifies reader
    ensures fields == TrailerFields(old(reader.State()))
    ensures reader.Valid() && reader.State() == Cursor(old(reader.payload), old(reader.position) + 13)
  {
    var freeUploadSlots := reader.ReadByte();
    var uploadSpeed := reader.ReadInteger();
    var queueLength := reader.ReadLong();
    fields := (freeUploadSlots.value, uploadSpeed.value, queueLength.value);
  }

  method Parse(message: Message, inflate: Inflater) returns (r: Result<SearchResponseSlim>)
    ensures r == Decode(message, inflate)
  {
    var reader := new MessageReader(message.payload);
    if message.code != PeerSearchResponse {
      return Err(CodeMismatch(PeerSearchResponse, message.code));
    }
    :- reader.Decompress(inflate);
    r := ParseInflated(reader);
  }

  /** The part of Parse after decompression, on the reader. */
  method ParseInflated(reader: MessageReader) returns (r: Result<SearchResponseSlim>)
    requires reader.Valid()
    modifies reader
    ensures r == DecodeInflated(old(reader.State()))
    ensures r.Ok? ==> reader.State() == r.value.messageReader
  {
    var header :- ReadHeader(reader);
    r := ParseTrailer(reader, header.0, header.1, header.2);
  }

  /** The part of Parse after the header reads, on the reader. */
  method ParseTrailer(reader: MessageReader, username: seq<byte>, token: int32, fileCount: int32)
    returns (r: Result<SearchResponseSlim>)
    requires reader.Valid()
    modifies reader
    ensures r == DecodeTrailer(old(reader.State()), username, token, fileCount)
    ensures r.Ok? ==> reader.State() == r.value.messageReader
  {
    ghost var afterHeader := reader.State();
    var position := reader.position;
    :- reader.Seek(|reader.payload| - TrailerOffset);
    ghost var atTrailer := reader.State();
    var trailer := ReadTrailer(reader);
    var restored := reader.Seek(position);
    assert restored.Pass?;
    assert reader.State() == atTrailer.Seek(afterHeader.position).value;
    return Ok(SearchResponseSlim(username, token, fileCount, trailer.0, trailer.1, trailer.2, reader.State()));
  }

  /** The declared username length at the front of a decompressed payload. */
  function UsernameLength(d: seq<byte>): int
    requires |d| >= 4
  {
    DecodeInt32(d[..4])
  }

  /** The payload holds a username of the declared length followed by two 4-byte integers. */
  predicate HeaderFits(d: seq<byte>) {
    |d| >= 4 && 0 <= UsernameLength(d) && 12 + UsernameLength(d) <= |d|
  }

  /** The bytes read from the front: the username string, the token and the file count. */
  function Header(d: seq<byte>): seq<byte>
    requires HeaderFits(d)
  {
    d[..12 + UsernameLength(d)]
  }

  /** The last 17 bytes of the payload. */
  function Trailer(d: seq<byte>): seq<byte>
    requires |d| >= TrailerOffset
  {
    d[|d| - TrailerOffset..]
  }

  /** The header fields as the header bytes give them. */
  predicate HeaderHolds(h: seq<byte>, r: SearchResponseSlim) {
    var n := |r.username|;
    && |h| == 12 + n
    && DecodeInt32(h[..4]) == n
    && r.username == h[4..4 + n]
    && r.token == DecodeInt32(h[4 + n..8 + n])
    && r.fileCount == DecodeInt32(h[8 + n..12 + n])
  }

  /** The trailer fields as the last 17 bytes give them; the final four are not read. */
  predicate TrailerHolds(t: seq<byte>, r: SearchResponseSlim) {
    && |t| == TrailerOffset
    && r.freeUploadSlots == t[0]
    && r.uploadSpeed == DecodeInt32(t[1..5])
    && r.queueLength == DecodeInt64(t[5..13])
  }

  /** Where every field of a parsed response comes from in the decompressed payload d. */
  predicate LaidOut(d: seq<byte>, r: SearchResponseSlim) {
    && HeaderFits(d) && |d| >= TrailerOffset
    && HeaderHolds(Header(d), r)
    && TrailerHolds(Trailer(d), r)
    && r.messageReader == Cursor(d, |Header(d)|)
  }

  /**
   * Parsing succeeds exactly when the code is PeerSearchResponse, the payload
   * inflates, the header fits and the payload is long enough for the seek to
   * its last 17 bytes; and then every field is where the layout says, and the
   * retained reader stands just after the file count.
   */
  lemma DecodeLayout(message: Message, inflate: Inflater)
    ensures Decode(message, inflate).Ok? <==>
              && message.code == PeerSearchResponse
              && inflate(message.payload).Some?
              && HeaderFits(inflate(message.payload).value)
              && |inflate(message.payload).value| >= TrailerOffset
    ensures Decode(message, inflate).Ok? ==>
              LaidOut(inflate(message.payload).value, Decode(message, inflate).value)
  {
    assert message.payload[0..] == message.payload;
    if message.code == PeerSearchResponse && inflate(message.payload).Some? {
      InflatedLayout(inflate(message.payload).value);
    }
  }

  /** DecodeLayout once the payload is inflated to d. */
  lemma InflatedLayout(d: seq<byte>)
    ensures DecodeInflated(Cursor(d, 0)).Ok? <==> HeaderFits(d) && |d| >= TrailerOffset
    ensures DecodeInflated(Cursor(d, 0)).Ok? ==> LaidOut(d, DecodeInflated(Cursor(d, 0)).value)
  {
    HeaderReads(d);
    if HeaderFits(d) {
      var header := HeaderFields(Cursor(d, 0)).value;
      TrailerLayout(header.3, header.0, header.1, header.2);
    }
  }

  /** The trailer phase succeeds exactly when the buffer has 17 bytes, and then reads them as the layout says. */
  lemma TrailerLayout(afterHeader: Cursor, username: seq<byte>, token: int32, fileCount: int32)
    requires afterHeader.Valid()
    ensures var r := DecodeTrailer(afterHeader, username, token, fileCount);
            && (r.Ok? <==> |afterHeader.buffer| >= TrailerOffset)
            && (r.Ok? ==> && r.value.username == username && r.value.token == token
                          && r.value.fileCount == fileCount && r.value.messageReader == afterHeader
                          && TrailerHolds(Trailer(afterHeader.buffer), r.value))
  {
    var d := afterHeader.buffer;
    if |d| >= TrailerOffset {
      var fields := TrailerFields(Cursor(d, |d| - TrailerOffset));
      var r := SearchResponseSlim(username, token, fileCount, fields.0, fields.1, fields.2, afterHeader);
      assert DecodeTrailer(afterHeader, username, token, fileCount) == Ok(r);
      TrailerOffsets(d, r);
    }
  }

  /** The three header reads from the start of d succeed exactly when the header fits, and read the header bytes. */
  lemma HeaderReads(d: seq<byte>)
    ensures var fields := HeaderFields(Cursor(d, 0));
            && (fields.Ok? <==> HeaderFits(d))
            && (fields.Ok? ==> var (username, token, fileCount, next) := fields.value;
                 HeaderHolds(Header(d), SearchResponseSlim(username, token, fileCount, 0, 0, 0, next))
                 && next == Cursor(d, |Header(d)|))
  {
    if |d| >= 4 {
      assert d[0..4] == d[..4];
    }
    if HeaderFits(d) {
      var n := UsernameLength(d);
      var k := 12 + n;
      assert Header(d) == d[..k];
      PrefixSlice(d, k, 0, 4);
      PrefixSlice(d, k, 4, 4 + n);
      PrefixSlice(d, k, 4 + n, 8 + n);
      PrefixSlice(d, k, 8 + n, 12 + n);
    }
  }

  /** A slice of a prefix is the same slice of the whole. */
  lemma PrefixSlice(d: seq<byte>, k: nat, i: nat, j: nat)
    requires i <= j <= k <= |d|
    ensures d[..k][i..j] == d[i..j]
  {
  }

  /** The trailer fields sit at the absolute offsets L-17, L-16..L-13 and L-12..L-5 of a payload of length L. */
  lemma TrailerOffsets(d: seq<byte>, r: SearchResponseSlim)
    requires |d| >= TrailerOffset
    ensures TrailerHolds(Trailer(d), r) <==>
              && r.freeUploadSlots == d[|d| - 17]
              && r.uploadSpeed == DecodeInt32(d[|d| - 16..|d| - 12])
              && r.queueLength == DecodeInt64(d[|d| - 12..|d| - 4])
  {
    var t := Trailer(d);
    assert d[|d| - 16..|d| - 12] == t[1..5];
    assert d[|d| - 12..|d| - 4] == t[5..13];
  }

  /** A message with another code is rejected with both codes, before the payload is even inflated. */
  lemma CodeMismatchFailsFast(message: Message, inflate: Inflater, other: Inflater)
    requires message.code != PeerSearchResponse
    ensures Decode(message, inflate) == Decode(message, other) == Err(CodeMismatch(PeerSearchResponse, message.code))
  {
  }

  /** A payload that does not inflate is reported as a compression failure. */
  lemma CompressionFailureReported(message: Message, inflate: Inflater)
    requires message.code == PeerSearchResponse
    requires inflate(message.payload).None?
    ensures Decode(message, inflate) == Err(CompressionFailure)
    ensures Decode(message, inflate).error.Class() == MessageCompressionException
  {
    assert message.payload[0..] == message.payload;
  }

  /** An inflated payload too short for the header reads or for the trailer seek gives no response. */
  lemma ShortPayloadFails(message: Message, inflate: Inflater)
    requires message.code == PeerSearchResponse
    requires inflate(message.payload).Some?
    requires var d := inflate(message.payload).value; |d| < TrailerOffset || !HeaderFits(d)
    ensures Decode(message, inflate).Err?
    ensures Decode(message, inflate).error.Class() == MessageReadException
  {
    assert message.payload[0..] == message.payload;
    DecodeLayout(message, inflate);
  }

  /** The free upload slot count comes from a single byte. */
  lemma FreeUploadSlotsIsAByte(message: Message, inflate: Inflater)
    requires Decode(message, inflate).Ok?
    ensures 0 <= Decode(message, inflate).value.freeUploadSlots < 0x100
  {
    DecodeLayout(message, inflate);
  }

  lemma HeaderDetermines(h: seq<byte>, r1: SearchResponseSlim, r2: SearchResponseSlim)
    requires HeaderHolds(h, r1) && HeaderHolds(h, r2)
    ensures r1.username == r2.username && r1.token == r2.token && r1.fileCount == r2.fileCount
  {
  }

  /** Only the first 13 trailer bytes matter. */
  lemma TrailerPrefixDetermines(t1: seq<byte>, t2: seq<byte>, r1: SearchResponseSlim, r2: SearchResponseSlim)
    requires TrailerHolds(t1, r1) && TrailerHolds(t2, r2)
    requires t1[..13] == t2[..13]
    ensures r1.freeUploadSlots == r2.freeUploadSlots
    ensures r1.uploadSpeed == r2.uploadSpeed
    ensures r1.queueLength == r2.queueLength
  {
    assert t1[0] == t1[..13][0] == t2[..13][0] == t2[0];
    assert t1[1..5] == t1[..13][1..5];
    assert t2[1..5] == t2[..13][1..5];
    assert t1[5..13] == t1[..13][5..13];
    assert t2[5..13] == t2[..13][5..13];
  }

  /**
   * The trailer is found by absolute offset: two payloads with the same header
   * and the same last 17 bytes give the same response fields, whatever lies between.
   */
  lemma TrailerIndependence(m1: Message, m2: Message, inflate: Inflater)
    requires m1.code == m2.code == PeerSearchResponse
    requires inflate(m1.payload).Some? && inflate(m2.payload).Some?
    requires var d1, d2 := inflate(m1.payload).value, inflate(m2.payload).value;
             && |d1| >= TrailerOffset && HeaderFits(d1)
             && |d2| >= TrailerOffset && HeaderFits(d2)
             && Header(d2) == Header(d1)
             && Trailer(d2) == Trailer(d1)
    ensures Decode(m1, inflate).Ok? && Decode(m2, inflate).Ok?
    ensures var r1, r2 := Decode(m1, inflate).value, Decode(m2, inflate).value;
            && r2.username == r1.username && r2.token == r1.token && r2.fileCount == r1.fileCount
            && r2.freeUploadSlots == r1.freeUploadSlots
            && r2.uploadSpeed == r1.uploadSpeed
            && r2.queueLength == r1.queueLength
            && r2.messageReader.position == r1.messageReader.position
  {
    DecodeLayout(m1, inflate);
    DecodeLayout(m2, inflate);
    var r1, r2 := Decode(m1, inflate).value, Decode(m2, inflate).value;
    var d1, d2 := inflate(m1.payload).value, inflate(m2.payload).value;
    HeaderDetermines(Header(d1), r1, r2);
    TrailerPrefixDetermines(Trailer(d1), Trailer(d2), r1, r2);
  }

  /**
   * The reads stop four bytes short of the end: the last four bytes of the
   * inflated payload influence nothing but the retained buffer.
   */
  lemma LastFourBytesUnread(m1: Message, m2: Message, inflate: Inflater)
    requires m1.code == m2.code
    requires inflate(m1.payload).Some? && inflate(m2.payload).Some?
    requires var d1, d2 := inflate(m1.payload).value, inflate(m2.payload).value;
             && |d1| == |d2| >= 4 && d1[..|d1| - 4] == d2[..|d2| - 4]
             && (HeaderFits(d1) ==> |Header(d1)| <= |d1| - 4)
    ensures Decode(m1, inflate).Ok? <==> Decode(m2, inflate).Ok?
    ensures Decode(m1, inflate).Ok? ==>
              var r1, r2 := Decode(m1, inflate).value, Decode(m2, inflate).value;
              r2 == r1.(messageReader := Cursor(inflate(m2.payload).value, r1.messageReader.position))
  {
    if m1.code == PeerSearchResponse {
      assert m1.payload[0..] == m1.payload;
      assert m2.payload[0..] == m2.payload;
      InflatedLastFourBytesUnread(inflate(m1.payload).value, inflate(m2.payload).value);
    }
  }

  /** LastFourBytesUnread on decompressed payloads. */
  lemma InflatedLastFourBytesUnread(d1: seq<byte>, d2: seq<byte>)
    requires |d1| == |d2| >= 4 && d1[..|d1| - 4] == d2[..|d2| - 4]
    requires HeaderFits(d1) ==> |Header(d1)| <= |d1| - 4
    ensures DecodeInflated(Cursor(d1, 0)).Ok? <==> DecodeInflated(Cursor(d2, 0)).Ok?
    ensures DecodeInflated(Cursor(d1, 0)).Ok? ==>
              var r1, r2 := DecodeInflated(Cursor(d1, 0)).value, DecodeInflated(Cursor(d2, 0)).value;
              r2 == r1.(messageReader := Cursor(d2, r1.messageReader.position))
  {
    var o1, o2 := DecodeInflated(Cursor(d1, 0)), DecodeInflated(Cursor(d2, 0));
    InflatedLayout(d1);
    InflatedLayout(d2);
    if |d1| >= TrailerOffset {
      SamePrefixHeader(d1, d2);
      if HeaderFits(d1) {
        SamePrefixTrailer(d1, d2);
        LaidOutDetermines(d1, d2, o1.value, o2.value);
      }
    }
  }

  /** Payloads that differ only in their last four bytes agree on whether a header fits, and on a header clear of those bytes. */
  lemma SamePrefixHeader(d1: seq<byte>, d2: seq<byte>)
    requires |d1| == |d2| >= 8 && d1[..|d1| - 4] == d2[..|d2| - 4]
    ensures HeaderFits(d1) <==> HeaderFits(d2)
    ensures HeaderFits(d1) && |Header(d1)| <= |d1| - 4 ==> Header(d1) == Header(d2)
  {
    var k := |d1| - 4;
    PrefixSlice(d1, k, 0, 4);
    PrefixSlice(d2, k, 0, 4);
    if HeaderFits(d1) && |Header(d1)| <= k {
      var h := |Header(d1)|;
      PrefixSlice(d1, k, 0, h);
      PrefixSlice(d2, k, 0, h);
    }
  }

  /** Two laid-out responses with the same header and the same first 13 trailer bytes differ at most in the retained buffer. */
  lemma LaidOutDetermines(d1: seq<byte>, d2: seq<byte>, r1: SearchResponseSlim, r2: SearchResponseSlim)
    requires LaidOut(d1, r1) && LaidOut(d2, r2)
    requires Header(d1) == Header(d2) && Trailer(d1)[..13] == Trailer(d2)[..13]
    ensures r2 == r1.(messageReader := Cursor(d2, r1.messageReader.position))
  {
    HeaderDetermines(Header(d1), r1, r2);
    TrailerPrefixDetermines(Trailer(d1), Trailer(d2), r1, r2);
  }

  /** Payloads that differ only in their last four bytes have the same first 13 trailer bytes. */
  lemma SamePrefixTrailer(d1: seq<byte>, d2: seq<byte>)
    requires |d1| == |d2| >= TrailerOffset && d1[..|d1| - 4] == d2[..|d2| - 4]
    ensures Trailer(d1)[..13] == Trailer(d2)[..13]
  {
    var n, k := |d1|, |d1| - 4;
    SliceOfSlice(d1, n - TrailerOffset, n, 0, 13);
    SliceOfSlice(d2, n - TrailerOffset, n, 0, 13);
    PrefixSlice(d1, k, n - TrailerOffset, k);
    PrefixSlice(d2, k, n - TrailerOffset, k);
  }
}
