/** The peer request to queue a file for download (EnqueueDownloadRequest). */
module Messages {
  import opened Primitives
  import opened Codec

  /** The longest filename whose message length still fits the 4-byte length prefix. */
  const MaxFilenameLength: int := Int32Max - 8

  /** The constructor stores the filename unchanged. */
  datatype EnqueueDownloadRequest = EnqueueDownloadRequest(filename: seq<byte>)

  /** The message body: the QueueDownload code, then the filename as a string. */
  function Body(request: EnqueueDownloadRequest): (body: seq<byte>)
    requires |request.filename| <= MaxFilenameLength
    ensures |body| == 8 + |request.filename|
  {
    EncodeInt32(QueueDownload) + EncodeString(request.filename)
  }

  /** The bytes ToByteArray produces; they depend on the filename alone. */
  function Encode(request: EnqueueDownloadRequest): (bytes: seq<byte>)
    requires |request.filename| <= MaxFilenameLength
    ensures |bytes| == 12 + |request.filename|
  {
    Frame(Body(request))
  }

  /** What FromByteArray returns or raises for the given bytes. */
  function Decode(bytes: seq<byte>): (r: Result<EnqueueDownloadRequest>)
    ensures r.Ok? ==> && 12 + |r.value.filename| <= |bytes|
                      && 8 + |r.value.filename| <= DecodeInt32(bytes[..4])
                      && DecodeInt32(bytes[4..8]) == QueueDownload
                      && DecodeInt32(bytes[8..12]) == |r.value.filename|
                      && r.value.filename == bytes[12..12 + |r.value.filename|]
    ensures r.Err? && r.error.CodeMismatch? ==> r.error.expected == QueueDownload
  {
    var body :- Unframe(bytes);
    var code :- Cursor(body, 0).ReadInteger();
    SliceOfSlice(bytes, 4, 4 + |body|, 0, 4);
    if code.value != QueueDownload then
      Err(CodeMismatch(QueueDownload, code.value))
    else
      var filename :- code.next.ReadString();
      SliceOfSlice(bytes, 4, 4 + |body|, 4, 8);
      SliceOfSlice(bytes, 4, 4 + |body|, 8, 8 + |filename.value|);
      Ok(EnqueueDownloadRequest(filename.value))
  }

  method FromByteArray(bytes: seq<byte>) returns (r: Result<EnqueueDownloadRequest>)
    ensures r == Decode(bytes)
  {
    var body :- Unframe(bytes);
    var reader := new MessageReader(body);
    var code :- reader.ReadCode();
    if code != QueueDownload {
      return Err(CodeMismatch(QueueDownload, code));
    }
    var filename :- reader.ReadString();
    return Ok(EnqueueDownloadRequest(filename));
  }

  method ToByteArray(request: EnqueueDownloadRequest) returns (bytes: seq<byte>)
    requires |request.filename| <= MaxFilenameLength
    ensures bytes == Encode(request)
  {
    var builder := new MessageBuilder();
    builder.WriteCode(QueueDownload);
    builder.WriteString(request.filename);
    bytes := builder.Build();
  }

  /** Decoding what was encoded gives back the request, for every filename including the empty one. */
  lemma RoundTrip(request: EnqueueDownloadRequest)
    requires |request.filename| <= MaxFilenameLength
    ensures Decode(Encode(request)) == Ok(request)
  {
    var body := Body(request);
    UnframeFrame(body);
    ReadIntegerAfterWrite([], QueueDownload, EncodeString(request.filename));
    assert body == EncodeInt32(QueueDownload) + EncodeString(request.filename) + [];
    ReadStringAfterWrite(EncodeInt32(QueueDownload), request.filename, []);
  }

  /**
   * The layout of an encoded request, read back independently of the reader:
   * the length prefix, the QueueDownload code, the string length, the filename bytes.
   */
  lemma EncodingLayout(request: EnqueueDownloadRequest)
    requires |request.filename| <= MaxFilenameLength
    ensures var bytes := Encode(request);
            && DecodeInt32(bytes[0..4]) == 8 + |request.filename|
            && DecodeInt32(bytes[4..8]) == QueueDownload
            && DecodeInt32(bytes[8..12]) == |request.filename|
            && bytes[12..] == request.filename
  {
    var bytes := Encode(request);
    assert bytes[0..4] == EncodeInt32(8 + |request.filename|);
    assert bytes[4..8] == EncodeInt32(QueueDownload);
    assert bytes[8..12] == EncodeInt32(|request.filename|);
    DecodeEncodeInt32(8 + |request.filename|);
    DecodeEncodeInt32(QueueDownload);
    DecodeEncodeInt32(|request.filename|);
  }

  /**
   * A well-framed message with any other code is rejected with both codes,
   * whatever follows the code: the filename is never read.
   */
  lemma CodeMismatchFailsFast(code: int32, rest: seq<byte>)
    requires code != QueueDownload
    requires |rest| <= Int32Max - 4
    ensures Decode(Frame(EncodeInt32(code) + rest)) == Err(CodeMismatch(QueueDownload, code))
  {
    var body := EncodeInt32(code) + rest;
    UnframeFrame(body);
    ReadIntegerAfterWrite([], code, rest);
    assert [] + EncodeInt32(code) + rest == body;
  }

  /** Every code mismatch reported carries QueueDownload as the expected code and the code found. */
  lemma MismatchReportsCodes(bytes: seq<byte>)
    requires Decode(bytes).Err? && Decode(bytes).error.CodeMismatch?
    ensures Decode(bytes).error.expected == QueueDownload
    ensures |bytes| >= 8 && Decode(bytes).error.received == DecodeInt32(bytes[4..8]) != QueueDownload
  {
    var body := Unframe(bytes).value;
    assert body[0..4] == bytes[4..8];
  }

  /** Cutting an encoded request short anywhere makes decoding fail with a read error. */
  lemma TruncatedMessageFails(request: EnqueueDownloadRequest, n: nat)
    requires |request.filename| <= MaxFilenameLength
    requires n < |Encode(request)|
    ensures Decode(Encode(request)[..n]).Err?
    ensures Decode(Encode(request)[..n]).error.Class() == MessageReadException
  {
    var bytes := Encode(request);
    var cut := bytes[..n];
    if n >= 4 {
      assert cut[..4] == bytes[..4] == EncodeInt32(8 + |request.filename|);
      DecodeEncodeInt32(8 + |request.filename|);
    }
  }

  /**
   * A correctly framed body that stops inside the code or inside the string
   * also fails with a read error rather than yielding a partial request.
   */
  lemma TruncatedBodyFails(request: EnqueueDownloadRequest, n: nat)
    requires |request.filename| <= MaxFilenameLength
    requires n < |Body(request)|
    ensures Decode(Frame(Body(request)[..n])).Err?
    ensures Decode(Frame(Body(request)[..n])).error.Class() == MessageReadException
  {
    var body := Body(request);
    var cut := body[..n];
    UnframeFrame(cut);
    if n >= 4 {
      assert cut[0..4] == EncodeInt32(QueueDownload);
      DecodeEncodeInt32(QueueDownload);
      if n >= 8 {
        assert cut[4..8] == EncodeInt32(|request.filename|);
        DecodeEncodeInt32(|request.filename|);
      }
    }
  }

  /**
   * The converse of Decode's contract: parsing succeeds exactly when the message
   * holds a length prefix and a frame of at least 8 bytes within it, whose code
   * is QueueDownload and whose filename length fits inside that frame.
   */
  lemma DecodeAccepts(bytes: seq<byte>)
    ensures Decode(bytes).Ok? <==>
              && 12 <= |bytes|
              && 8 <= DecodeInt32(bytes[..4]) <= |bytes| - 4
              && DecodeInt32(bytes[4..8]) == QueueDownload
              && 0 <= DecodeInt32(bytes[8..12]) <= DecodeInt32(bytes[..4]) - 8
  {
    var framed := Unframe(bytes);
    if framed.Ok? && |framed.value| >= 8 {
      var body := framed.value;
      SliceOfSlice(bytes, 4, 4 + |body|, 0, 4);
      SliceOfSlice(bytes, 4, 4 + |body|, 4, 8);
    }
  }

  /** Only the declared frame is read: bytes after it change nothing. */
  lemma TrailingBytesIgnored(bytes: seq<byte>, extra: seq<byte>)
    requires 4 <= |bytes| && 0 <= DecodeInt32(bytes[..4]) <= |bytes| - 4
    ensures Decode(bytes + extra) == Decode(bytes)
  {
    var longer := bytes + extra;
    assert longer[..4] == bytes[..4];
    var n := DecodeInt32(bytes[..4]);
    assert longer[4..4 + n] == bytes[4..4 + n];
  }
}
