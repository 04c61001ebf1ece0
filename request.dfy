/** The request the peer sends first: five little-endian u64 fields, then the
    file name and the hash-algorithm name, each as many bytes as its length
    field says (remote_script.py lines 28-30). */
module Request {
  import opened Wire

  datatype Option<T> = None | Some(value: T)

  /** Bytes in the fixed part of the request: five u64 fields. */
  const HEADER_SIZE: nat := 40

  /** The fields of `struct.unpack('<QQQQQ', ...)`, in wire order. */
  datatype Header = Header(
    remoteSize: u64,
    blockSize: u64,
    offsetBlocks: u64,
    filenameLen: u64,
    hashnameLen: u64)

  function EncodeHeader(h: Header): (s: seq<byte>)
    ensures |s| == HEADER_SIZE
  {
    EncodeU64(h.remoteSize) + EncodeU64(h.blockSize) + EncodeU64(h.offsetBlocks)
      + EncodeU64(h.filenameLen) + EncodeU64(h.hashnameLen)
  }

  function DecodeHeader(s: seq<byte>): (h: Header)
    requires |s| == HEADER_SIZE
  {
    Header(DecodeU64(s[0..8]), DecodeU64(s[8..16]), DecodeU64(s[16..24]),
           DecodeU64(s[24..32]), DecodeU64(s[32..40]))
  }

  /** Every 40 bytes are the encoding of the header they decode to, so no
      header is rejected once 40 bytes have arrived. */
  lemma {:induction false} HeaderBytesRoundTrip(s: seq<byte>)
    requires |s| == HEADER_SIZE
    ensures EncodeHeader(DecodeHeader(s)) == s
  {
    U64BytesRoundTrip(s[0..8]);
    U64BytesRoundTrip(s[8..16]);
    U64BytesRoundTrip(s[16..24]);
    U64BytesRoundTrip(s[24..32]);
    U64BytesRoundTrip(s[32..40]);
    assert s == s[0..8] + s[8..16] + s[16..24] + s[24..32] + s[32..40];
  }

  /** Decoding an encoded header gives back every field. */
  lemma {:induction false} HeaderRoundTrip(h: Header)
    ensures DecodeHeader(EncodeHeader(h)) == h
  {
    var s := EncodeHeader(h);
    assert s[0..8] == EncodeU64(h.remoteSize);
    assert s[8..16] == EncodeU64(h.blockSize);
    assert s[16..24] == EncodeU64(h.offsetBlocks);
    assert s[24..32] == EncodeU64(h.filenameLen);
    assert s[32..40] == EncodeU64(h.hashnameLen);
    U64RoundTrip(h.remoteSize);
    U64RoundTrip(h.blockSize);
    U64RoundTrip(h.offsetBlocks);
    U64RoundTrip(h.filenameLen);
    U64RoundTrip(h.hashnameLen);
  }

  /** A decoded request: the header and the name bytes actually read. */
  datatype Request = Request(header: Header, filename: seq<byte>, hashname: seq<byte>)

  /** `read` accepts both declared name lengths (lines 29-30): each is below
      2^63, the range of a C `ssize_t`. */
  predicate Readable(h: Header)
  {
    h.filenameLen < I64_BOUND && h.hashnameLen < I64_BOUND
  }

  /** The names can be read and are exactly as long as the header declares. */
  predicate WellFormed(req: Request)
  {
    Readable(req.header) && |req.filename| == req.header.filenameLen && |req.hashname| == req.header.hashnameLen
  }

  function EncodeRequest(req: Request): (s: seq<byte>)
    ensures |s| == HEADER_SIZE + |req.filename| + |req.hashname|
  {
    EncodeHeader(req.header) + req.filename + req.hashname
  }

  /** Reads the request from the start of stdin and returns it with the
      stdin position after it. None when fewer than 40 bytes arrive (the
      header unpack fails) or when a declared name length is too large for
      `read`, which raises before anything is written. A name cut short by
      the end of stdin is returned as far as it arrived, since a blocking read
      stops there; the hash name then gets whatever the file name left. */
  function ParseRequest(input: seq<byte>): (r: Option<(Request, nat)>)
    ensures r.None? <==> |input| < HEADER_SIZE || !Readable(DecodeHeader(input[..HEADER_SIZE]))
    ensures r.Some? ==>
      var (req, next) := r.value;
      && req.header == DecodeHeader(input[..HEADER_SIZE])
      && next == HEADER_SIZE + |req.filename| + |req.hashname| <= |input|
      && req.filename == input[HEADER_SIZE..HEADER_SIZE + |req.filename|]
      && req.hashname == input[HEADER_SIZE + |req.filename|..next]
      && |req.filename| == Min(req.header.filenameLen, |input| - HEADER_SIZE)
      && |req.hashname| == Min(req.header.hashnameLen, |input| - HEADER_SIZE - |req.filename|)
      && (!WellFormed(req) ==> next == |input|)
  {
    if |input| < HEADER_SIZE then None
    else
      var header := DecodeHeader(input[..HEADER_SIZE]);
      if !Readable(header) then None
      else
        var filename := Read(input, HEADER_SIZE, header.filenameLen);
        var hashname := Read(input, HEADER_SIZE + |filename|, header.hashnameLen);
        Some((Request(header, filename, hashname), HEADER_SIZE + |filename| + |hashname|))
  }

  /** A well-formed request followed by anything parses back to itself, and
      parsing stops exactly at its end. */
  lemma {:induction false} ParseEncoded(req: Request, rest: seq<byte>)
    requires WellFormed(req)
    ensures ParseRequest(EncodeRequest(req) + rest) == Some((req, |EncodeRequest(req)|))
  {
    var input := EncodeRequest(req) + rest;
    var n1 := HEADER_SIZE + |req.filename|;
    assert input[..HEADER_SIZE] == EncodeHeader(req.header);
    HeaderRoundTrip(req.header);
    assert Read(input, HEADER_SIZE, req.header.filenameLen) == input[HEADER_SIZE..n1] == req.filename;
    assert Read(input, n1, req.header.hashnameLen) == input[n1..n1 + |req.hashname|] == req.hashname;
  }

  /** When all the declared name bytes arrive, the request consumed is the
      encoding of what was parsed. */
  lemma {:induction false} ParseComplete(input: seq<byte>)
    requires |input| >= HEADER_SIZE
    requires var h := DecodeHeader(input[..HEADER_SIZE]);
      Readable(h) && HEADER_SIZE + h.filenameLen + h.hashnameLen <= |input|
    ensures ParseRequest(input).Some?
    ensures var (req, next) := ParseRequest(input).value;
      WellFormed(req) && input[..next] == EncodeRequest(req)
  {
    var h := DecodeHeader(input[..HEADER_SIZE]);
    HeaderBytesRoundTrip(input[..HEADER_SIZE]);
    var n1 := HEADER_SIZE + h.filenameLen;
    var n2 := n1 + h.hashnameLen;
    var filename := Read(input, HEADER_SIZE, h.filenameLen);
    var hashname := Read(input, n1, h.hashnameLen);
    assert filename == input[HEADER_SIZE..n1];
    assert hashname == input[n1..n2];
    assert ParseRequest(input) == Some((Request(h, filename, hashname), n2));
    assert input[..n2] == input[..HEADER_SIZE] + input[HEADER_SIZE..n1] + input[n1..n2];
  }
}
