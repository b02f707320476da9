/** Connect / gRPC-Web envelopes (internal/app/connect_envelope.go, and the frame compression of
    internal/app/gateway_frame_compression.go): a flag byte, a 32-bit big-endian length, a payload. */
module Envelope {
  import opened Utf8
  import opened Wrappers

  const HEADER_SIZE := 5
  const MAX_FRAME_SIZE := 0x40_0000
  const FLAG_COMPRESSED: byte := 1
  const FLAG_END_STREAM: byte := 2

  datatype Frame = Frame(flags: byte, data: Bytes)

  datatype ReadError = EOF | UnexpectedEOF | EnvelopeTooLarge

  // ----- The wire format

  /** Go's PutUint32 of a length converted to uint32: four big-endian bytes, modulo 2^32. */
  function BigEndian(n: nat): (b: Bytes)
    ensures |b| == 4
  {
    [LowByte(n / 0x100 / 0x100 / 0x100), LowByte(n / 0x100 / 0x100), LowByte(n / 0x100), LowByte(n)]
  }

  function LowByte(n: nat): byte {
    (n % 0x100) as byte
  }

  function Uint32(b: Bytes): (n: nat)
    requires |b| == 4
    ensures n < 0x1_0000_0000
  {
    ((b[0] as int * 0x100 + b[1] as int) * 0x100 + b[2] as int) * 0x100 + b[3] as int
  }

  lemma BigEndianInverse(n: nat)
    ensures Uint32(BigEndian(n)) == n % 0x1_0000_0000
  {
    var n1, n2, n3 := n / 0x100, n / 0x100 / 0x100, n / 0x100 / 0x100 / 0x100;
    Digits(n, n1, n2, n3, n3 / 0x100, n % 0x100, n1 % 0x100, n2 % 0x100, n3 % 0x100);
  }

  lemma Digits(n: nat, n1: nat, n2: nat, n3: nat, n4: nat, d0: nat, d1: nat, d2: nat, d3: nat)
    requires n == n1 * 0x100 + d0 && n1 == n2 * 0x100 + d1 && n2 == n3 * 0x100 + d2 && n3 == n4 * 0x100 + d3
    requires d0 < 0x100 && d1 < 0x100 && d2 < 0x100 && d3 < 0x100
    ensures n % 0x1_0000_0000 == ((d3 * 0x100 + d2) * 0x100 + d1) * 0x100 + d0
  {
    Remainder(n, n4, ((d3 * 0x100 + d2) * 0x100 + d1) * 0x100 + d0);
  }

  lemma Remainder(n: nat, q: nat, x: nat)
    requires n == q * 0x1_0000_0000 + x && x < 0x1_0000_0000
    ensures n % 0x1_0000_0000 == x
  {
  }

  /** x comes before y byte by byte, as memcmp has it. */
  ghost predicate Precedes(x: Bytes, y: Bytes) {
    exists i: nat :: i < |x| && i < |y| && x[..i] == y[..i] && x[i] < y[i]
  }

  /** The most significant byte is sent first: the wire orders lengths as numbers are ordered. */
  lemma BigEndianOrders(m: nat, n: nat)
    requires m < n < 0x1_0000_0000
    ensures Precedes(BigEndian(m), BigEndian(n))
  {
    BigEndianInverse(m);
    BigEndianInverse(n);
    hide *;
    SmallerPrecedes(BigEndian(m), BigEndian(n));
  }

  lemma SmallerPrecedes(a: Bytes, b: Bytes)
    requires |a| == |b| == 4 && Uint32(a) < Uint32(b)
    ensures Precedes(a, b)
  {
    var i: nat := if a[0] != b[0] then 0 else if a[1] != b[1] then 1 else if a[2] != b[2] then 2 else 3;
    assert a[..i] == b[..i];
  }

  function Wire(f: Frame): Bytes {
    [f.flags] + BigEndian(|f.data|) + f.data
  }

  function Wires(fs: seq<Frame>): Bytes {
    if fs == [] then [] else Wire(fs[0]) + Wires(fs[1..])
  }

  /** What one read makes of the remaining bytes, and how many of them it takes. */
  function Parse(s: Bytes): (Result<Frame, ReadError>, nat) {
    if s == [] then (Err(EOF), 0)
    else if |s| < HEADER_SIZE then (Err(UnexpectedEOF), |s|)
    else
      var n := Uint32(s[1..5]);
      if n == 0 then (Ok(Frame(s[0], [])), HEADER_SIZE)
      else if n > MAX_FRAME_SIZE then (Err(EnvelopeTooLarge), HEADER_SIZE)
      else if |s| == HEADER_SIZE then (Err(EOF), HEADER_SIZE)
      else if |s| < HEADER_SIZE + n then (Err(UnexpectedEOF), |s|)
      else (Ok(Frame(s[0], s[5..5 + n])), HEADER_SIZE + n)
  }

  /** Reading until the first error. */
  function ReadAll(s: Bytes): (seq<Frame>, ReadError)
    decreases |s|
  {
    match Parse(s)
    case (Err(e), _) => ([], e)
    case (Ok(f), n) => var (fs, e) := ReadAll(s[n..]); ([f] + fs, e)
  }

  // ----- The code

  /** An io.Reader over a fixed stream. */
  class ByteReader {
    const stream: Bytes
    var pos: nat

    ghost predicate Valid()
      reads this
    {
      pos <= |stream|
    }

    ghost function Rest(): Bytes
      reads this
      requires Valid()
    {
      stream[pos..]
    }

    constructor (stream: Bytes)
      ensures Valid() && this.stream == stream && pos == 0
    {
      this.stream, pos := stream, 0;
    }

    /** io.ReadFull into a buffer of n bytes: EOF only if there was nothing at all to read. */
    method ReadFull(n: nat) returns (r: Result<Bytes, ReadError>)
      requires Valid() && n > 0
      modifies this
      ensures Valid()
      ensures var rest := old(Rest());
        if rest == [] then r == Err(EOF) && pos == old(pos)
        else if |rest| < n then r == Err(UnexpectedEOF) && pos == |stream|
        else r == Ok(rest[..n]) && pos == old(pos) + n
    {
      if pos == |stream| {
        return Err(EOF);
      }
      if |stream| - pos < n {
        pos := |stream|;
        return Err(UnexpectedEOF);
      }
      assert stream[pos..pos + n] == Rest()[..n];
      r := Ok(stream[pos..pos + n]);
      pos := pos + n;
    }
  }

  method ReadConnectFrame(r: ByteReader) returns (res: Result<Frame, ReadError>)
    requires r.Valid()
    modifies r
    ensures r.Valid()
    ensures res == Parse(old(r.Rest())).0 && r.pos == old(r.pos) + Parse(old(r.Rest())).1
  {
    ghost var s := r.Rest();
    var header := r.ReadFull(HEADER_SIZE);
    if header.Err? {
      return Err(header.error);
    }
    var flags := header.value[0];
    var length := Uint32(header.value[1..5]);
    assert header.value[1..5] == s[1..5] && header.value[0] == s[0];
    if length == 0 {
      return Ok(Frame(flags, []));
    }
    if length > MAX_FRAME_SIZE {
      return Err(EnvelopeTooLarge);
    }
    assert r.Rest() == s[5..];
    var data := r.ReadFull(length);
    if data.Err? {
      return Err(data.error);
    }
    assert data.value == s[5..5 + length];
    return Ok(Frame(flags, data.value));
  }

  datatype Encoding = Identity | Gzip

  /** gzip as a pair of functions; compression may fail. */
  datatype Codec = Codec(zip: Bytes -> Option<Bytes>, unzip: Bytes -> Option<Bytes>)

  ghost predicate Inverse(c: Codec) {
    forall x, y :: c.zip(x) == Some(y) ==> c.unzip(y) == Some(x)
  }

  function CompressFrame(c: Codec, data: Bytes, e: Encoding): Option<(Bytes, byte)> {
    if e != Gzip || data == [] then Some((data, 0))
    else match c.zip(data)
      case None => None
      case Some(z) => Some((z, FLAG_COMPRESSED))
  }

  /** The frame that a message becomes, unless compression fails. */
  function Encoded(c: Codec, data: Bytes, endStream: bool, e: Encoding): Option<Frame> {
    match CompressFrame(c, data, e)
    case None => None
    case Some((d, compressed)) => Some(Frame(compressed + (if endStream then FLAG_END_STREAM else 0), d))
  }

  /** decodeFramePayload: the compressed flag decides; a compressed frame needs a negotiated codec. */
  function DecodePayload(c: Codec, f: Frame, e: Encoding): Option<Bytes> {
    if f.flags % 2 == 0 then Some(f.data)
    else if e != Gzip then None
    else c.unzip(f.data)
  }

  /** The connection: it takes `room` more bytes and fails at the first one after that. */
  class ByteWriter {
    var out: Bytes
    var room: nat

    constructor (room: nat)
      ensures out == [] && this.room == room
    {
      out, this.room := [], room;
    }

    method Write(p: Bytes) returns (ok: bool)
      modifies this
      ensures ok <==> |p| <= old(room)
      ensures var n := if ok then |p| else old(room);
        out == old(out) + p[..n] && room == old(room) - n
    {
      ok := |p| <= room;
      var n := if ok then |p| else room;
      out, room := out + p[..n], room - n;
    }
  }

  /** What reaches the connection is the frame, cut where the connection fails. */
  method WriteConnectFrameEncoded(w: ByteWriter, c: Codec, data: Bytes, endStream: bool, e: Encoding)
    returns (ok: bool)
    modifies w
    ensures var f := Encoded(c, data, endStream, e);
      if f.None? then !ok && w.out == old(w.out)
      else var wire := Wire(f.value);
        ok == (|wire| <= old(w.room)) && w.out == old(w.out) + Cut(wire, old(w.room))
  {
    var compressed := CompressFrame(c, data, e);
    if compressed.None? {
      return false;
    }
    var (payload, flags) := compressed.value;
    if endStream {
      flags := flags + FLAG_END_STREAM;
    }
    EncodedAs(c, data, endStream, e, Frame(flags, payload));
    hide *;
    ok := WriteParts(w, [flags] + BigEndian(|payload|), payload);
  }

  lemma EncodedAs(c: Codec, data: Bytes, endStream: bool, e: Encoding, f: Frame)
    requires var x := CompressFrame(c, data, e);
      x.Some? && f.data == x.value.0 && f.flags == if endStream then x.value.1 + FLAG_END_STREAM else x.value.1
    ensures Encoded(c, data, endStream, e) == Some(f)
    ensures Wire(f) == ([f.flags] + BigEndian(|f.data|)) + f.data
  {
  }

  method WriteParts(w: ByteWriter, header: Bytes, payload: Bytes) returns (ok: bool)
    modifies w
    ensures ok == (|header + payload| <= old(w.room)) && w.out == old(w.out) + Cut(header + payload, old(w.room))
  {
    CutJoined(header, payload, w.room);
    hide Cut;
    ok := w.Write(header);
    if ok && |payload| != 0 {
      assert Cut(payload, w.room) == payload[..if |payload| <= w.room then |payload| else w.room];
      ok := w.Write(payload);
    } else {
      assert payload == [] ==> Cut(payload, w.room) == [] by {
        assert Cut(payload, w.room) == payload[..if |payload| <= w.room then |payload| else w.room];
      }
    }
  }

  function Cut(s: Bytes, n: nat): Bytes {
    if |s| <= n then s else s[..n]
  }

  lemma CutJoined(a: Bytes, b: Bytes, n: nat)
    ensures Cut(a + b, n) == if |a| <= n then a + Cut(b, n - |a|) else a[..n]
  {
  }

  // ----- Round trips

  lemma WireShape(f: Frame, rest: Bytes)
    ensures var s := Wire(f) + rest;
      && |s| == HEADER_SIZE + |f.data| + |rest| && s[0] == f.flags
      && Uint32(s[1..5]) == |f.data| % 0x1_0000_0000 && s[5..] == f.data + rest
  {
    var s := Wire(f) + rest;
    assert s[1..5] == BigEndian(|f.data|);
    BigEndianInverse(|f.data|);
  }

  /** A frame is read back exactly when its payload is within the limit: the writer has none. */
  lemma FrameRoundTrip(f: Frame, rest: Bytes)
    ensures Parse(Wire(f) + rest).0 == Ok(f) <==> |f.data| <= MAX_FRAME_SIZE
    ensures |f.data| <= MAX_FRAME_SIZE ==> Parse(Wire(f) + rest) == (Ok(f), |Wire(f)|)
    ensures MAX_FRAME_SIZE < |f.data| < 0x1_0000_0000 ==> Parse(Wire(f) + rest) == (Err(EnvelopeTooLarge), HEADER_SIZE)
  {
    WireShape(f, rest);
    var s := Wire(f) + rest;
    if |f.data| <= MAX_FRAME_SIZE {
      assert s[5..5 + |f.data|] == s[5..][..|f.data|] == f.data;
    }
  }

  predicate Readable(fs: seq<Frame>) {
    forall i :: 0 <= i < |fs| ==> |fs[i].data| <= MAX_FRAME_SIZE
  }

  /** Any stream of readable frames is read back frame by frame and then ends cleanly. */
  lemma {:induction false} StreamRoundTrip(fs: seq<Frame>)
    requires Readable(fs)
    ensures ReadAll(Wires(fs)) == (fs, EOF)
  {
    if fs != [] {
      FrameRoundTrip(fs[0], Wires(fs[1..]));
      StreamRoundTrip(fs[1..]);
      ReadOne(fs[0], Wires(fs[1..]));
      assert fs == [fs[0]] + fs[1..];
    }
  }

  lemma ReadOne(f: Frame, rest: Bytes)
    requires |f.data| <= MAX_FRAME_SIZE
    ensures ReadAll(Wire(f) + rest) == ([f] + ReadAll(rest).0, ReadAll(rest).1)
  {
    FrameRoundTrip(f, rest);
    hide Parse, Wire;
    var s := Wire(f) + rest;
    assert s[|Wire(f)|..] == rest;
  }

  /** A message survives compression, framing, reading and decoding. */
  lemma MessageRoundTrip(c: Codec, data: Bytes, endStream: bool, e: Encoding, rest: Bytes)
    requires Inverse(c) && Encoded(c, data, endStream, e).Some?
    requires |Encoded(c, data, endStream, e).value.data| <= MAX_FRAME_SIZE
    ensures var parsed := Parse(Wire(Encoded(c, data, endStream, e).value) + rest).0;
      && parsed.Ok?
      && DecodePayload(c, parsed.value, e) == Some(data)
      && (parsed.value.flags / 2 % 2 == 1 <==> endStream)
  {
    FrameRoundTrip(Encoded(c, data, endStream, e).value, rest);
  }

  /** The lowest flag tells whether a payload is compressed: it is, if gzip is negotiated and there is
      anything to compress. A frame that says so without gzip being negotiated is not decoded. */
  lemma CompressionIsFlagged(c: Codec, data: Bytes, endStream: bool, e: Encoding, flags: byte)
    ensures var f := Encoded(c, data, endStream, e);
      && (f.None? <==> e == Gzip && |data| > 0 && c.zip(data).None?)
      && (f.Some? ==> (f.value.flags % 2 == 1 <==> e == Gzip && |data| > 0))
      && (f.Some? ==> if f.value.flags % 2 == 1 then c.zip(data) == Some(f.value.data) else f.value.data == data)
    ensures flags % 2 == 1 ==> DecodePayload(c, Frame(flags, data), Identity) == None
    ensures flags % 2 == 1 ==> DecodePayload(c, Frame(flags, data), Gzip) == c.unzip(data)
  {
  }

  // ----- Cut streams

  /** A frame of which only the first k bytes arrived. */
  lemma CutFrame(f: Frame, k: nat)
    requires |f.data| <= MAX_FRAME_SIZE && k < |Wire(f)|
    ensures Parse(Wire(f)[..k]).0 == Err(if k == 0 || k == HEADER_SIZE then EOF else UnexpectedEOF)
  {
    WireShape(f, []);
    var s := Wire(f)[..k];
    assert Wire(f) + [] == Wire(f);
    if k >= HEADER_SIZE {
      assert s[1..5] == Wire(f)[1..5];
    }
  }

  /** m frames arrive complete; behind them an end or an error is read. */
  ghost predicate CutsAt(fs: seq<Frame>, k: nat, m: nat) {
    && m <= |fs| && |Wires(fs[..m])| <= k <= |Wires(fs)|
    && (m < |fs| ==> k < |Wires(fs[..m + 1])|)
    && var left := k - |Wires(fs[..m])|;
       ReadAll(Wires(fs)[..k]) == (fs[..m], if left == 0 || left == HEADER_SIZE then EOF else UnexpectedEOF)
  }

  /** Cut anywhere, the stream yields exactly the frames that are complete, then an end or an error. */
  lemma {:induction false} CutStream(fs: seq<Frame>, k: nat) returns (m: nat)
    requires Readable(fs) && k <= |Wires(fs)|
    ensures CutsAt(fs, k, m)
    decreases |fs|
  {
    if fs == [] {
      m := 0;
    } else if k < |Wire(fs[0])| {
      m := 0;
      CutFirst(fs, k);
    } else {
      var h := CutStream(fs[1..], k - |Wire(fs[0])|);
      m := h + 1;
      CutLater(fs, k, h);
    }
  }

  lemma CutFirst(fs: seq<Frame>, k: nat)
    requires Readable(fs) && fs != [] && k < |Wire(fs[0])|
    ensures CutsAt(fs, k, 0)
  {
    CutFrame(fs[0], k);
    FirstWire(fs, 0);
    hide Parse, Wire;
    assert Wires(fs)[..k] == Wire(fs[0])[..k];
  }

  lemma CutLater(fs: seq<Frame>, k: nat, h: nat)
    requires Readable(fs) && fs != [] && k >= |Wire(fs[0])| && CutsAt(fs[1..], k - |Wire(fs[0])|, h)
    ensures CutsAt(fs, k, h + 1)
  {
    var f, tail, rest := fs[0], fs[1..], k - |Wire(fs[0])|;
    var cut := Wires(tail)[..rest];
    LaterBoundaries(fs, h);
    assert (Wire(f) + Wires(tail))[..k] == Wire(f) + Wires(tail)[..k - |Wire(f)|];
    ReadOne(f, cut);
    hide Parse, Wire, Wires, ReadAll, Readable;
    assert Wires(fs)[..k] == Wire(f) + cut;
  }

  lemma LaterBoundaries(fs: seq<Frame>, h: nat)
    requires fs != [] && h < |fs|
    ensures var f, tail := fs[0], fs[1..];
      && Wires(fs) == Wire(f) + Wires(tail) && fs[..h + 1] == [f] + tail[..h]
      && |Wires(fs[..h + 1])| == |Wire(f)| + |Wires(tail[..h])|
      && (h < |tail| ==> |Wires(fs[..h + 1 + 1])| == |Wire(f)| + |Wires(tail[..h + 1])|)
  {
    FirstWire(fs, h);
    if h < |fs| - 1 {
      FirstWire(fs, h + 1);
    }
    hide Wire;
  }

  lemma FirstWire(fs: seq<Frame>, h: nat)
    requires fs != [] && h < |fs|
    ensures Wires(fs[..h + 1]) == Wire(fs[0]) + Wires(fs[1..][..h])
    ensures fs[..0] == [] && Wires([]) == []
  {
    assert fs[..h + 1][1..] == fs[1..][..h];
  }

  /** The promise is that EOF means a clean end. For a stream cut at k it holds exactly when the
      cut does not fall right behind the header of a frame with a payload. */
  lemma CleanEndExactly(fs: seq<Frame>, k: nat)
    requires Readable(fs) && k <= |Wires(fs)|
    ensures EndIsHonest(fs, k) <==> !(exists m: nat :: m < |fs| && CutBehindHeader(fs, k, m))
  {
    var m := CutStream(fs, k);
    WholeStream(fs);
    if m < |fs| {
      BoundaryStep(fs, m);
    }
    forall j: nat | j <= |fs| && j != m
      ensures CutBetween(fs, k, j) ==> k == |Wires(fs[..m])|
      ensures j < |fs| ==> !CutBehindHeader(fs, k, j)
    {
      NotElsewhere(fs, k, m, j);
    }
    hide Wires, Readable;
    assert CutBetween(fs, k, m) <==> k == |Wires(fs[..m])|;
    assert m < |fs| ==> (CutBehindHeader(fs, k, m) <==> k == |Wires(fs[..m])| + HEADER_SIZE);
  }

  /** A cut after m frames is not behind the header of another one, and between two others only
      where it is between these. */
  lemma NotElsewhere(fs: seq<Frame>, k: nat, m: nat, j: nat)
    requires m <= |fs| && j <= |fs| && j != m && CutsAt(fs, k, m)
    ensures CutBetween(fs, k, j) ==> k == |Wires(fs[..m])|
    ensures j < |fs| ==> !CutBehindHeader(fs, k, j)
  {
    hide Wires;
    if j < m {
      BoundaryStep(fs, j);
      BoundariesGrow(fs, j + 1, m);
    } else {
      BoundariesGrow(fs, m + 1, j);
    }
  }

  lemma WholeStream(fs: seq<Frame>)
    ensures Wires(fs[..|fs|]) == Wires(fs)
  {
    assert fs[..|fs|] == fs;
  }

  lemma {:induction false} BoundaryStep(fs: seq<Frame>, m: nat)
    requires m < |fs|
    ensures |Wires(fs[..m + 1])| == |Wires(fs[..m])| + HEADER_SIZE + |fs[m].data|
  {
    FirstWire(fs, m);
    if m > 0 {
      FirstWire(fs, m - 1);
      BoundaryStep(fs[1..], m - 1);
    }
  }

  lemma {:induction false} BoundariesGrow(fs: seq<Frame>, i: nat, j: nat)
    requires i <= j <= |fs|
    ensures |Wires(fs[..i])| <= |Wires(fs[..j])|
  {
    if 0 < i {
      FirstWire(fs, i - 1);
      FirstWire(fs, j - 1);
      BoundariesGrow(fs[1..], i - 1, j - 1);
    } else if 0 < j {
      FirstWire(fs, j - 1);
    }
  }

  /** The read of the cut stream reports EOF if and only if the cut falls between two frames. */
  ghost predicate EndIsHonest(fs: seq<Frame>, k: nat)
    requires k <= |Wires(fs)|
  {
    ReadAll(Wires(fs)[..k]).1 == EOF <==> exists m: nat :: m <= |fs| && CutBetween(fs, k, m)
  }

  ghost predicate CutBetween(fs: seq<Frame>, k: nat, m: nat)
    requires m <= |fs|
  {
    k == |Wires(fs[..m])|
  }

  ghost predicate CutBehindHeader(fs: seq<Frame>, k: nat, m: nat)
    requires m < |fs|
  {
    k == |Wires(fs[..m])| + HEADER_SIZE && fs[m].data != []
  }

  /** The shortest instance: a lone header announcing one byte reads as a clean end. */
  lemma BareHeaderLooksClean()
    ensures var s: Bytes := [0, 0, 0, 0, 1]; s <= Wire(Frame(0, [7])) && Parse(s).0 == Err(EOF)
  {
    var f := Frame(0, [7]);
    assert Wire(f) == [0, 0, 0, 0, 1, 7];
    CutFrame(f, 5);
    assert Wire(f)[..5] == [0, 0, 0, 0, 1];
  }
}
