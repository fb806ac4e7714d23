/** LanSocket::sendPacket, recvPartPacket and recvPacket of lan_protocol.cpp: frames on a byte stream. */
module LanSocket {
  import opened Bytes
  import opened ZeroRun

  const BUFFER_SIZE: nat := 2048
  const HEADER_SIZE: nat := 12

  datatype Message = Message(ty: byte, data: seq<byte>)

  function Le16(v: nat): (r: seq<byte>)
    ensures |r| == 2
  {
    [v % 256, v / 256 % 256]
  }

  function ReadLe16(s: seq<byte>, off: nat): (r: nat)
    requires off + 2 <= |s|
    ensures r < 0x10000
  {
    s[off] as int + s[off + 1] as int * 256
  }

  // ---- sending ----

  /** A body is sent compressed when that makes it no longer. */
  predicate Compresses(data: seq<byte>) {
    data != [] && |Encode(data)| <= |data|
  }

  function Body(data: seq<byte>): (r: seq<byte>)
    ensures |r| <= |data|
  {
    if Compresses(data) then Encode(data) else data
  }

  function HeaderBytes(m: Message): (r: seq<byte>)
    ensures |r| == HEADER_SIZE
  {
    LDN_MAGIC + [m.ty, if Compresses(m.data) then 1 else 0] + Le16(|Body(m.data)|)
    + Le16(if Compresses(m.data) then |m.data| else 0) + [0, 0]
  }

  function Frame(m: Message): (r: seq<byte>)
    ensures |r| == HEADER_SIZE + |Body(m.data)|
  {
    HeaderBytes(m) + Body(m.data)
  }

  /** sendPacket. The length field has 16 bits, and no more than it says is sent. */
  method SendPacket(m: Message) returns (wire: seq<byte>)
    ensures wire == HeaderBytes(m) + Body(m.data)[..|Body(m.data)| % 0x10000]
    ensures |m.data| < 0x10000 ==> wire == Frame(m)
  {
    var compressed, length, decompressLength := 0, |m.data|, 0;
    var body := m.data;
    if |m.data| > 0 {
      var buf := new byte[|m.data|](_ => 0);
      var ok, outSize := Compress(m.data, buf);
      if ok {
        body := buf[..outSize];
        decompressLength := length;
        length := outSize;
        compressed := 1;
      }
    }
    wire := LDN_MAGIC + [m.ty, compressed] + Le16(length) + Le16(decompressLength) + [0, 0] + body[..length % 0x10000];
  }

  // ---- receiving ----

  /** What recvfrom gives: at least one byte, or zero or less at the end of the stream or on an error. */
  datatype Input = Chunk(bytes: seq<byte>) | Ended(rc: int)

  datatype Part = NoPart | Part(packet: seq<byte>) | NoMore(rc: int)
  datatype Received = Nothing | Failed | Delivered(message: Message) | Closed(rc: int)

  /** recvPartPacket, on the buffer contents including the bytes just read: what is kept, and the
      frame cut off the front, if any. Bad magic or an impossible length throws everything away. */
  function CutFrame(b: seq<byte>): (seq<byte>, Part) {
    if |b| < HEADER_SIZE then (b, NoPart)
    else if b[..4] != LDN_MAGIC then ([], NoPart)
    else
      var total := HEADER_SIZE + ReadLe16(b, 6);
      if total > BUFFER_SIZE then ([], NoPart)
      else if |b| < total then (b, NoPart)
      else (b[total..], Part(b[..total]))
  }

  /** The part of recvPacket after recvPartPacket. */
  function Open(packet: seq<byte>): Received
    requires |packet| >= HEADER_SIZE
  {
    var body := packet[HEADER_SIZE..];
    if packet[5] == 0 then Delivered(Message(packet[4], body))
    else
      var r := Decode(body, BUFFER_SIZE);
      if !r.ok || |r.bytes| != ReadLe16(packet, 8) then Failed else Delivered(Message(packet[4], r.bytes))
  }

  function Receive(b: seq<byte>): (seq<byte>, Received) {
    var (kept, part) := CutFrame(b);
    (kept, if part.Part? && |part.packet| >= HEADER_SIZE then Open(part.packet) else Nothing)
  }

  class Socket {
    const buffer: array<byte>
    var recvSize: nat

    ghost predicate Valid() reads this {
      buffer.Length == BUFFER_SIZE && recvSize <= BUFFER_SIZE
    }

    ghost function Contents(): seq<byte>
      requires Valid()
      reads this, buffer
    {
      buffer[..recvSize]
    }

    constructor ()
      ensures Valid() && fresh(buffer) && Contents() == []
    {
      buffer := new byte[BUFFER_SIZE](_ => 0);
      recvSize := 0;
    }

    /** One read, which may bring any non-empty chunk that fits the free space of the buffer. */
    method Read(chunk: seq<byte>)
      requires Valid() && recvSize + |chunk| <= BUFFER_SIZE
      modifies this, buffer
      ensures Valid() && Contents() == old(Contents()) + chunk
    {
      for i := 0 to |chunk|
        invariant Valid() && recvSize == old(recvSize)
        invariant buffer[..recvSize + i] == old(Contents()) + chunk[..i]
      {
        buffer[recvSize + i] := chunk[i];
      }
      recvSize := recvSize + |chunk|;
    }

    /** recvPartPacket. A read that brings nothing leaves the buffer alone. */
    method RecvPart(input: Input) returns (part: Part)
      requires Valid() && (if input.Chunk? then recvSize + |input.bytes| <= BUFFER_SIZE else input.rc <= 0)
      modifies this, buffer
      ensures Valid()
      ensures input.Chunk? ==> (Contents(), part) == CutFrame(old(Contents()) + input.bytes)
      ensures input.Ended? ==> Contents() == old(Contents()) && part == NoMore(input.rc)
    {
      if input.Ended? {
        return NoMore(input.rc);
      }
      part := CutFirst(input.bytes);
    }

    method CutFirst(chunk: seq<byte>) returns (part: Part)
      requires Valid() && recvSize + |chunk| <= BUFFER_SIZE
      modifies this, buffer
      ensures Valid() && (Contents(), part) == CutFrame(old(Contents()) + chunk)
    {
      Read(chunk);
      ghost var b := Contents();
      part := NoPart;
      if recvSize < HEADER_SIZE {
        return;
      }
      if buffer[..4] != LDN_MAGIC {
        assert b[..4] == buffer[..4];
        recvSize := 0;
        return;
      }
      var total := HEADER_SIZE + ReadLe16(buffer[..], 6);
      assert b[..4] == buffer[..4] && ReadLe16(b, 6) == ReadLe16(buffer[..], 6);
      if total > BUFFER_SIZE {
        recvSize := 0;
        return;
      }
      if recvSize < total {
        return;
      }
      part := Part(buffer[..total]);
      assert b[..total] == buffer[..total];
      MoveDown(total);
    }

    /** memmove(buffer, buffer + total, recvSize) */
    method MoveDown(total: nat)
      requires Valid() && total <= recvSize
      modifies this, buffer
      ensures Valid() && Contents() == old(Contents())[total..]
    {
      var n := recvSize - total;
      for i := 0 to n
        invariant forall j :: 0 <= j < i ==> buffer[j] == old(buffer[total + j])
        invariant forall j :: i <= j < buffer.Length ==> buffer[j] == old(buffer[j])
      {
        buffer[i] := buffer[total + i];
      }
      recvSize := n;
    }

    /** recvPacket, with the message that goes to its callback. */
    method RecvPacket(input: Input) returns (r: Received)
      requires Valid() && (if input.Chunk? then recvSize + |input.bytes| <= BUFFER_SIZE else input.rc <= 0)
      modifies this, buffer
      ensures Valid()
      ensures input.Chunk? ==> (Contents(), r) == Receive(old(Contents()) + input.bytes)
      ensures input.Ended? ==> Contents() == old(Contents()) && r == Closed(input.rc)
    {
      var part := RecvPart(input);
      if part.NoPart? {
        return Nothing;
      }
      if part.NoMore? {
        return Closed(part.rc);
      }
      var packet := part.packet;
      if packet[5] == 0 {
        return Delivered(Message(packet[4], packet[HEADER_SIZE..]));
      }
      var unpacked := new byte[BUFFER_SIZE](_ => 0);
      var ok, outSize := Decompress(packet[HEADER_SIZE..], unpacked);
      if !ok || outSize != ReadLe16(packet, 8) {
        return Failed;
      }
      return Delivered(Message(packet[4], unpacked[..outSize]));
    }
  }

  // ---- one frame ----

  /** What a receiver can take in: the frame fits its buffer, and so does the unpacked message. */
  predicate Fits(m: Message) {
    |Frame(m)| <= BUFFER_SIZE && |m.data| <= BUFFER_SIZE
  }

  lemma {:induction false} Le16RoundTrip(v: nat, s: seq<byte>, off: nat)
    requires v < 0x10000 && off + 2 <= |s| && s[off..off + 2] == Le16(v)
    ensures ReadLe16(s, off) == v
  {
    assert s[off] == s[off..off + 2][0] && s[off + 1] == s[off..off + 2][1];
  }

  /** Anything that starts with the header of a frame announces that frame. */
  lemma {:induction false} HeaderReads(m: Message, b: seq<byte>)
    requires |m.data| < 0x10000 && |b| >= HEADER_SIZE && b[..HEADER_SIZE] == HeaderBytes(m)
    ensures b[..4] == LDN_MAGIC && b[4] == m.ty && b[5] == (if Compresses(m.data) then 1 else 0)
    ensures HEADER_SIZE + ReadLe16(b, 6) == |Frame(m)|
    ensures Compresses(m.data) ==> ReadLe16(b, 8) == |m.data|
  {
    var h := HeaderBytes(m);
    assert b[..4] == h[..4] == LDN_MAGIC;
    assert b[4] == b[..HEADER_SIZE][4] && b[5] == b[..HEADER_SIZE][5];
    assert b[6..8] == h[6..8] == Le16(|Body(m.data)|);
    assert b[8..10] == h[8..10];
    Le16RoundTrip(|Body(m.data)|, b, 6);
    if Compresses(m.data) { Le16RoundTrip(|m.data|, b, 8); }
  }

  /** A whole frame opens to its message exactly when the unpacked message fits the buffer. */
  lemma {:induction false} OpenFrame(m: Message)
    requires |m.data| < 0x10000
    ensures Open(Frame(m)) == if Compresses(m.data) && |m.data| > BUFFER_SIZE then Failed else Delivered(m)
  {
    var f := Frame(m);
    assert f[..HEADER_SIZE] == HeaderBytes(m) && f[HEADER_SIZE..] == Body(m.data);
    HeaderReads(m, f);
    if Compresses(m.data) {
      CompleteIffItFits(m.data, BUFFER_SIZE);
    }
  }

  /** A frame too long for the buffer: the read that completes its header empties the buffer and delivers
      nothing. What still comes of the frame is then taken for the start of another one. */
  lemma {:induction false} OversizeIsDropped(m: Message, b: seq<byte>)
    requires |m.data| < 0x10000 && HEADER_SIZE <= |b| <= |Frame(m)| && b == Frame(m)[..|b|]
    requires |Frame(m)| > BUFFER_SIZE
    ensures Receive(b) == ([], Nothing)
  {
    assert b[..HEADER_SIZE] == HeaderBytes(m);
    HeaderReads(m, b);
  }

  // ---- the whole stream ----

  function Stream(ms: seq<Message>): seq<byte> {
    if ms == [] then [] else Frame(ms[0]) + Stream(ms[1..])
  }

  predicate Prefix(a: seq<byte>, b: seq<byte>) {
    |a| <= |b| && a == b[..|a|]
  }

  /** The receiver after reading the given chunks one by one. */
  datatype Reader = Reader(buf: seq<byte>, delivered: seq<Message>, failed: bool)

  function AfterChunk(r: Reader, chunk: seq<byte>): Reader {
    var (kept, got) := Receive(r.buf + chunk);
    Reader(kept, if got.Delivered? then r.delivered + [got.message] else r.delivered, r.failed || got.Failed?)
  }

  function ReadAll(chunks: seq<seq<byte>>): Reader {
    if chunks == [] then Reader([], [], false) else AfterChunk(ReadAll(chunks[..|chunks| - 1]), chunks[|chunks| - 1])
  }

  /** Each read brings at least one byte and no more than the buffer has room for. */
  predicate Readable(chunks: seq<seq<byte>>) {
    forall i :: 0 <= i < |chunks| ==> 0 < |chunks[i]| <= BUFFER_SIZE - |ReadAll(chunks[..i]).buf|
  }

  /** After k messages: they have been delivered in order, and the buffer holds the start of the rest. */
  predicate InStep(ms: seq<Message>, k: nat, r: Reader, received: seq<byte>) {
    && k <= |ms| && r.delivered == ms[..k] && !r.failed
    && received == Stream(ms[..k]) + r.buf
    && Prefix(r.buf, Stream(ms[k..]))
    && |r.buf| < BUFFER_SIZE
  }

  lemma {:induction false} StreamAppend(ms: seq<Message>, m: Message)
    ensures Stream(ms + [m]) == Stream(ms) + Frame(m)
  {
    var all := ms + [m];
    if ms == [] {
      assert all == [m] && [m][1..] == [];
    } else {
      StreamAppend(ms[1..], m);
      assert all[0] == ms[0] && all[1..] == ms[1..] + [m];
      Assoc(Frame(ms[0]), Stream(ms[1..]), Frame(m));
    }
  }

  /** The buffer, read against the stream: either the next frame is complete or more must come. */
  lemma {:induction false} ReceiveNext(ms: seq<Message>, b: seq<byte>)
    requires Prefix(b, Stream(ms)) && |b| <= BUFFER_SIZE
    requires forall i :: 0 <= i < |ms| ==> Fits(ms[i])
    ensures ms != [] && |b| >= |Frame(ms[0])| ==>
      Receive(b) == (b[|Frame(ms[0])|..], Delivered(ms[0])) && Prefix(b[|Frame(ms[0])|..], Stream(ms[1..]))
    ensures ms == [] || |b| < |Frame(ms[0])| ==> Receive(b) == (b, Nothing) && |b| < BUFFER_SIZE
  {
    if ms != [] && |b| >= HEADER_SIZE {
      var f := Frame(ms[0]);
      assert b[..HEADER_SIZE] == f[..HEADER_SIZE] == HeaderBytes(ms[0]);
      HeaderReads(ms[0], b);
      if |b| >= |f| {
        assert b[..|f|] == f;
        OpenFrame(ms[0]);
        assert Stream(ms)[|f|..] == Stream(ms[1..]);
        assert b[|f|..] == Stream(ms)[|f|..|b|];
      }
    }
  }

  /** How many whole frames the first n bytes of the stream hold. */
  function Whole(ms: seq<Message>, n: nat): (r: nat)
    ensures r <= |ms|
  {
    if ms == [] || n < FrameLen(ms[0]) then 0 else 1 + Whole(ms[1..], n - FrameLen(ms[0]))
  }

  function FrameLen(m: Message): nat { HEADER_SIZE + |Body(m.data)| }

  /** The length of the first k frames. */
  function StreamLen(ms: seq<Message>, k: nat): nat
    requires k <= |ms|
  {
    if k == 0 then 0 else FrameLen(ms[0]) + StreamLen(ms[1..], k - 1)
  }

  lemma {:induction false} WholeSplit(ms: seq<Message>, k: nat, x: nat)
    requires k <= |ms|
    ensures Whole(ms, StreamLen(ms, k) + x) == k + Whole(ms[k..], x)
  {
    if k > 0 {
      var t := ms[1..];
      WholeSplit(t, k - 1, x);
      DropOne(ms, k);
      WholeCons(ms, StreamLen(t, k - 1) + x);
    } else {
      assert ms[0..] == ms;
    }
  }

  lemma {:induction false} WholeCons(ms: seq<Message>, n: nat)
    requires ms != []
    ensures Whole(ms, FrameLen(ms[0]) + n) == 1 + Whole(ms[1..], n)
  {
  }

  lemma {:induction false} DropOne(ms: seq<Message>, k: nat)
    requires 0 < k <= |ms|
    ensures ms[1..][k - 1..] == ms[k..]
  {
  }

  lemma {:induction false} StreamLength(ms: seq<Message>, k: nat)
    requires k <= |ms|
    ensures |Stream(ms[..k])| == StreamLen(ms, k)
  {
    if k > 0 {
      StreamLength(ms[1..], k - 1);
      assert ms[..k][1..] == ms[1..][..k - 1];
    }
  }

  lemma {:induction false} CountStep(ms: seq<Message>, k: nat, r: Reader, received: seq<byte>, chunk: seq<byte>)
    requires InStep(ms, k, r, received)
    ensures Min(Whole(ms, |received + chunk|), k + 1) ==
      if k < |ms| && |r.buf + chunk| >= |Frame(ms[k])| then k + 1 else k
  {
    WholeSplit(ms, k, |r.buf + chunk|);
    StreamLength(ms, k);
    assert |received + chunk| == StreamLen(ms, k) + |r.buf + chunk|;
  }

  lemma {:induction false} ChunkStep(ms: seq<Message>, k: nat, r: Reader, received: seq<byte>, chunk: seq<byte>)
    returns (k': nat)
    requires forall i :: 0 <= i < |ms| ==> Fits(ms[i])
    requires InStep(ms, k, r, received) && 0 < |chunk| <= BUFFER_SIZE - |r.buf|
    requires Prefix(r.buf + chunk, Stream(ms[k..]))
    ensures InStep(ms, k', AfterChunk(r, chunk), received + chunk)
    ensures k' == Min(Whole(ms, |received + chunk|), k + 1)
  {
    var b := r.buf + chunk;
    CountStep(ms, k, r, received, chunk);
    ReceiveNext(ms[k..], b);
    Assoc(Stream(ms[..k]), r.buf, chunk);
    if k < |ms| && |b| >= |Frame(ms[k])| {
      k' := k + 1;
      CutOff(ms, k, b);
      NextIs(ms, k);
    } else {
      k' := k;
    }
  }

  lemma {:induction false} NextIs(ms: seq<Message>, k: nat)
    requires k < |ms|
    ensures ms[k..][1..] == ms[k + 1..] && ms[..k] + [ms[k]] == ms[..k + 1]
  {
  }

  lemma {:induction false} Assoc(a: seq<byte>, b: seq<byte>, c: seq<byte>)
    ensures (a + b) + c == a + (b + c)
  {
  }

  lemma {:induction false} SplitAt(b: seq<byte>, f: seq<byte>, s: seq<byte>)
    requires Prefix(b, f + s) && |b| >= |f|
    ensures b == f + b[|f|..]
  {
    assert b[..|f|] == (f + s)[..|f|] == f;
  }

  /** Moving a complete frame from the buffer to the delivered part. */
  lemma {:induction false} CutOff(ms: seq<Message>, k: nat, b: seq<byte>)
    requires k < |ms| && Prefix(b, Stream(ms[k..])) && |b| >= |Frame(ms[k])|
    ensures Stream(ms[..k]) + b == Stream(ms[..k + 1]) + b[|Frame(ms[k])|..]
  {
    var f := Frame(ms[k]);
    SplitAt(b, f, Stream(ms[k..][1..]));
    StreamAppend(ms[..k], ms[k]);
    assert ms[..k] + [ms[k]] == ms[..k + 1];
    Assoc(Stream(ms[..k]), f, b[|f|..]);
  }

  lemma {:induction false} StreamSplit(ms: seq<Message>, k: nat)
    requires k <= |ms|
    ensures Stream(ms) == Stream(ms[..k]) + Stream(ms[k..])
  {
    if k > 0 {
      StreamSplit(ms, k - 1);
      StreamAppend(ms[..k - 1], ms[k - 1]);
      assert ms[..k - 1] + [ms[k - 1]] == ms[..k];
      assert ms[k - 1..][1..] == ms[k..];
    } else {
      assert ms[..0] == [] && ms[0..] == ms;
    }
  }

  /** Each read delivers one message, if it leaves a whole frame to deliver. */
  function DeliveredBy(ms: seq<Message>, chunks: seq<seq<byte>>): nat {
    if chunks == [] then 0 else Min(Whole(ms, |Flat(chunks)|), DeliveredBy(ms, chunks[..|chunks| - 1]) + 1)
  }

  /** For every way the stream is cut into reads, the messages delivered so far are the first ones
      sent, in order, and DeliveredBy says how many; their frames and the buffer are exactly the bytes
      received; no frame fails; and the next read always has room. */
  lemma {:induction false} StreamDelivers(ms: seq<Message>, chunks: seq<seq<byte>>) returns (k: nat)
    requires forall i :: 0 <= i < |ms| ==> Fits(ms[i])
    requires Readable(chunks) && Prefix(Flat(chunks), Stream(ms))
    ensures InStep(ms, k, ReadAll(chunks), Flat(chunks)) && k == DeliveredBy(ms, chunks)
  {
    if chunks == [] {
      k := 0;
      assert ms[..0] == [] && ms[0..] == ms;
    } else {
      var p, c := chunks[..|chunks| - 1], chunks[|chunks| - 1];
      ReadablePrefix(chunks);
      PrefixOfPrefix(Flat(p), c, Stream(ms));
      k := StreamDelivers(ms, p);
      BufferPrefix(ms, k, ReadAll(p), Flat(p), c);
      k := ChunkStep(ms, k, ReadAll(p), Flat(p), c);
    }
  }

  lemma {:induction false} ReadablePrefix(chunks: seq<seq<byte>>)
    requires Readable(chunks) && chunks != []
    ensures Readable(chunks[..|chunks| - 1])
    ensures 0 < |chunks[|chunks| - 1]| <= BUFFER_SIZE - |ReadAll(chunks[..|chunks| - 1]).buf|
  {
    var p := chunks[..|chunks| - 1];
    assert forall i :: 0 <= i < |p| ==> p[..i] == chunks[..i] && p[i] == chunks[i];
  }

  lemma {:induction false} PrefixOfPrefix(a: seq<byte>, c: seq<byte>, s: seq<byte>)
    requires Prefix(a + c, s)
    ensures Prefix(a, s)
  {
    assert a == (a + c)[..|a|];
  }

  lemma {:induction false} BufferPrefix(ms: seq<Message>, k: nat, r: Reader, received: seq<byte>, c: seq<byte>)
    requires InStep(ms, k, r, received) && Prefix(received + c, Stream(ms))
    ensures Prefix(r.buf + c, Stream(ms[k..]))
  {
    StreamSplit(ms, k);
    Assoc(Stream(ms[..k]), r.buf, c);
    RestPrefix(Stream(ms[..k]), Stream(ms[k..]), r.buf + c);
  }

  lemma {:induction false} RestPrefix(a: seq<byte>, b: seq<byte>, c: seq<byte>)
    ensures Prefix(a + c, a + b) <==> Prefix(c, b)
  {
    if Prefix(a + c, a + b) {
      assert c == (a + c)[|a|..] == (a + b)[|a|..|a| + |c|];
    }
    if Prefix(c, b) {
      assert (a + b)[..|a| + |c|] == a + b[..|c|];
    }
  }

  /** When everything has been read, everything has been delivered or is waiting in the buffer. */
  lemma {:induction false} AllReadThenRest(ms: seq<Message>, chunks: seq<seq<byte>>)
    requires forall i :: 0 <= i < |ms| ==> Fits(ms[i])
    requires Readable(chunks) && Flat(chunks) == Stream(ms)
    ensures var k := DeliveredBy(ms, chunks);
      k <= |ms| && ReadAll(chunks).delivered == ms[..k] && ReadAll(chunks).buf == Stream(ms[k..])
  {
    var k := StreamDelivers(ms, chunks);
    StreamSplit(ms, k);
  }

  /** After the first t reads there are still reads enough for n messages. */
  predicate Enough(ms: seq<Message>, chunks: seq<seq<byte>>, n: nat, t: int) {
    0 <= t <= |chunks| ==> Whole(ms, |Flat(chunks[..t])|) + (|chunks| - t) >= n
  }

  /** n messages have been delivered exactly if, at every moment, the whole frames received by then and
      the reads still to come are together at least n. */
  lemma {:induction false} DeliveredAtLeastIff(ms: seq<Message>, chunks: seq<seq<byte>>, n: nat)
    ensures DeliveredBy(ms, chunks) >= n <==> forall t :: Enough(ms, chunks, n, t)
    decreases |chunks|, 1
  {
    if chunks == [] {
      assert chunks[..0] == [];
      assert Whole(ms, 0) == 0;
      assert Enough(ms, chunks, n, 0) <==> n == 0;
    } else {
      assert chunks[..|chunks|] == chunks;
      if n > 0 { DeliveredOneMore(ms, chunks, chunks[..|chunks| - 1], n, n - 1); }
    }
  }

  lemma {:induction false} DeliveredOneMore(ms: seq<Message>, chunks: seq<seq<byte>>, p: seq<seq<byte>>, n: nat, m: nat)
    requires chunks != [] && p == chunks[..|chunks| - 1] && n == m + 1
    ensures DeliveredBy(ms, chunks) >= n <==> forall t :: Enough(ms, chunks, n, t)
    decreases |chunks|, 0
  {
    DeliveredAtLeastIff(ms, p, m);
    EnoughBefore(ms, chunks, p, n, m);
    if forall t :: Enough(ms, chunks, n, t) {
      assert Enough(ms, chunks, n, |chunks|);
      forall t ensures Enough(ms, p, m, t) { assert Enough(ms, chunks, n, t); }
    }
    if DeliveredBy(ms, chunks) >= n {
      forall t ensures Enough(ms, chunks, n, t) { assert t != |chunks| ==> Enough(ms, p, m, t); }
    }
  }

  lemma {:induction false} EnoughBefore(ms: seq<Message>, chunks: seq<seq<byte>>, p: seq<seq<byte>>, n: nat, m: nat)
    requires chunks != [] && p == chunks[..|chunks| - 1] && n == m + 1
    ensures Enough(ms, chunks, n, |chunks|) <==> Whole(ms, |Flat(chunks)|) >= n
    ensures forall t :: t != |chunks| ==> (Enough(ms, chunks, n, t) <==> Enough(ms, p, m, t))
    ensures Enough(ms, p, m, |chunks|)
  {
    assert chunks[..|chunks|] == chunks;
    forall t | 0 <= t < |chunks| ensures p[..t] == chunks[..t] {}
  }

  /** So all messages have been delivered exactly if no read fell behind: a sender that puts more frames
      into one read than there are reads left leaves whole frames waiting in the buffer. */
  lemma {:induction false} AllDeliveredIff(ms: seq<Message>, chunks: seq<seq<byte>>)
    requires forall i :: 0 <= i < |ms| ==> Fits(ms[i])
    requires Readable(chunks) && Flat(chunks) == Stream(ms)
    ensures ReadAll(chunks).delivered == ms <==> forall t :: Enough(ms, chunks, |ms|, t)
  {
    AllReadThenRest(ms, chunks);
    DeliveredAtLeastIff(ms, chunks, |ms|);
    assert ms[..|ms|] == ms;
  }

  /** It happens: of several messages that arrive in one read, the first is delivered and the others stay. */
  lemma {:induction false} OneReadOneMessage(ms: seq<Message>)
    requires |ms| >= 1 && (forall i :: 0 <= i < |ms| ==> Fits(ms[i])) && |Stream(ms)| <= BUFFER_SIZE
    ensures ReadAll([Stream(ms)]).delivered == ms[..1] && ReadAll([Stream(ms)]).buf == Stream(ms[1..])
  {
    var chunks := [Stream(ms)];
    assert chunks[..0] == [] && chunks[..|chunks| - 1] == [];
    StreamLength(ms, |ms|);
    WholeSplit(ms, |ms|, 0);
    assert ms[..|ms|] == ms && Flat(chunks) == Stream(ms);
    AllReadThenRest(ms, chunks);
  }

  /** Two empty messages in one read, for example. */
  lemma {:induction false} SecondStays(m: Message)
    requires m.data == []
    ensures ReadAll([Stream([m, m])]).delivered == [m] != [m, m] && ReadAll([Stream([m, m])]).buf == Stream([m])
  {
    assert Body(m.data) == [];
    assert [m, m][1..] == [m] && [m][1..] == [] && [m, m][..1] == [m];
    StreamLength([m, m], 2);
    assert [m, m][..2] == [m, m] && FrameLen(m) == HEADER_SIZE && StreamLen([m], 1) == HEADER_SIZE;
    assert |Frame(m)| == HEADER_SIZE;
    OneReadOneMessage([m, m]);
  }

  // ---- the bytes on the wire ----

  /** The frame of a message, byte by byte. The body is the data itself, or, if coding zero runs makes it no
      longer, its code, and then the unpacked length is in the header. */
  lemma {:induction false} WireLayout(m: Message)
    requires |m.data| < 0x10000
    ensures var f := Frame(m); var coded := m.data != [] && |Encode(m.data)| <= |m.data|;
      && |f| >= 12 && f[0..4] == [0x00, 0x14, 0x45, 0x11] && f[4] == m.ty && f[5] == (if coded then 1 else 0)
      && ReadLe16(f, 6) == |f| - 12 && ReadLe16(f, 8) == (if coded then |m.data| else 0) && f[10] == f[11] == 0
      && f[12..] == (if coded then Encode(m.data) else m.data)
  {
    var f, h := Frame(m), HeaderBytes(m);
    assert f[..HEADER_SIZE] == h && f[0..4] == f[..4];
    HeaderReads(m, f);
    assert f[8..10] == h[8..10] == Le16(if Compresses(m.data) then |m.data| else 0);
    Le16RoundTrip(if Compresses(m.data) then |m.data| else 0, f, 8);
    assert f[10] == h[10] && f[11] == h[11];
  }

  /** A buffer that does not begin with the magic number is thrown away. */
  lemma {:induction false} BadMagicDropped(b: seq<byte>)
    requires |b| >= 12 && b[..4] != [0x00, 0x14, 0x45, 0x11]
    ensures Receive(b) == ([], Nothing)
  {
  }

  /** Whatever a whole frame claims to be, it is cut off the buffer; it fails exactly if it is said to be coded and
      its body does not unpack to the length it announces. */
  lemma {:induction false} FrameOpens(b: seq<byte>, n: nat)
    requires |b| >= 12 && b[..4] == [0x00, 0x14, 0x45, 0x11] && ReadLe16(b, 6) == n && 12 + n <= |b| && 12 + n <= 2048
    ensures var body := b[12..12 + n]; var r := Decode(body, 2048);
      Receive(b) == (b[12 + n..],
        if b[5] == 0 then Delivered(Message(b[4], body))
        else if r.ok && |r.bytes| == ReadLe16(b, 8) then Delivered(Message(b[4], r.bytes))
        else Failed)
  {
    var packet := b[..12 + n];
    assert packet[12..] == b[12..12 + n] && packet[4] == b[4] && packet[5] == b[5];
    assert packet[8] == b[8] && packet[9] == b[9];
  }

  /** Lengths on the wire are little-endian: the low byte comes first. */
  lemma {:induction false} LittleEndian(hi: byte, lo: byte)
    ensures Le16(256 * hi + lo) == [lo, hi] && ReadLe16([lo, hi], 0) == 256 * hi + lo
  {
    var v := 256 * hi as int + lo as int;
    assert v / 256 == hi && v % 256 == lo;
  }
}
