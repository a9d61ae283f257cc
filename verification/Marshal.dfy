/**
  * Messages on a byte stream (marshal.go): a little-endian int64 size, then that many bytes; and the
  * client's frame iterator over such a stream (http/client.go).
  */
module Marshal {
  import opened Wrappers
  import opened Values

  type byte = x: int | 0 <= x < 256

  const HEADER := 8

  // --- Sizes ---------------------------------------------------------------------------------------

  /** The low `width` bytes of n, least significant byte first. */
  function LittleEndian(n: nat, width: nat): (bs: seq<byte>)
    ensures |bs| == width
  {
    if width == 0 then [] else [n % 256] + LittleEndian(n / 256, width - 1)
  }

  function FromLittleEndian(bs: seq<byte>): nat {
    if bs == [] then 0 else bs[0] + 256 * FromLittleEndian(bs[1..])
  }

  function Power256(width: nat): nat {
    if width == 0 then 1 else 256 * Power256(width - 1)
  }

  lemma {:induction false} NumberThroughBytes(n: nat, width: nat)
    requires n < Power256(width)
    ensures FromLittleEndian(LittleEndian(n, width)) == n
  {
    if width > 0 {
      assert LittleEndian(n, width)[1..] == LittleEndian(n / 256, width - 1);
      NumberThroughBytes(n / 256, width - 1);
    }
  }

  lemma SplitLowest(b: byte, rest: nat)
    ensures (b + 256 * rest) / 256 == rest && (b + 256 * rest) % 256 == b
  {
  }

  lemma {:induction false} BytesThroughNumber(bs: seq<byte>)
    ensures FromLittleEndian(bs) < Power256(|bs|)
    ensures LittleEndian(FromLittleEndian(bs), |bs|) == bs
  {
    if bs != [] {
      BytesThroughNumber(bs[1..]);
      var rest := FromLittleEndian(bs[1..]);
      SplitLowest(bs[0], rest);
      assert FromLittleEndian(bs) == bs[0] + 256 * rest;
      assert bs == [bs[0]] + bs[1..];
    }
  }

  function Header(size: int64): (bs: seq<byte>)
    ensures |bs| == HEADER
  {
    LittleEndian(size % TWO_64, HEADER)
  }

  function SizeOf(header: seq<byte>): int64
    requires |header| == HEADER
  {
    BytesThroughNumber(header);
    PowerOfHeader();
    var n := FromLittleEndian(header);
    if n < TWO_63 then n else n - TWO_64
  }

  lemma PowerOfHeader()
    ensures Power256(HEADER) == TWO_64
  {
    assert Power256(4) == 0x1_0000_0000;
    assert Power256(8) == 256 * (256 * (256 * (256 * Power256(4))));
  }

  /** Sizes, negative ones included, and 8-byte headers correspond one to one. */
  lemma SizeThroughHeader(size: int64)
    ensures SizeOf(Header(size)) == size
  {
    PowerOfHeader();
    NumberThroughBytes(size % TWO_64, HEADER);
    hide Power256, LittleEndian, FromLittleEndian;
    if size < 0 {
      assert size % TWO_64 == size + TWO_64;
    } else {
      assert size % TWO_64 == size;
    }
  }

  lemma HeaderThroughSize(header: seq<byte>)
    requires |header| == HEADER
    ensures Header(SizeOf(header)) == header
  {
    PowerOfHeader();
    BytesThroughNumber(header);
    hide Power256, LittleEndian, FromLittleEndian;
    var n := FromLittleEndian(header);
    assert SizeOf(header) % TWO_64 == n by {
      if n >= TWO_63 {
        assert (n - TWO_64) % TWO_64 == n;
      }
    }
  }

  // --- Streams ---------------------------------------------------------------------------------------

  /** The bytes of a marshalled message; Go's lengths are int64. */
  type Payload = p: seq<byte> | |p| < TWO_63 witness []

  function Encoded(p: Payload): seq<byte> {
    Header(|p|) + p
  }

  function Stream(ps: seq<Payload>): seq<byte> {
    if ps == [] then [] else Encoded(ps[0]) + Stream(ps[1..])
  }

  /** Eight bytes of size, least significant first, and the payload. */
  predicate IsEncodingOf(p: Payload, bytes: seq<byte>) {
    && |bytes| == 8 + |p| && bytes[8..] == p
    && |p| == Lowest(bytes[0], Lowest(bytes[1], Lowest(bytes[2], Lowest(bytes[3],
              Lowest(bytes[4], Lowest(bytes[5], Lowest(bytes[6], Lowest(bytes[7], 0))))))))
  }

  /** The number whose lowest byte is `b`, and of which the others make `rest`. */
  function Lowest(b: byte, rest: int): int {
    b as int + 256 * rest
  }

  lemma NextByte(bs: seq<byte>, k: nat)
    requires k < |bs|
    ensures FromLittleEndian(bs[k..]) == Lowest(bs[k], FromLittleEndian(bs[k + 1..]))
  {
    assert bs[k..][1..] == bs[k + 1..];
  }

  lemma HeaderBytes(h: seq<byte>)
    requires |h| == HEADER
    ensures FromLittleEndian(h) == Lowest(h[0], Lowest(h[1], Lowest(h[2], Lowest(h[3],
              Lowest(h[4], Lowest(h[5], Lowest(h[6], Lowest(h[7], 0))))))))
  {
    NextByte(h, 0);
    NextByte(h, 1);
    NextByte(h, 2);
    NextByte(h, 3);
    NextByte(h, 4);
    NextByte(h, 5);
    NextByte(h, 6);
    NextByte(h, 7);
    assert FromLittleEndian(h[8..]) == 0;
    hide FromLittleEndian, Lowest;
    assert h[0..] == h;
  }

  lemma EncodedBytes(p: Payload)
    ensures IsEncodingOf(p, Encoded(p))
  {
    hide LittleEndian, FromLittleEndian, Power256, Lowest;
    PowerOfHeader();
    NumberThroughBytes(|p|, HEADER);
    var h := Header(|p|);
    assert |p| % TWO_64 == |p| && FromLittleEndian(h) == |p|;
    HeaderBytes(h);
    hide Header;
    assert Encoded(p)[8..] == p && Encoded(p)[..8] == h;
  }

  /** HeaderError to BadMessage are errors other than io.EOF. */
  datatype Decoded = Message(p: Payload) | Eof | HeaderError | BodyError | BadMessage

  /** What one `Decode` makes of the bytes ahead, when the stream then ends, cleanly or not. */
  function DecodeOne(bytes: seq<byte>, broken: bool, readable: seq<byte> -> bool): Decoded {
    if |bytes| < HEADER then
      if bytes == [] && !broken then Eof else HeaderError
    else
      var size := SizeOf(bytes[..HEADER]);
      if size < 0 || |bytes| - HEADER < size then BodyError
      else
        var p: Payload := bytes[HEADER..HEADER + size];
        if readable(p) then Message(p) else BadMessage
  }

  /** The messages up to the first `Decode` without one, and what that one says. */
  function DecodeAll(bytes: seq<byte>, broken: bool, readable: seq<byte> -> bool): (r: (seq<Payload>, Decoded))
    ensures !r.1.Message?
  {
    var d := DecodeOne(bytes, broken, readable);
    if d.Message? then
      var (ps, end) := DecodeAll(bytes[HEADER + |d.p|..], broken, readable);
      ([d.p] + ps, end)
    else
      ([], d)
  }

  predicate Readable(ps: seq<Payload>, readable: seq<byte> -> bool) {
    forall i :: 0 <= i < |ps| ==> readable(ps[i])
  }

  /** A message and what follows it. */
  lemma DecodeEncoded(p: Payload, rest: seq<byte>, broken: bool, readable: seq<byte> -> bool)
    requires readable(p)
    ensures DecodeOne(Encoded(p) + rest, broken, readable) == Message(p)
    ensures (Encoded(p) + rest)[HEADER + |p|..] == rest
  {
    SizeThroughHeader(|p|);
    hide Header, SizeOf;
    var bytes := Encoded(p) + rest;
    assert bytes[..HEADER] == Header(|p|);
    assert bytes[HEADER..HEADER + |p|] == p;
  }

  /** Whole messages decode to themselves, whatever follows. */
  lemma {:induction false} DecodeStream(ps: seq<Payload>, rest: seq<byte>, broken: bool, readable: seq<byte> -> bool)
    requires Readable(ps, readable)
    ensures var r := DecodeAll(rest, broken, readable);
      DecodeAll(Stream(ps) + rest, broken, readable) == (ps + r.0, r.1)
  {
    hide DecodeOne, Encoded;
    if ps == [] {
      assert Stream(ps) + rest == rest && ps + DecodeAll(rest, broken, readable).0 == DecodeAll(rest, broken, readable).0;
    } else {
      DecodeEncoded(ps[0], Stream(ps[1..]) + rest, broken, readable);
      assert Stream(ps) + rest == Encoded(ps[0]) + (Stream(ps[1..]) + rest);
      DecodeStream(ps[1..], rest, broken, readable);
      var more := DecodeAll(rest, broken, readable).0;
      assert ps + more == [ps[0]] + (ps[1..] + more);
    }
  }

  /** Decoding a whole stream gives its messages and then io.EOF. */
  lemma RoundTrip(ps: seq<Payload>, readable: seq<byte> -> bool)
    requires Readable(ps, readable)
    ensures DecodeAll(Stream(ps), false, readable) == (ps, Eof)
  {
    DecodeStream(ps, [], false, readable);
    assert Stream(ps) + [] == Stream(ps) && ps + [] == ps;
    assert DecodeAll([], false, readable) == ([], Eof);
  }

  /** A clean end is reported for encoded streams only. */
  lemma {:induction false} CleanEndMeansWhole(bytes: seq<byte>, broken: bool, readable: seq<byte> -> bool)
    requires DecodeAll(bytes, broken, readable).1 == Eof
    ensures !broken && bytes == Stream(DecodeAll(bytes, broken, readable).0)
    decreases |bytes|
  {
    var d := DecodeOne(bytes, broken, readable);
    if d.Message? {
      HeaderThroughSize(bytes[..HEADER]);
      hide Header, SizeOf;
      CleanEndMeansWhole(bytes[HEADER + |d.p|..], broken, readable);
      assert bytes == bytes[..HEADER] + d.p + bytes[HEADER + |d.p|..];
    }
  }

  // --- Streams that are cut ---------------------------------------------------------------------------

  /** How many messages are complete within the first n bytes. */
  function CompleteWithin(ps: seq<Payload>, n: nat): (k: nat)
    ensures k <= |ps|
  {
    if ps == [] || n < |Encoded(ps[0])| then 0 else 1 + CompleteWithin(ps[1..], n - |Encoded(ps[0])|)
  }

  lemma {:induction false} StreamSplit(a: seq<Payload>, b: seq<Payload>)
    ensures Stream(a + b) == Stream(a) + Stream(b)
  {
    hide Encoded;
    if a == [] {
      assert a + b == b;
    } else {
      StreamSplit(a[1..], b);
      assert (a + b)[1..] == a[1..] + b && (a + b)[0] == a[0];
    }
  }

  lemma {:induction false} CompleteBounds(ps: seq<Payload>, n: nat)
    requires n <= |Stream(ps)|
    ensures var k := CompleteWithin(ps, n);
      && |Stream(ps[..k])| <= n && (k < |ps| ==> n < |Stream(ps[..k])| + |Encoded(ps[k])|)
  {
    var k := CompleteWithin(ps, n);
    if ps == [] || n < |Encoded(ps[0])| {
      assert ps[..k] == [];
    } else {
      hide Encoded;
      CompleteBounds(ps[1..], n - |Encoded(ps[0])|);
      assert ps[..k] == [ps[0]] + ps[1..][..k - 1] && ps[..k][1..] == ps[1..][..k - 1];
    }
  }

  /** The start of a message is an error, but for the empty one. */
  lemma CutMessage(p: Payload, n: nat, broken: bool, readable: seq<byte> -> bool)
    requires n < |Encoded(p)|
    ensures var r := DecodeAll(Encoded(p)[..n], broken, readable);
      r.0 == [] && (r.1 == Eof <==> n == 0 && !broken)
  {
    SizeThroughHeader(|p|);
    hide Header, SizeOf;
    if n >= HEADER {
      assert Encoded(p)[..n][..HEADER] == Header(|p|);
    }
  }

  /**
    * A stream cut anywhere gives its complete messages, and io.EOF exactly when it was cut between
    * two messages and the connection was closed properly.
    */
  lemma Truncation(ps: seq<Payload>, n: nat, broken: bool, readable: seq<byte> -> bool)
    requires Readable(ps, readable) && n <= |Stream(ps)|
    ensures var r, k := DecodeAll(Stream(ps)[..n], broken, readable), CompleteWithin(ps, n);
      r.0 == ps[..k] && (r.1 == Eof <==> n == |Stream(ps[..k])| && !broken)
  {
    hide Encoded, Stream, DecodeAll, CompleteWithin;
    var k := CompleteWithin(ps, n);
    CompleteBounds(ps, n);
    StreamSplit(ps[..k], ps[k..]);
    assert ps[..k] + ps[k..] == ps;
    var done := |Stream(ps[..k])|;
    var rest := Stream(ps[k..])[..n - done];
    assert Stream(ps)[..n] == Stream(ps[..k]) + rest;
    DecodeStream(ps[..k], rest, broken, readable);
    CutRest(ps, k, n - done, broken, readable);
    assert ps[..k] + [] == ps[..k];
  }

  lemma CutRest(ps: seq<Payload>, k: nat, n: nat, broken: bool, readable: seq<byte> -> bool)
    requires k <= |ps| && n <= |Stream(ps[k..])| && (k < |ps| ==> n < |Encoded(ps[k])|)
    ensures var r := DecodeAll(Stream(ps[k..])[..n], broken, readable);
      r.0 == [] && (r.1 == Eof <==> n == 0 && !broken)
  {
    if k < |ps| {
      CutMessage(ps[k], n, broken, readable);
      hide Encoded, DecodeAll;
      assert ps[k..][0] == ps[k];
      assert Stream(ps[k..])[..n] == Encoded(ps[k])[..n];
    }
  }

  // --- Encoder, decoder and iterator ------------------------------------------------------------------

  /** An `io.Writer`: a write may fail after any part of it. */
  class Writer {
    var written: seq<byte>
    var refused: nat

    constructor ()
      ensures written == [] && refused == 0
    {
      written, refused := [], 0;
    }

    method Write(data: seq<byte>) returns (ok: bool)
      modifies this
      ensures old(written) <= written <= old(written) + data
      ensures ok ==> written == old(written) + data
      ensures refused == old(refused) + (if ok then 0 else 1)
    {
      var n: nat;
      ok, n := *, *;
      refused := if ok then refused else refused + 1;
      written := written + data[..if ok || n > |data| then |data| else n];
    }
  }

  lemma FirstPart(before: seq<byte>, header: seq<byte>, data: seq<byte>, now: seq<byte>)
    requires before <= now <= before + header
    ensures before <= now <= before + (header + data)
  {
    assert before + (header + data) == before + header + data;
  }

  lemma SecondPart(before: seq<byte>, header: seq<byte>, data: seq<byte>, now: seq<byte>)
    requires before + header <= now <= before + header + data
    ensures before <= now <= before + (header + data)
    ensures now == before + header + data ==> now == before + (header + data) && now[|before|..] == header + data
  {
    assert before + (header + data) == before + header + data;
  }

  class Encoder {
    const w: Writer

    constructor (w: Writer)
      ensures this.w == w
    {
      this.w := w;
    }

    /** `None` is a message that cannot be marshalled. */
    method Encode(msg: Option<Payload>) returns (ok: bool)
      modifies w
      ensures ok ==> msg.Some? && w.written == old(w.written) + Encoded(msg.value)
      ensures msg.Some? ==> old(w.written) <= w.written <= old(w.written) + Encoded(msg.value)
      ensures msg.None? ==> w.written == old(w.written)
      ensures ok ==> IsEncodingOf(msg.value, w.written[|old(w.written)|..])
      ensures ok <==> msg.Some? && w.refused == old(w.refused)
      ensures w.refused >= old(w.refused)
    {
      if msg.None? {
        return false;
      }
      var data := msg.value;
      EncodedBytes(data);
      hide IsEncodingOf, Header, LittleEndian;
      ghost var before, header := w.written, Header(|data|);
      ok := w.Write(Header(|data|));
      if ok {
        ok := w.Write(data);
        SecondPart(before, header, data, w.written);
      } else {
        FirstPart(before, header, data, w.written);
      }
    }
  }

  /** What is written before the first message that fails is a stream of the messages before it. */
  method EncodeAll(encoder: Encoder, ps: seq<Payload>) returns (done: nat)
    requires encoder.w.written == []
    modifies encoder.w
    ensures done <= |ps|
    ensures done == |ps| ==> encoder.w.written == Stream(ps)
    ensures done == |ps| <==> encoder.w.refused == old(encoder.w.refused)
    ensures done < |ps| ==> Stream(ps[..done]) <= encoder.w.written <= Stream(ps[..done + 1])
  {
    done := 0;
    while done < |ps|
      invariant done <= |ps| && encoder.w.written == Stream(ps[..done]) && encoder.w.refused == old(encoder.w.refused)
    {
      StreamSnoc(ps, done);
      var ok := encoder.Encode(Some(ps[done]));
      if !ok {
        return;
      }
      done := done + 1;
    }
    assert ps[..|ps|] == ps;
  }

  lemma StreamSnoc(ps: seq<Payload>, k: nat)
    requires k < |ps|
    ensures Stream(ps[..k + 1]) == Stream(ps[..k]) + Encoded(ps[k])
  {
    assert ps[..k + 1] == ps[..k] + [ps[k]];
    StreamSplit(ps[..k], [ps[k]]);
    assert Stream([ps[k]]) == Encoded(ps[k]) + Stream([]) == Encoded(ps[k]);
  }

  /** An `io.Reader`: it hands out what is there in chunks of any size. */
  class Reader {
    var rest: seq<byte>
    const broken: bool        // the connection fails instead of ending
    var closed: bool

    constructor (bytes: seq<byte>, broken: bool)
      ensures rest == bytes && this.broken == broken && !closed
    {
      rest, this.broken, closed := bytes, broken, false;
    }

    method Read(max: nat) returns (chunk: seq<byte>)
      requires max > 0
      modifies `rest
      ensures chunk + rest == old(rest) && |chunk| <= max
      ensures chunk == [] ==> old(rest) == []
    {
      var pick: int := *;
      var n := if pick < 1 then 1 else if pick > max then max else pick;
      n := if n > |rest| then |rest| else n;
      chunk, rest := rest[..n], rest[n..];
    }

    /** `io.ReadFull` and `io.CopyN`: up to n bytes, fewer only at the end. */
    method ReadUpTo(n: nat) returns (data: seq<byte>)
      modifies `rest
      ensures data + rest == old(rest)
      ensures |data| == if |old(rest)| < n then |old(rest)| else n
    {
      data := [];
      while |data| < n
        invariant data + rest == old(rest) && |data| <= n
        decreases n - |data|
      {
        var chunk := Read(n - |data|);
        if chunk == [] {
          return;
        }
        assert data + (chunk + rest) == data + chunk + rest;
        data := data + chunk;
      }
    }
  }

  class Decoder {
    const r: Reader
    const readable: seq<byte> -> bool     // what unmarshalling accepts
    var buf: seq<byte>

    constructor (r: Reader, readable: seq<byte> -> bool)
      ensures this.r == r && this.readable == readable
    {
      this.r, this.readable, buf := r, readable, [];
    }

    method Decode() returns (d: Decoded)
      modifies this, r`rest
      ensures d == DecodeOne(old(r.rest), r.broken, readable)
      ensures d.Message? ==> HEADER + |d.p| <= |old(r.rest)| && r.rest == old(r.rest)[HEADER + |d.p|..]
      ensures |r.rest| <= |old(r.rest)|
    {
      hide SizeOf;
      ghost var ahead := r.rest;
      var header := r.ReadUpTo(HEADER);
      if |header| < HEADER {
        assert header == ahead;
        return if header == [] && !r.broken then Eof else HeaderError;
      }
      assert header == ahead[..HEADER] && r.rest == ahead[HEADER..];
      var size := SizeOf(header);
      buf := [];
      // a negative size copies nothing, and then differs from the number of bytes copied
      buf := r.ReadUpTo(if size < 0 then 0 else size);
      if |buf| != size {
        return BodyError;
      }
      assert buf == ahead[HEADER..HEADER + size];
      assert r.rest == ahead[HEADER + size..];
      if !readable(buf) {
        return BadMessage;
      }
      d := Message(buf);
    }
  }

  /** The HTTP client's iterator. */
  class StreamFrameIterator {
    var frame: Option<Payload>
    var err: Option<Decoded>
    const decoder: Decoder

    constructor (decoder: Decoder)
      ensures this.decoder == decoder && frame == None && err == None
    {
      this.decoder, frame, err := decoder, None, None;
    }

    /** Only io.EOF ends the iteration without an error. */
    method Next() returns (more: bool)
      modifies this, decoder, decoder.r
      ensures var d := DecodeOne(old(decoder.r.rest), decoder.r.broken, decoder.readable);
        && (more <==> d.Message?)
        && frame == (if more then Some(d.p) else old(frame))
        && err == (if d.Message? || d.Eof? then old(err) else Some(d))
        && (more ==> HEADER + |d.p| <= |old(decoder.r.rest)| && decoder.r.rest == old(decoder.r.rest)[HEADER + |d.p|..])
        && (decoder.r.closed <==> old(decoder.r.closed) || d.Eof?)
    {
      var d := decoder.Decode();
      if d.Message? {
        frame := Some(d.p);
        return true;
      }
      if d.Eof? {
        decoder.r.closed := true;
        return false;
      }
      err := Some(d);
      more := false;
    }
  }

  /** A client's loop: everything that `Next` gives, and whether the stream ended cleanly. */
  method ReadFrames(it: StreamFrameIterator) returns (ps: seq<Payload>, clean: bool)
    requires it.err == None
    modifies it, it.decoder, it.decoder.r
    ensures ps == DecodeAll(old(it.decoder.r.rest), it.decoder.r.broken, it.decoder.readable).0
    ensures clean <==> DecodeAll(old(it.decoder.r.rest), it.decoder.r.broken, it.decoder.readable).1 == Eof
  {
    hide DecodeOne;
    ps := [];
    var more := true;
    ghost var whole := DecodeAll(it.decoder.r.rest, it.decoder.r.broken, it.decoder.readable);
    assert [] + whole.0 == whole.0;
    while more
      invariant it.err == None || !more
      invariant var ahead := DecodeAll(it.decoder.r.rest, it.decoder.r.broken, it.decoder.readable);
        if more then whole.0 == ps + ahead.0 && whole.1 == ahead.1 && it.err == None
        else whole.0 == ps && (whole.1 == Eof <==> it.err == None)
      decreases more, |it.decoder.r.rest|
    {
      ghost var ahead := DecodeAll(it.decoder.r.rest, it.decoder.r.broken, it.decoder.readable).0;
      more := it.Next();
      if more {
        assert ps + ahead == ps + [it.frame.value] + ahead[1..];
        ps := ps + [it.frame.value];
      } else {
        assert ps + ahead == ps;
      }
    }
    clean := it.err == None;
  }

  /** A client takes a cut stream for a whole one only when nothing but whole messages was cut off. */
  method ReadTruncated(it: StreamFrameIterator, ps: seq<Payload>, n: nat) returns (got: seq<Payload>, clean: bool)
    requires it.err == None && Readable(ps, it.decoder.readable)
    requires n <= |Stream(ps)| && it.decoder.r.rest == Stream(ps)[..n]
    modifies it, it.decoder, it.decoder.r
    ensures got == ps[..CompleteWithin(ps, n)]
    ensures clean <==> n == |Stream(got)| && !it.decoder.r.broken
  {
    hide DecodeAll, Stream, CompleteWithin;
    Truncation(ps, n, it.decoder.r.broken, it.decoder.readable);
    got, clean := ReadFrames(it);
  }
}
