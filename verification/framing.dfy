/** Frames on the byte stream: a two-byte little-endian length, then the encoded message. The message codec is a
    parameter; nothing is assumed of it beyond what each lemma requires. */
module Framing {
  import opened Bytes

  const MAX_FRAME := 4096

  datatype ReadError = ShortHeader | ZeroLength | TooLong | ShortData | BadMessage

  datatype ReadResult<+M> = Frame(m: M) | Failed(error: ReadError)

  type Decoder<!M> = Bytes -> Option<M>
  type Encoder<!M> = M -> Bytes

  /** The length travels as a uint16, so longer encodings wrap around. */
  function Header(n: nat): (h: Bytes)
    ensures |h| == 2 && HeaderLength(h) == n % 65536
  {
    LastDigit(n, 256);
    [n % 256, (n / 256) % 256]
  }

  function HeaderLength(h: Bytes): nat
    requires |h| == 2
  {
    var lo: int, hi: int := h[0], h[1];
    lo + 256 * hi
  }

  function WriteFrame<M>(m: M, encode: Encoder<M>): Bytes {
    Header(|encode(m)|) + encode(m)
  }

  function Min(a: nat, b: nat): nat {
    if a < b then a else b
  }

  /** One frame off the stream `rx`, and what is left of it. A frame announced too long makes the reader throw away up
      to 100 more bytes; `discard` is how many that one read delivered. A stream that ends early is used up. */
  function ReadFrame<M>(rx: Bytes, decode: Decoder<M>, discard: nat): (ReadResult<M>, Bytes) {
    if |rx| < 2 then (Failed(ShortHeader), [])
    else
      var n, rest := HeaderLength(rx[..2]), rx[2..];
      if n == 0 then (Failed(ZeroLength), rest)
      else if n > MAX_FRAME then (Failed(TooLong), rest[Min(discard, Min(100, |rest|))..])
      else if |rest| < n then (Failed(ShortData), [])
      else
        match decode(rest[..n])
        case None => (Failed(BadMessage), rest[n..])
        case Some(m) => (Frame(m), rest[n..])
  }

  function WriteAll<M>(ms: seq<M>, encode: Encoder<M>): Bytes {
    if ms == [] then [] else WriteFrame(ms[0], encode) + WriteAll(ms[1..], encode)
  }

  /** Frames read until the first failure, and the stream as it was when that read began. */
  function ReadAll<M>(rx: Bytes, decode: Decoder<M>): (seq<M>, Bytes)
    decreases |rx|
  {
    match ReadFrame(rx, decode, 0)
    case (Frame(m), rest) => var (ms, end) := ReadAll(rest, decode); ([m] + ms, end)
    case (Failed(_), _) => ([], rx)
  }

  predicate Decodes<M(==)>(m: M, encode: Encoder<M>, decode: Decoder<M>) {
    decode(encode(m)) == Some(m)
  }

  predicate Fits<M>(m: M, encode: Encoder<M>) {
    1 <= |encode(m)| <= MAX_FRAME
  }

  // ----- Round trips -----

  lemma ReadWritten<M>(m: M, more: Bytes, encode: Encoder<M>, decode: Decoder<M>)
    requires Decodes(m, encode, decode) && Fits(m, encode)
    ensures ReadFrame(WriteFrame(m, encode) + more, decode, 0) == (Frame(m), more)
  {
    var rx := WriteFrame(m, encode) + more;
    var n := |encode(m)|;
    assert rx[..2] == Header(n) && rx[2..] == encode(m) + more;
    assert (encode(m) + more)[..n] == encode(m) && (encode(m) + more)[n..] == more;
  }

  /** A message goes through whole, leaving nothing behind, exactly when its encoding has 1 to 4096 bytes. */
  lemma FrameRoundTrip<M>(m: M, encode: Encoder<M>, decode: Decoder<M>)
    requires Decodes(m, encode, decode)
    ensures (forall discard :: ReadFrame(WriteFrame(m, encode), decode, discard) == (Frame(m), [])) <==> Fits(m, encode)
  {
    var rx := WriteFrame(m, encode);
    var n := |encode(m)|;
    assert rx[..2] == Header(n) && rx[2..] == encode(m);
    if Fits(m, encode) {
      assert encode(m)[..n] == encode(m) && encode(m)[n..] == [];
    } else {
      assert ReadFrame(rx, decode, 0) != (Frame(m), []);
    }
  }

  /** Any sequence of such messages is read back exactly, and every byte is used. */
  lemma {:induction false} StreamRoundTrip<M>(ms: seq<M>, encode: Encoder<M>, decode: Decoder<M>)
    requires forall m <- ms :: Decodes(m, encode, decode) && Fits(m, encode)
    ensures ReadAll(WriteAll(ms, encode), decode) == (ms, [])
  {
    if ms != [] {
      ReadWritten(ms[0], WriteAll(ms[1..], encode), encode, decode);
      StreamRoundTrip(ms[1..], encode, decode);
      assert [ms[0]] + ms[1..] == ms;
    }
  }

  /** The stream cut off anywhere yields a prefix of the messages: no message is invented or altered. */
  lemma {:induction false} TruncatedStream<M>(ms: seq<M>, cut: nat, encode: Encoder<M>, decode: Decoder<M>)
    requires forall m <- ms :: Decodes(m, encode, decode) && Fits(m, encode)
    requires cut <= |WriteAll(ms, encode)|
    ensures ReadAll(WriteAll(ms, encode)[..cut], decode).0 <= ms
  {
    if ms != [] {
      var first, rest := WriteFrame(ms[0], encode), WriteAll(ms[1..], encode);
      var rx := (first + rest)[..cut];
      if cut >= |first| {
        assert rx == first + rest[..cut - |first|];
        ReadWritten(ms[0], rest[..cut - |first|], encode, decode);
        TruncatedStream(ms[1..], cut - |first|, encode, decode);
        assert [ms[0]] + ms[1..] == ms;
      } else {
        CutFrameFails(ms[0], cut, encode, decode);
        assert rx == first[..cut];
      }
    }
  }

  lemma CutFrameFails<M>(m: M, cut: nat, encode: Encoder<M>, decode: Decoder<M>)
    requires Fits(m, encode) && cut < |WriteFrame(m, encode)|
    ensures ReadFrame(WriteFrame(m, encode)[..cut], decode, 0).0.Failed?
  {
    var rx := WriteFrame(m, encode)[..cut];
    if cut >= 2 {
      assert rx[..2] == Header(|encode(m)|);
    }
  }

  // ----- Errors -----

  /** A frame that announces length zero, or more than 4096, or more than the stream has left, fails as such whatever
      follows: the first leaves everything after the header, the second throws away what the one recovery read delivers, at
      most 100 bytes, and the third uses the stream up. */
  lemma BadLengths<M>(n: nat, rest: Bytes, decode: Decoder<M>, discard: nat)
    requires n < 65536
    ensures var r := ReadFrame(Header(n) + rest, decode, discard);
      var thrown := if discard <= 100 && discard <= |rest| then discard else if |rest| <= 100 then |rest| else 100;
      && (n == 0 ==> r == (Failed(ZeroLength), rest))
      && (n > 4096 ==> r == (Failed(TooLong), rest[thrown..]))
      && (0 < n <= 4096 && n > |rest| ==> r == (Failed(ShortData), []))
      && (0 < n <= 4096 && n <= |rest| && decode(rest[..n]).None? ==> r == (Failed(BadMessage), rest[n..]))
  {
    var rx := Header(n) + rest;
    assert rx[..2] == Header(n) && rx[2..] == rest;
  }

  /** A stream that ends within a header. */
  lemma CutHeader<M>(rx: Bytes, decode: Decoder<M>, discard: nat)
    requires |rx| < 2
    ensures ReadFrame(rx, decode, discard) == (Failed(ShortHeader), [])
  {
  }

  // ----- The reader and writer -----

  /** One end of the link: the bytes still to read before the stream ends, and the bytes written. */
  class Port {
    var rx: Bytes
    var tx: Bytes

    constructor (rx: Bytes)
      ensures this.rx == rx && tx == []
    {
      this.rx, tx := rx, [];
    }

    method Write(data: Bytes)
      modifies this`tx
      ensures tx == old(tx) + data
    {
      tx := tx + data;
    }

    /** Fills the buffer, or uses up the stream and fails. */
    method ReadFull(buf: array<byte>) returns (ok: bool)
      modifies this`rx, buf
      ensures ok == (buf.Length <= |old(rx)|)
      ensures rx == if ok then old(rx)[buf.Length..] else []
      ensures ok ==> buf[..] == old(rx)[..buf.Length]
    {
      var i := 0;
      while i < buf.Length && rx != []
        invariant 0 <= i <= buf.Length && i <= |old(rx)|
        invariant rx == old(rx)[i..] && buf[..i] == old(rx)[..i]
      {
        buf[i] := rx[0];
        rx := rx[1..];
        i := i + 1;
      }
      ok := i == buf.Length;
    }

    /** One read of at most `max` bytes, thrown away; it may deliver fewer. */
    method Discard(max: nat, available: nat) returns (n: nat)
      modifies this`rx
      ensures n == Min(available, Min(max, |old(rx)|)) && rx == old(rx)[n..]
    {
      n := Min(available, Min(max, |rx|));
      rx := rx[n..];
    }
  }

  class SerialComm<!M> {
    const port: Port
    const encode: Encoder<M>
    const decode: Decoder<M>

    constructor (port: Port, encode: Encoder<M>, decode: Decoder<M>)
      ensures this.port == port && this.encode == encode && this.decode == decode
    {
      this.port, this.encode, this.decode := port, encode, decode;
    }

    /** Two writes, header then data; one writer per link is assumed. */
    method Send(m: M)
      modifies port`tx
      ensures port.tx == old(port.tx) + WriteFrame(m, encode)
    {
      var data := encode(m);
      var header := new byte[2];
      header[0] := |data| % 256;
      header[1] := (|data| / 256) % 256;
      port.Write(header[..]);
      port.Write(data);
      assert header[..] == Header(|data|);
    }

    /** `available` is how many bytes the recovery read of an oversized frame would deliver. */
    method Receive(available: nat) returns (r: ReadResult<M>)
      modifies port`rx
      ensures (r, port.rx) == ReadFrame(old(port.rx), decode, available)
    {
      var header := new byte[2];
      var ok := port.ReadFull(header);
      if !ok {
        return Failed(ShortHeader);
      }
      var length := HeaderLength(header[..]);
      if length == 0 {
        return Failed(ZeroLength);
      }
      if length > MAX_FRAME {
        var n := port.Discard(100, available);
        return Failed(TooLong);
      }
      var data := new byte[length];
      ok := port.ReadFull(data);
      if !ok {
        return Failed(ShortData);
      }
      var m := decode(data[..]);
      return if m.None? then Failed(BadMessage) else Frame(m.value);
    }
  }
}
