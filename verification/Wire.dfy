/** The bytes of a chunk on the wire: a type, the signal, the request, the length of the payload, the payload. */
module Wire {
  import opened TreeModel
  import opened Text
  import opened Chunks

  /** getWireSize: the size of a chunk with its header. */
  function WireSize(chunk: Chunk): nat {
    match chunk
    case NoHeaderChunk => 1
    case SignalChunk(_, _) => 4
    case PayloadChunk(_, _, payload) => HEADER_SIZE + |payload|
  }

  function ToWire(chunk: Chunk): Bytes {
    match chunk
    case NoHeaderChunk => [0 as char]
    case SignalChunk(requestId, signal) =>
      [1 as char, (signal % 0x100) as char] + LittleEndian(requestId % 0x1_0000, 2)
    case PayloadChunk(requestId, signal, payload) =>
      [2 as char, (signal % 0x100) as char] + LittleEndian(requestId % 0x1_0000, 2)
      + LittleEndian(|payload| % 0x1_0000, 2) + payload
  }

  /** The buffer is filled field by field. */
  method ChunkToWire(chunk: Chunk) returns (out: array<char>)
    ensures fresh(out) && out[..] == ToWire(chunk)
  {
    if chunk.NoHeaderChunk? {
      out := new char[1];
      out[0] := 0 as char;
      assert out[..] == [out[0]];
      return;
    }
    if chunk.SignalChunk? {
      var id := LittleEndian(chunk.requestId % 0x1_0000, 2);
      out := new char[4];
      out[0], out[1], out[2], out[3] := 1 as char, (chunk.signal % 0x100) as char, id[0], id[1];
      assert id == [id[0], id[1]];
      assert out[..] == [out[0], out[1], out[2], out[3]];
      return;
    }
    out := PayloadToWire(chunk);
  }

  method PayloadToWire(chunk: Chunk) returns (out: array<char>)
    requires chunk.PayloadChunk?
    ensures fresh(out) && out[..] == ToWire(chunk)
  {
    var id := LittleEndian(chunk.requestId % 0x1_0000, 2);
    var length := LittleEndian(|chunk.payload| % 0x1_0000, 2);
    hide LittleEndian;
    out := new char[6 + |chunk.payload|];
    out[0], out[1], out[2], out[3] := 2 as char, (chunk.signal % 0x100) as char, id[0], id[1];
    out[4], out[5] := length[0], length[1];
    ghost var header := [2 as char, (chunk.signal % 0x100) as char] + id + length;
    assert out[..6] == header;
    for i := 0 to |chunk.payload|
      invariant out[..6] == header && out[6..6 + i] == chunk.payload[..i]
    {
      out[6 + i] := chunk.payload[i];
      assert out[6..6 + i + 1] == out[6..6 + i] + [out[6 + i]];
    }
    assert out[..] == out[..6] + out[6..6 + |chunk.payload|];
  }

  /** None for bytes that are cut short or of no known type. */
  function FromWire(bytes: Bytes): Option<Decoded<Chunk>> {
    if bytes == "" then None
    else if bytes[0] == 0 as char then Some(Decoded(1, NoHeaderChunk))
    else if bytes[0] == 1 as char then
      if |bytes| < 4 then None
      else Some(Decoded(4, SignalChunk(LittleEndianValue(bytes[2..4]), bytes[1] as nat)))
    else if bytes[0] == 2 as char then
      if |bytes| < 6 then None
      else
        var length := LittleEndianValue(bytes[4..6]);
        if |bytes| < 6 + length then None
        else
          Some(Decoded(6 + length,
                       PayloadChunk(LittleEndianValue(bytes[2..4]), bytes[1] as nat, bytes[6..6 + length])))
    else None
  }

  /** The fields fit their places: 8 bits for the signal, 16 for the request and for the length. */
  predicate FitsWire(chunk: Chunk) {
    match chunk
    case NoHeaderChunk => true
    case SignalChunk(requestId, signal) => requestId < 0x1_0000 && signal < 0x100
    case PayloadChunk(requestId, signal, payload) =>
      requestId < 0x1_0000 && signal < 0x100 && |payload| < 0x1_0000
  }

  lemma TwoBytes(n: nat)
    requires n < 0x1_0000
    ensures LittleEndianValue(LittleEndian(n, 2)) == n
  {
    assert Pow256(2) == 256 * (256 * Pow256(0));
    LittleEndianRoundTrip(n, 2);
  }

  /** Where each field lies, and how large the whole is. */
  lemma WireLayout(chunk: Chunk)
    ensures var out := ToWire(chunk);
            && |out| == WireSize(chunk)
            && out[0] as nat == (match chunk case NoHeaderChunk => 0 case SignalChunk(_, _) => 1 case _ => 2)
            && (!chunk.NoHeaderChunk? ==>
                  && out[1] as nat == chunk.signal % 0x100
                  && LittleEndianValue(out[2..4]) == chunk.requestId % 0x1_0000
                  && out[2] as nat + 0x100 * out[3] as nat == chunk.requestId % 0x1_0000)
            && (chunk.PayloadChunk? ==>
                  && LittleEndianValue(out[4..6]) == |chunk.payload| % 0x1_0000
                  && out[4] as nat + 0x100 * out[5] as nat == |chunk.payload| % 0x1_0000
                  && out[6..] == chunk.payload)
  {
    if !chunk.NoHeaderChunk? {
      var out, id := ToWire(chunk), LittleEndian(chunk.requestId % 0x1_0000, 2);
      TwoBytes(chunk.requestId % 0x1_0000);
      TwoByteValue(id);
      assert out[2..4] == id;
      if chunk.PayloadChunk? {
        var length := LittleEndian(|chunk.payload| % 0x1_0000, 2);
        TwoBytes(|chunk.payload| % 0x1_0000);
        TwoByteValue(length);
        assert out[4..6] == length && out[6..] == chunk.payload;
      }
    }
  }

  lemma TwoByteValue(s: Bytes)
    requires |s| == 2
    ensures LittleEndianValue(s) == s[0] as nat + 0x100 * s[1] as nat
  {
    assert s[1..][1..] == "" && LittleEndianValue(s[1..]) == s[1] as nat;
  }

  /** A chunk is read back from the front of any bytes, as it was, exactly when its fields fit. */
  lemma WireRoundTrip(chunk: Chunk, rest: Bytes)
    ensures FromWire(ToWire(chunk) + rest) == Some(Decoded(|ToWire(chunk)|, chunk)) <==> FitsWire(chunk)
  {
    var out := ToWire(chunk);
    var bytes := out + rest;
    WireLayout(chunk);
    hide ToWire, LittleEndian, LittleEndianValue;
    if !chunk.NoHeaderChunk? {
      assert bytes[1] == out[1] && bytes[2..4] == out[2..4];
      if chunk.PayloadChunk? {
        assert bytes[4..6] == out[4..6];
        if FitsWire(chunk) { assert bytes[6..6 + |chunk.payload|] == out[6..]; }
      }
    }
  }

  /** No strict prefix of its bytes is read. */
  lemma WireCut(chunk: Chunk, k: nat)
    requires FitsWire(chunk) && k < |ToWire(chunk)|
    ensures FromWire(ToWire(chunk)[..k]) == None
  {
    var out := ToWire(chunk);
    WireLayout(chunk);
    hide ToWire, LittleEndian, LittleEndianValue;
    if k >= 6 { assert out[..k][4..6] == out[4..6]; }
  }

  /** Two bytes are what is written for their value. */
  lemma TwoBytesWritten(s: Bytes)
    requires |s| == 2 && forall i :: 0 <= i < |s| ==> s[i] < 256 as char
    ensures LittleEndianValue(s) < 0x1_0000 && LittleEndian(LittleEndianValue(s), 2) == s
  {
    TwoByteValue(s);
    hide LittleEndianValue;
    var n := LittleEndianValue(s);
    assert n % 256 == s[0] as nat && n / 256 == s[1] as nat;
    assert LittleEndian(n / 256, 1) == [s[1]];
  }

  /** What is read from the front of any bytes is the chunk whose bytes stand there, if it is there whole. */
  lemma WireExactly(bytes: Bytes, n: nat, chunk: Chunk)
    requires forall i :: 0 <= i < |bytes| ==> bytes[i] < 256 as char
    ensures FromWire(bytes) == Some(Decoded(n, chunk)) <==> FitsWire(chunk) && n <= |bytes| && bytes[..n] == ToWire(chunk)
  {
    if FitsWire(chunk) && n <= |bytes| && bytes[..n] == ToWire(chunk) {
      WireRoundTrip(chunk, bytes[n..]);
      hide ToWire;
      assert bytes == ToWire(chunk) + bytes[n..];
    }
    if FromWire(bytes) == Some(Decoded(n, chunk)) { ReadIsWritten(bytes, n, chunk); }
  }

  lemma SignalParts(bytes: Bytes)
    requires |bytes| >= 4 && bytes[1] < 256 as char && LittleEndian(LittleEndianValue(bytes[2..4]), 2) == bytes[2..4]
    requires LittleEndianValue(bytes[2..4]) < 0x1_0000 && bytes[0] == 1 as char
    ensures bytes[..4] == ToWire(SignalChunk(LittleEndianValue(bytes[2..4]), bytes[1] as nat))
  {
    hide LittleEndian, LittleEndianValue;
    assert bytes[..4] == [bytes[0], bytes[1]] + bytes[2..4];
  }

  lemma PayloadParts(bytes: Bytes, n: nat)
    requires 6 <= n <= |bytes| && bytes[0] == 2 as char && bytes[1] < 256 as char
    requires LittleEndianValue(bytes[2..4]) < 0x1_0000 && LittleEndianValue(bytes[4..6]) == n - 6 < 0x1_0000
    requires LittleEndian(LittleEndianValue(bytes[2..4]), 2) == bytes[2..4]
    requires LittleEndian(LittleEndianValue(bytes[4..6]), 2) == bytes[4..6]
    ensures bytes[..n] == ToWire(PayloadChunk(LittleEndianValue(bytes[2..4]), bytes[1] as nat, bytes[6..n]))
  {
    hide LittleEndian, LittleEndianValue;
    assert bytes[..n] == [bytes[0], bytes[1]] + bytes[2..4] + bytes[4..6] + bytes[6..n];
  }

  lemma ReadIsWritten(bytes: Bytes, n: nat, chunk: Chunk)
    requires forall i :: 0 <= i < |bytes| ==> bytes[i] < 256 as char
    requires FromWire(bytes) == Some(Decoded(n, chunk))
    ensures FitsWire(chunk) && n <= |bytes| && bytes[..n] == ToWire(chunk)
  {
    hide LittleEndian, LittleEndianValue, ToWire;
    if chunk.NoHeaderChunk? {
      assert bytes[..1] == ToWire(chunk) by { NoHeaderParts(bytes); }
    } else {
      TwoBytesWritten(bytes[2..4]);
      if chunk.SignalChunk? {
        SignalParts(bytes);
      } else {
        TwoBytesWritten(bytes[4..6]);
        PayloadParts(bytes, n);
      }
    }
  }

  lemma NoHeaderParts(bytes: Bytes)
    requires bytes != "" && bytes[0] == 0 as char
    ensures bytes[..1] == ToWire(NoHeaderChunk)
  {
  }

  // ---- batches ----

  function WireBytes(chunks: seq<Chunk>): Bytes {
    if chunks == [] then "" else WireBytes(chunks[..|chunks| - 1]) + ToWire(chunks[|chunks| - 1])
  }

  lemma {:induction false} WireAppend(a: seq<Chunk>, b: seq<Chunk>)
    ensures WireBytes(a + b) == WireBytes(a) + WireBytes(b)
    decreases |b|
  {
    hide ToWire;
    if b == [] {
      assert a + b == a;
    } else {
      var c, init, last := a + b, b[..|b| - 1], b[|b| - 1];
      WireAppend(a, init);
      assert c[..|c| - 1] == a + init && c[|c| - 1] == last;
      assert WireBytes(c) == WireBytes(a + init) + ToWire(last) && WireBytes(b) == WireBytes(init) + ToWire(last);
    }
  }

  lemma WireOne(chunk: Chunk)
    ensures WireBytes([chunk]) == ToWire(chunk)
  {
    assert [chunk][..0] == [];
  }

  /** One chunk after the other; None when some bytes are no chunk. */
  function ReadAll(bytes: Bytes): Option<seq<Chunk>>
    decreases |bytes|
  {
    if bytes == "" then Some([])
    else
      var first :- FromWire(bytes);
      if first.count == 0 || first.count > |bytes| then None
      else
        var rest :- ReadAll(bytes[first.count..]);
        Some([first.value] + rest)
  }

  /** A batch of chunks whose fields fit is read back from its bytes. */
  lemma {:induction false} BatchRoundTrip(chunks: seq<Chunk>)
    requires forall i :: 0 <= i < |chunks| ==> FitsWire(chunks[i])
    ensures ReadAll(WireBytes(chunks)) == Some(chunks)
    decreases |chunks|
  {
    if chunks != [] {
      var first, rest := chunks[0], chunks[1..];
      assert chunks == [first] + rest;
      WireAppend([first], rest);
      WireOne(first);
      WireLayout(first);
      WireRoundTrip(first, WireBytes(rest));
      BatchRoundTrip(rest);
      hide ToWire, FromWire;
      assert (ToWire(first) + WireBytes(rest))[|ToWire(first)|..] == WireBytes(rest);
    }
  }

  /** What an encoder produces fits the wire, a datagram to each chunk. */
  lemma HeadedFits(chunks: seq<Chunk>, h: Header)
    requires Headed(chunks, h)
    ensures forall i :: 0 <= i < |chunks| ==> FitsWire(chunks[i]) && |ToWire(chunks[i])| <= 1200
  {
    forall i | 0 <= i < |chunks| ensures |ToWire(chunks[i])| <= 1200 { WireLayout(chunks[i]); }
  }
}
