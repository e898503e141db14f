/**
 DNS over TCP (section 4.2.2 of RFC 1035): a two-byte length in front of every
 message, read back from a stream that arrives in arbitrary pieces.
 */
module TcpFraming {
  import opened Names
  import opened Bytes

  datatype FrameError = TooLarge | TooShort | Closed
  datatype ReadResult = Packet(bytes: seq<Byte>) | Fail(error: FrameError)

  function Frame(packet: seq<Byte>): seq<Byte>
    requires |packet| < UINT16
  {
    [High(|packet|), Low(|packet|)] + packet
  }

  /** The shift in place of `PrefixWithSize`. */
  method PrefixWithSize(packet: seq<Byte>) returns (framed: Option<seq<Byte>>)
    ensures framed.Some? <==> |packet| < UINT16
    ensures framed.Some? ==> framed.value == Frame(packet)
  {
    var n := |packet|;
    if n > 0xffff { return None; }
    var grown := packet + [0] + [0];
    var buf := new Byte[n + 2](i requires 0 <= i < |grown| => grown[i]);
    forall i | 0 <= i < n {
      buf[i + 2] := buf[i];
    }
    buf[0], buf[1] := High(buf.Length - 2), Low(buf.Length - 2);
    assert buf[..] == Frame(packet);
    return Some(buf[..]);
  }

  // --- The stream ---

  function Flatten(chunks: seq<seq<Byte>>): seq<Byte> {
    if chunks == [] then [] else chunks[0] + Flatten(chunks[1..])
  }

  predicate NonEmpty(chunks: seq<seq<Byte>>) {
    forall i :: 0 <= i < |chunks| ==> chunks[i] != []
  }

  /** A connection: what the network will deliver, piece by piece, before it closes. */
  class Conn {
    var pending: seq<seq<Byte>>

    constructor (chunks: seq<seq<Byte>>)
      ensures pending == chunks
    {
      pending := chunks;
    }

    /** One read into `buf[pos..]`: some prefix of the stream, or the end of the stream. */
    method Read(buf: array<Byte>, pos: nat) returns (n: nat, ok: bool)
      requires NonEmpty(pending) && pos < buf.Length
      modifies this, buf
      ensures NonEmpty(pending)
      ensures ok <==> old(pending) != []
      ensures ok ==> 0 < n && pos + n <= buf.Length
      ensures ok ==> old(Flatten(pending)) == buf[pos..pos + n] + Flatten(pending)
      ensures !ok ==> n == 0 && pending == old(pending)
      ensures buf[..pos] == old(buf[..pos])
    {
      if pending == [] { return 0, false; }
      var chunk := pending[0];
      n := Min(|chunk|, buf.Length - pos);
      forall i | 0 <= i < n {
        buf[pos + i] := chunk[i];
      }
      assert buf[pos..pos + n] == chunk[..n];
      ghost var rest := pending[1..];
      if n == |chunk| {
        pending := pending[1..];
      } else {
        pending := [chunk[n..]] + pending[1..];
        assert pending[1..] == rest;
      }
      assert chunk == chunk[..n] + chunk[n..];
      ok := true;
    }
  }

  /** What a reader makes of the whole stream, without reference to the pieces. */
  function Parse(stream: seq<Byte>): ReadResult {
    if |stream| < 2 then Fail(Closed)
    else
      var n := BigEndian16(stream[0], stream[1]);
      if n > MAX_DNS_PACKET_SIZE - 1 then Fail(TooLarge)
      else if n < MIN_DNS_PACKET_SIZE then Fail(TooShort)
      else if |stream| < 2 + n then Fail(Closed)
      else Packet(stream[2..2 + n])
  }

  /** Whether the length field of a prefix is there and acceptable. */
  predicate LengthOk(got: seq<Byte>) {
    |got| >= 2 && MIN_DNS_PACKET_SIZE <= BigEndian16(got[0], got[1]) <= MAX_DNS_PACKET_SIZE - 1
  }

  /** What the bytes received so far already settle about the whole stream. */
  lemma PrefixSettles(got: seq<Byte>, rest: seq<Byte>)
    ensures |got| >= 2 && !LengthOk(got) ==>
              Parse(got + rest) ==
              Fail(if BigEndian16(got[0], got[1]) < MIN_DNS_PACKET_SIZE then TooShort else TooLarge)
    ensures LengthOk(got) && |got| >= 2 + BigEndian16(got[0], got[1]) ==>
              Parse(got + rest) == Packet(got[2..2 + BigEndian16(got[0], got[1])])
    ensures |got| < 2 || (LengthOk(got) && |got| < 2 + BigEndian16(got[0], got[1])) ==> Parse(got) == Fail(Closed)
  {
    var stream := got + rest;
    if |got| >= 2 {
      assert stream[0] == got[0] && stream[1] == got[1];
      var n := BigEndian16(got[0], got[1]);
      if LengthOk(got) && |got| >= 2 + n { assert stream[2..2 + n] == got[2..2 + n]; }
    }
  }

  /** One more read: the buffer holds a longer prefix of the stream, or the whole of it. */
  method ReadMore(conn: Conn, buf: array<Byte>, pos: nat, ghost stream: seq<Byte>) returns (next: nat, ok: bool)
    requires NonEmpty(conn.pending) && pos < buf.Length
    requires buf[..pos] + Flatten(conn.pending) == stream
    modifies conn, buf
    ensures NonEmpty(conn.pending) && pos <= next <= buf.Length
    ensures ok ==> pos < next
    ensures !ok ==> next == pos && buf[..pos] == stream
    ensures buf[..pos] == old(buf[..pos])
    ensures buf[..next] + Flatten(conn.pending) == stream
  {
    ghost var before := buf[..pos];
    var n;
    n, ok := conn.Read(buf, pos);
    next := pos + n;
    assert buf[..next] == before + buf[pos..next];
    if !ok {
      assert buf[..pos] + Flatten(conn.pending) == buf[..pos];
    }
  }

  /** However the stream is cut, the outcome depends on its bytes alone. */
  method ReadPrefixed(conn: Conn) returns (r: ReadResult)
    requires NonEmpty(conn.pending)
    modifies conn
    ensures r == Parse(old(Flatten(conn.pending)))
  {
    var buf := new Byte[2 + MAX_DNS_PACKET_SIZE](_ => 0);
    var packetLength: int, pos := -1, 0;
    ghost var stream := Flatten(conn.pending);
    assert buf[..0] + Flatten(conn.pending) == stream;
    while true
      invariant fresh(buf) && buf.Length == 2 + MAX_DNS_PACKET_SIZE
      invariant 0 <= pos < buf.Length
      invariant NonEmpty(conn.pending)
      invariant buf[..pos] + Flatten(conn.pending) == stream
      invariant packetLength < 0 <==> pos < 2
      invariant packetLength >= 0 ==>
                  LengthOk(buf[..pos]) && packetLength == BigEndian16(buf[0], buf[1]) && pos < 2 + packetLength
      decreases buf.Length - pos
    {
      PrefixSettles(buf[..pos], []);
      ghost var first := buf[..pos];
      var ok;
      pos, ok := ReadMore(conn, buf, pos, stream);
      ghost var got := buf[..pos];
      if !ok { return Fail(Closed); }
      assert first == got[..|first|];
      PrefixSettles(got, Flatten(conn.pending));
      assert pos >= 2 ==> got[0] == buf[0] && got[1] == buf[1];
      if pos >= 2 && packetLength < 0 {
        packetLength := BigEndian16(buf[0], buf[1]);
        if packetLength > MAX_DNS_PACKET_SIZE - 1 { return Fail(TooLarge); }
        if packetLength < MIN_DNS_PACKET_SIZE { return Fail(TooShort); }
      }
      if packetLength >= 0 && pos >= 2 + packetLength {
        assert buf[2..2 + packetLength] == got[2..2 + packetLength];
        return Packet(buf[2..2 + packetLength]);
      }
    }
  }

  /** Reading undoes framing, with or without trailing bytes, exactly for the packet sizes accepted. */
  lemma ParseUndoesFrame(packet: seq<Byte>, trailing: seq<Byte>)
    requires |packet| < UINT16
    ensures Parse(Frame(packet) + trailing) == Packet(packet) <==>
            MIN_DNS_PACKET_SIZE <= |packet| <= MAX_DNS_PACKET_SIZE - 1
    ensures |packet| >= MAX_DNS_PACKET_SIZE ==> Parse(Frame(packet) + trailing) == Fail(TooLarge)
    ensures |packet| < MIN_DNS_PACKET_SIZE ==> Parse(Frame(packet) + trailing) == Fail(TooShort)
  {
    var stream := Frame(packet) + trailing;
    BigEndian16RoundTrip(|packet|);
    assert stream[0] == High(|packet|) && stream[1] == Low(|packet|);
    assert stream[2..2 + |packet|] == packet;
  }

  /** A truncated frame is never mistaken for a packet. */
  lemma TruncatedFrameFails(packet: seq<Byte>, cut: nat)
    requires MIN_DNS_PACKET_SIZE <= |packet| <= MAX_DNS_PACKET_SIZE - 1
    requires cut < |Frame(packet)|
    ensures Parse(Frame(packet)[..cut]) == Fail(Closed)
  {
    BigEndian16RoundTrip(|packet|);
  }

  /** Both ends of a connection, through the code. */
  method SendAndReceive(packet: seq<Byte>, trailing: seq<Byte>, chunks: seq<seq<Byte>>) returns (r: ReadResult)
    requires MIN_DNS_PACKET_SIZE <= |packet| <= MAX_DNS_PACKET_SIZE - 1
    requires NonEmpty(chunks) && Flatten(chunks) == Frame(packet) + trailing
    ensures r == Packet(packet)
  {
    var framed := PrefixWithSize(packet);
    assert framed.value + trailing == Flatten(chunks);
    var conn := new Conn(chunks);
    ParseUndoesFrame(packet, trailing);
    r := ReadPrefixed(conn);
  }
}
