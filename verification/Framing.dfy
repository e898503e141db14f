/**
 DNSCrypt message sizes: padding, the question-size estimator, and the exact
 length of what is sent. The authenticated cipher is a parameter.
 */
module Framing {
  import opened Names
  import opened Bytes
  import opened TcpFraming

  const CLIENT_MAGIC_LEN: nat := 8
  const PUBLIC_KEY_SIZE: nat := 32
  const NONCE_SIZE: nat := 24
  const HALF_NONCE_SIZE: nat := 12
  const TAG_SIZE: nat := 16
  const QUERY_OVERHEAD: nat := CLIENT_MAGIC_LEN + PUBLIC_KEY_SIZE + HALF_NONCE_SIZE + TAG_SIZE
  const SERVER_MAGIC: seq<Byte> := [0x72, 0x36, 0x66, 0x6e, 0x76, 0x57, 0x6a, 0x38]
  const RESPONSE_HEADER: nat := 8 + NONCE_SIZE
  const MAX_DNS_UDP_PACKET_SIZE: nat := 4096
  const MAX_DNS_UDP_SAFE_PACKET_SIZE: nat := 1252
  const INITIAL_MIN_QUESTION_SIZE: nat := 512

  // --- Padding ---

  function Zeros(n: nat): (z: seq<Byte>)
    ensures |z| == n
  {
    seq(n, _ => 0)
  }

  function Padded(packet: seq<Byte>, minSize: int): (r: seq<Byte>)
    ensures |r| == Max(|packet| + 1, minSize)
  {
    packet + [0x80] + Zeros(Max(0, minSize - |packet| - 1))
  }

  method Pad(packet: seq<Byte>, minSize: int) returns (r: seq<Byte>)
    ensures r == Padded(packet, minSize)
  {
    r := packet + [0x80];
    var n := 0;
    while |r| < minSize
      invariant r == packet + [0x80] + Zeros(n)
      invariant n <= Max(0, minSize - |packet| - 1)
    {
      r := r + [0];
      n := n + 1;
    }
  }

  /** The marker sits at `i`: 0x80 there, zeros to the end. */
  predicate MarkerAt(s: seq<Byte>, i: nat) {
    i < |s| && s[i] == 0x80 && forall k :: i < k < |s| ==> s[k] == 0
  }

  method Unpad(s: seq<Byte>) returns (r: Option<seq<Byte>>)
    ensures r.Some? <==> exists i :: MarkerAt(s, i)
    ensures r.Some? ==> MarkerAt(s, |r.value|) && r.value == s[..|r.value|]
  {
    var i := |s|;
    while true
      invariant 0 <= i <= |s|
      invariant forall k :: i <= k < |s| ==> s[k] == 0
      decreases i
    {
      if i == 0 { return None; }
      i := i - 1;
      if s[i] == 0x80 {
        assert MarkerAt(s, i);
        return Some(s[..i]);
      } else if s[i] != 0 {
        return None;
      }
    }
  }

  /** Removing padding is the inverse of adding it, on every byte string: a marker at `|p|` in
      front of zeros is what padding `p` produces, and nothing else is accepted. */
  lemma PaddedIffMarker(s: seq<Byte>, p: seq<Byte>)
    ensures MarkerAt(s, |p|) && s[..|p|] == p <==> |p| < |s| && s == Padded(p, |s|)
  {
    if MarkerAt(s, |p|) && s[..|p|] == p {
      assert s == Padded(p, |s|);
    }
  }

  lemma MarkerUnique(s: seq<Byte>, i: nat, j: nat)
    requires MarkerAt(s, i) && MarkerAt(s, j)
    ensures i == j
  {
  }

  method PadThenUnpad(packet: seq<Byte>, minSize: int) returns (r: Option<seq<Byte>>)
    ensures r == Some(packet)
  {
    var s := Pad(packet, minSize);
    assert s == Padded(packet, |s|);
    PaddedIffMarker(s, packet);
    r := Unpad(s);
    MarkerUnique(s, |packet|, |r.value|);
  }

  // --- The question-size estimator ---

  /** Decay of the plain moving average, 2 / (30 + 1). */
  const DECAY: real := 2.0 / 31.0

  function Average(value: real, sample: real): real {
    if value == 0.0 then sample else sample * DECAY + value * (1.0 - DECAY)
  }

  /** Conversion of a float to an integer, toward zero. */
  function Truncate(x: real): int { if x >= 0.0 then x.Floor else -((-x).Floor) }

  datatype Estimate = Estimate(size: int, average: real)

  datatype Feedback = TruncatedResponse | ResponseOfSize(n: int)

  function Adjusted(e: Estimate, f: Feedback): Estimate {
    match f
    case TruncatedResponse =>
      var size := if MAX_DNS_UDP_PACKET_SIZE - e.size < e.size then MAX_DNS_UDP_PACKET_SIZE else e.size * 2;
      Estimate(size, size as real)
    case ResponseOfSize(n) =>
      var average := Average(e.average, n as real);
      var ma := Truncate(average);
      if ma > INITIAL_MIN_QUESTION_SIZE && ma < e.size / 2
      then Estimate(Max(INITIAL_MIN_QUESTION_SIZE, e.size / 2), average)
      else Estimate(e.size, average)
  }

  function AfterAll(feedback: seq<Feedback>): Estimate {
    if feedback == [] then Estimate(INITIAL_MIN_QUESTION_SIZE, 0.0)
    else Adjusted(AfterAll(feedback[..|feedback| - 1]), feedback[|feedback| - 1])
  }

  predicate LegalSize(n: int) { n == 512 || n == 1024 || n == 2048 || n == 4096 }

  class QuestionSizeEstimator {
    var minQuestionSize: int
    var ewma: real

    function Value(): Estimate
      reads this
    {
      Estimate(minQuestionSize, ewma)
    }

    constructor ()
      ensures Value() == AfterAll([])
    {
      minQuestionSize, ewma := INITIAL_MIN_QUESTION_SIZE, 0.0;
    }

    method BlindAdjust()
      modifies this
      ensures Value() == Adjusted(old(Value()), TruncatedResponse)
    {
      if MAX_DNS_UDP_PACKET_SIZE - minQuestionSize < minQuestionSize {
        minQuestionSize := MAX_DNS_UDP_PACKET_SIZE;
      } else {
        minQuestionSize := minQuestionSize * 2;
      }
      ewma := minQuestionSize as real;
    }

    method Adjust(packetSize: int)
      modifies this
      ensures Value() == Adjusted(old(Value()), ResponseOfSize(packetSize))
    {
      ewma := Average(ewma, packetSize as real);
      var ma := Truncate(ewma);
      if ma > INITIAL_MIN_QUESTION_SIZE && ma < minQuestionSize / 2 {
        minQuestionSize := Max(INITIAL_MIN_QUESTION_SIZE, minQuestionSize / 2);
      }
    }
  }

  /** Over every run the estimate is one of four sizes; it starts at 512 and, once a truncated
      response has raised it, never returns there. */
  lemma {:induction false} EstimateStaysLegal(feedback: seq<Feedback>)
    ensures LegalSize(AfterAll(feedback).size)
    ensures AfterAll(feedback).size == 512 <==> TruncatedResponse !in feedback
  {
    if feedback != [] {
      var init, last := feedback[..|feedback| - 1], feedback[|feedback| - 1];
      EstimateStaysLegal(init);
      assert feedback == init + [last];
    }
  }

  /** What a response does to the estimate: a truncated one doubles it, up to 4096, and restarts the average
      there; another moves the average by two thirty-firsts of the distance to its size, and halves the
      estimate exactly if the whole part of the average lies between 512 and half of it. */
  lemma AdjustedMeans(e: Estimate, n: int, whole: int)
    requires LegalSize(e.size) && e.average >= 0.0 && n >= 0
    ensures Adjusted(e, TruncatedResponse) ==
            if e.size == 4096 then Estimate(4096, 4096.0) else Estimate(2 * e.size, 2.0 * e.size as real)
    ensures Adjusted(e, ResponseOfSize(n)).average ==
            if e.average == 0.0 then n as real else e.average + (n as real - e.average) * 2.0 / 31.0
    ensures var a := Adjusted(e, ResponseOfSize(n));
            whole as real <= a.average < whole as real + 1.0 ==>
              (a.size != e.size <==> 512 < whole < e.size / 2) && (a.size != e.size ==> 2 * a.size == e.size)
  {
    AverageMoves(e.average, n as real);
    WholePart(Adjusted(e, ResponseOfSize(n)).average, whole);
  }

  lemma AverageMoves(value: real, sample: real)
    ensures Average(value, sample) == if value == 0.0 then sample else value + (sample - value) * 2.0 / 31.0
  {
  }

  lemma WholePart(x: real, whole: int)
    requires x >= 0.0
    ensures whole as real <= x < whole as real + 1.0 ==> Truncate(x) == whole
  {
  }

  // --- Sizes on the wire ---

  datatype Proto = Udp | Tcp

  /** What the size depends on besides the packet: the estimate for UDP, a random byte for TCP. */
  datatype Route = Route(fragmentsBlocked: bool, relay: bool)

  /** `n & ^63` for non-negative `n`. */
  function RoundDown64(n: int): int { n / 64 * 64 }

  function PaddedLength(len: nat, proto: Proto, route: Route, estimate: int, xpad: Byte): int {
    var minQuestionSize := if proto.Udp? then Max(estimate, QUERY_OVERHEAD + len) else QUERY_OVERHEAD + len + xpad;
    if route.fragmentsBlocked && proto.Udp? then MAX_DNS_UDP_SAFE_PACKET_SIZE
    else if route.relay && proto.Tcp? then MAX_DNS_PACKET_SIZE
    else Min(MAX_DNS_UDP_PACKET_SIZE, RoundDown64(Max(minQuestionSize, QUERY_OVERHEAD) + 1 + 63))
  }

  /** Largest packet that can be encrypted. */
  function Capacity(proto: Proto, route: Route): nat {
    if proto.Udp? && route.fragmentsBlocked then 1183 else 4027
  }

  datatype Cipher = Cipher(
    seal: (seq<Byte>, seq<Byte>) -> seq<Byte>,
    open: (seq<Byte>, seq<Byte>) -> Option<seq<Byte>>)

  /** What is assumed of the cipher: a tag of fixed size, and opening undoes sealing. */
  ghost predicate Sound(c: Cipher) {
    forall nonce, m :: |c.seal(nonce, m)| == |m| + TAG_SIZE && c.open(nonce, c.seal(nonce, m)) == Some(m)
  }

  /** The size chosen depends on the packet, and always leaves room for the marker if it fits at all. */
  lemma PaddedLengthFits(len: nat, proto: Proto, route: Route, estimate: int, xpad: Byte)
    requires LegalSize(estimate)
    ensures var n := PaddedLength(len, proto, route, estimate, xpad);
            && (QUERY_OVERHEAD + len + 1 <= n <==> len <= Capacity(proto, route))
            && n <= 4096
            && (proto.Udp? && route.fragmentsBlocked ==> n == 1252)
            && (!(proto.Udp? && route.fragmentsBlocked) ==> n % 64 == 0)
            && (proto.Udp? && !route.fragmentsBlocked ==> n >= estimate)
  {
  }

  /** The size chosen: 1252 where fragments are blocked, 4096 for a relay over TCP, and otherwise the least
      multiple of 64 above the message and its random padding or the estimate, at most 4096. */
  lemma PaddedLengthIsLeast(len: nat, proto: Proto, route: Route, estimate: int, xpad: Byte)
    requires LegalSize(estimate)
    ensures var n := PaddedLength(len, proto, route, estimate, xpad);
            && (proto.Udp? && route.fragmentsBlocked ==> n == 1252)
            && (proto.Tcp? && route.relay ==> n == 4096)
            && (!(proto.Udp? && route.fragmentsBlocked) && !(proto.Tcp? && route.relay) ==>
                  && n % 64 == 0 && n <= 4096
                  && (proto.Tcp? ==> (n < 4096 ==> n > 68 + len + xpad) && n - 64 <= 68 + len + xpad)
                  && (proto.Udp? ==> (n < 4096 ==> n > 68 + len && n > estimate) &&
                                     (n - 64 <= 68 + len || n - 64 <= estimate)))
  {
  }

  /** The message: magic, public key, half nonce, box. Fails exactly above the capacity, and is
      otherwise as long as the chosen size. */
  method Encrypt(packet: seq<Byte>, proto: Proto, route: Route, estimate: int, xpad: Byte,
                 magic: seq<Byte>, publicKey: seq<Byte>, clientNonce: seq<Byte>, cipher: Cipher)
    returns (encrypted: Option<seq<Byte>>)
    requires Sound(cipher) && LegalSize(estimate)
    requires |magic| == CLIENT_MAGIC_LEN && |publicKey| == PUBLIC_KEY_SIZE && |clientNonce| == HALF_NONCE_SIZE
    ensures encrypted.Some? <==> |packet| <= Capacity(proto, route)
    ensures encrypted.Some? ==> |encrypted.value| == PaddedLength(|packet|, proto, route, estimate, xpad)
    ensures encrypted.Some? ==> ServerReads(encrypted.value, magic, publicKey, clientNonce, cipher, packet)
  {
    var nonce := clientNonce + Zeros(HALF_NONCE_SIZE);
    var minQuestionSize := QUERY_OVERHEAD + |packet|;
    if proto.Udp? {
      minQuestionSize := Max(estimate, minQuestionSize);
    } else {
      minQuestionSize := minQuestionSize + xpad;
    }
    var paddedLength := Min(MAX_DNS_UDP_PACKET_SIZE, RoundDown64(Max(minQuestionSize, QUERY_OVERHEAD) + 1 + 63));
    if route.fragmentsBlocked && proto.Udp? {
      paddedLength := MAX_DNS_UDP_SAFE_PACKET_SIZE;
    } else if route.relay && proto.Tcp? {
      paddedLength := MAX_DNS_PACKET_SIZE;
    }
    PaddedLengthFits(|packet|, proto, route, estimate, xpad);
    if QUERY_OVERHEAD + |packet| + 1 > paddedLength { return None; }
    var header := magic + publicKey + nonce[..HALF_NONCE_SIZE];
    var padded := Pad(packet, paddedLength - QUERY_OVERHEAD);
    var message := header + cipher.seal(nonce, padded);
    assert nonce[..HALF_NONCE_SIZE] == clientNonce;
    assert message[..CLIENT_MAGIC_LEN] == magic;
    assert message[CLIENT_MAGIC_LEN..CLIENT_MAGIC_LEN + PUBLIC_KEY_SIZE] == publicKey;
    assert message[CLIENT_MAGIC_LEN + PUBLIC_KEY_SIZE..QUERY_OVERHEAD - TAG_SIZE] == clientNonce;
    assert message[QUERY_OVERHEAD - TAG_SIZE..] == cipher.seal(nonce, padded);
    assert padded == Padded(packet, |padded|);
    PaddedIffMarker(padded, packet);
    return Some(message);
  }

  /** A server that parses the message field by field recovers exactly `packet`. */
  ghost predicate ServerReads(message: seq<Byte>, magic: seq<Byte>, publicKey: seq<Byte>, clientNonce: seq<Byte>,
                              cipher: Cipher, packet: seq<Byte>) {
    && |message| >= QUERY_OVERHEAD
    && message[..CLIENT_MAGIC_LEN] == magic
    && message[CLIENT_MAGIC_LEN..CLIENT_MAGIC_LEN + PUBLIC_KEY_SIZE] == publicKey
    && message[CLIENT_MAGIC_LEN + PUBLIC_KEY_SIZE..QUERY_OVERHEAD - TAG_SIZE] == clientNonce
    && var plain := cipher.open(clientNonce + Zeros(HALF_NONCE_SIZE), message[QUERY_OVERHEAD - TAG_SIZE..]);
       plain.Some? && MarkerAt(plain.value, |packet|) && plain.value[..|packet|] == packet
  }

  /** Encrypt for UDP, and again for TCP if that failed. */
  method EncryptWithFallback(packet: seq<Byte>, proto: Proto, route: Route, estimate: int, xpad: Byte,
                             magic: seq<Byte>, publicKey: seq<Byte>, nonce1: seq<Byte>, nonce2: seq<Byte>,
                             cipher: Cipher)
    returns (encrypted: Option<seq<Byte>>, used: Proto)
    requires Sound(cipher) && LegalSize(estimate)
    requires |magic| == CLIENT_MAGIC_LEN && |publicKey| == PUBLIC_KEY_SIZE
    requires |nonce1| == HALF_NONCE_SIZE && |nonce2| == HALF_NONCE_SIZE
    ensures encrypted.Some? <==> |packet| <= 4027
    ensures used == if proto.Udp? && |packet| > Capacity(Udp, route) then Tcp else proto
    ensures encrypted.Some? ==>
              && |encrypted.value| == PaddedLength(|packet|, used, route, estimate, xpad)
              && ServerReads(encrypted.value, magic, publicKey, if used == proto then nonce1 else nonce2, cipher,
                             packet)
  {
    used := proto;
    encrypted := Encrypt(packet, used, route, estimate, xpad, magic, publicKey, nonce1, cipher);
    if encrypted.None? && used.Udp? {
      used := Tcp;
      encrypted := Encrypt(packet, used, route, estimate, xpad, magic, publicKey, nonce2, cipher);
    }
  }

  // --- Queries over TCP ---

  const RELAY_MAGIC: seq<Byte> := [0xff, 0xff, 0xff, 0xff, 0xff, 0xff, 0xff, 0xff, 0x00, 0x00]

  datatype Address = Address(ip: seq<Byte>, port: int)

  predicate ValidAddress(a: Address) { |a.ip| == 16 && 0 <= a.port < UINT16 }

  method PrepareForRelay(to: Address, query: seq<Byte>) returns (relayed: seq<Byte>)
    requires ValidAddress(to)
    ensures RelayReads(relayed, to, query)
    ensures |relayed| == 28 + |query|
  {
    relayed := RELAY_MAGIC + to.ip;
    relayed := relayed + [High(to.port), Low(to.port)];
    relayed := relayed + query;
    assert relayed[..10] == RELAY_MAGIC && relayed[10..26] == to.ip && relayed[28..] == query;
  }

  /** A relay that parses the message finds the destination and forwards exactly `query`. */
  predicate RelayReads(message: seq<Byte>, to: Address, query: seq<Byte>) {
    && |message| >= 28
    && message[..10] == RELAY_MAGIC && message[10..26] == to.ip
    && BigEndian16(message[26], message[27]) == to.port
    && message[28..] == query
  }

  /** The bytes on the way to a relay, in their order. */
  lemma RelayedLayout(message: seq<Byte>, to: Address, query: seq<Byte>)
    requires ValidAddress(to) && RelayReads(message, to, query)
    ensures message == [255, 255, 255, 255, 255, 255, 255, 255, 0, 0] + to.ip + [to.port / 256, to.port % 256] + query
  {
    assert message == message[..10] + message[10..26] + [message[26], message[27]] + message[28..];
  }

  /** The bytes of an encrypted query, in their order. */
  lemma QueryLayout(message: seq<Byte>, magic: seq<Byte>, publicKey: seq<Byte>, clientNonce: seq<Byte>, cipher: Cipher,
                    packet: seq<Byte>)
    requires |magic| == 8 && |publicKey| == 32 && |clientNonce| == 12
    requires ServerReads(message, magic, publicKey, clientNonce, cipher, packet)
    ensures message[..52] == magic + publicKey + clientNonce
    ensures var plain := cipher.open(clientNonce + seq(12, _ => 0), message[52..]);
            plain.Some? && |plain.value| > |packet| && plain.value[..|packet|] == packet && plain.value[|packet|] == 128
  {
    assert message[..52] == message[..8] + message[8..40] + message[40..52];
    assert Zeros(12) == seq(12, _ => 0);
  }

  lemma EncryptedFitsTcpFrame(len: nat, route: Route, estimate: int, xpad: Byte)
    requires LegalSize(estimate) && len <= 4027
    ensures PaddedLength(len, Tcp, route, estimate, xpad) + 28 < UINT16
  {
    PaddedLengthFits(len, Tcp, route, estimate, xpad);
  }

  /** A query on a TCP connection: encrypted, behind the relay header if there is a relay, behind its
      length. Framing never fails on what was encrypted; the length, the relay header and the message
      are read back one after the other. */
  method QueryOverTcp(packet: seq<Byte>, fragmentsBlocked: bool, relayTo: Option<Address>, estimate: int, xpad: Byte,
                      magic: seq<Byte>, publicKey: seq<Byte>, clientNonce: seq<Byte>, cipher: Cipher)
    returns (wire: Option<seq<Byte>>, ghost encrypted: seq<Byte>)
    requires Sound(cipher) && LegalSize(estimate) && (relayTo.Some? ==> ValidAddress(relayTo.value))
    requires |magic| == CLIENT_MAGIC_LEN && |publicKey| == PUBLIC_KEY_SIZE && |clientNonce| == HALF_NONCE_SIZE
    ensures wire.Some? <==> |packet| <= 4027
    ensures wire.Some? ==>
              && |wire.value| >= 2 && BigEndian16(wire.value[0], wire.value[1]) == |wire.value| - 2
              && (if relayTo.Some? then RelayReads(wire.value[2..], relayTo.value, encrypted)
                  else wire.value[2..] == encrypted)
              && ServerReads(encrypted, magic, publicKey, clientNonce, cipher, packet)
  {
    var route := Route(fragmentsBlocked, relayTo.Some?);
    var e := Encrypt(packet, Tcp, route, estimate, xpad, magic, publicKey, clientNonce, cipher);
    if e.None? { return None, []; }
    EncryptedFitsTcpFrame(|packet|, route, estimate, xpad);
    var message := e.value;
    if relayTo.Some? {
      message := PrepareForRelay(relayTo.value, message);
    }
    wire := PrefixWithSize(message);
    assert wire.value[2..] == message;
    return wire, e.value;
  }

  // --- Responses ---

  method Decrypt(encrypted: seq<Byte>, clientNonce: seq<Byte>, cipher: Cipher) returns (r: Option<seq<Byte>>)
    requires |clientNonce| == HALF_NONCE_SIZE
    ensures r.Some? ==> Accepts(encrypted, clientNonce, cipher, r.value)
    ensures r.None? ==> forall p :: !Accepts(encrypted, clientNonce, cipher, p)
  {
    if |encrypted| < RESPONSE_HEADER + TAG_SIZE + MIN_DNS_PACKET_SIZE ||
       |encrypted| > RESPONSE_HEADER + TAG_SIZE + MAX_DNS_PACKET_SIZE ||
       encrypted[..8] != SERVER_MAGIC {
      return None;
    }
    var serverNonce := encrypted[8..RESPONSE_HEADER];
    assert serverNonce[..HALF_NONCE_SIZE] == encrypted[8..8 + HALF_NONCE_SIZE];
    assert clientNonce[..HALF_NONCE_SIZE] == clientNonce;
    if clientNonce[..HALF_NONCE_SIZE] != serverNonce[..HALF_NONCE_SIZE] { return None; }
    var plain := cipher.open(serverNonce, encrypted[RESPONSE_HEADER..]);
    if plain.None? { return None; }
    var packet := Unpad(plain.value);
    if packet.None? {
      return None;
    }
    forall p | MarkerAt(plain.value, |p|) && plain.value[..|p|] == p ensures p == packet.value {
      MarkerUnique(plain.value, |p|, |packet.value|);
    }
    if |packet.value| < MIN_DNS_PACKET_SIZE { return None; }
    return packet;
  }

  /** A response of this query that carries `packet`. */
  predicate Accepts(encrypted: seq<Byte>, clientNonce: seq<Byte>, cipher: Cipher, packet: seq<Byte>) {
    && RESPONSE_HEADER + TAG_SIZE + MIN_DNS_PACKET_SIZE <= |encrypted|
    && |encrypted| <= RESPONSE_HEADER + TAG_SIZE + MAX_DNS_PACKET_SIZE
    && encrypted[..8] == SERVER_MAGIC
    && encrypted[8..8 + HALF_NONCE_SIZE] == clientNonce
    && |packet| >= MIN_DNS_PACKET_SIZE
    && var plain := cipher.open(encrypted[8..RESPONSE_HEADER], encrypted[RESPONSE_HEADER..]);
       plain.Some? && MarkerAt(plain.value, |packet|) && plain.value[..|packet|] == packet
  }

  /** A server response, padded to `minSize`, is accepted exactly within the size limits. */
  lemma ResponseAccepted(packet: seq<Byte>, minSize: int, clientNonce: seq<Byte>, serverHalf: seq<Byte>, cipher: Cipher)
    requires Sound(cipher) && |clientNonce| == HALF_NONCE_SIZE && |serverHalf| == HALF_NONCE_SIZE
    ensures var nonce := clientNonce + serverHalf;
            Accepts(SERVER_MAGIC + nonce + cipher.seal(nonce, Padded(packet, minSize)), clientNonce, cipher, packet)
            <==> |packet| >= MIN_DNS_PACKET_SIZE && |packet| < MAX_DNS_PACKET_SIZE && minSize <= MAX_DNS_PACKET_SIZE
  {
    var nonce := clientNonce + serverHalf;
    var padded := Padded(packet, minSize);
    var box := cipher.seal(nonce, padded);
    var message := SERVER_MAGIC + nonce + box;
    assert message[..8] == SERVER_MAGIC;
    assert message[8..RESPONSE_HEADER] == nonce && message[RESPONSE_HEADER..] == box;
    assert message[8..8 + HALF_NONCE_SIZE] == clientNonce;
    assert padded == Padded(packet, |padded|);
    PaddedIffMarker(padded, packet);
  }

  /** What is accepted starts with the magic and the nonce of this very query: a response made for another
      query, or with another magic, is refused whatever it carries. */
  lemma ForeignResponseRefused(magic: seq<Byte>, nonce: seq<Byte>, box: seq<Byte>, clientNonce: seq<Byte>,
                               cipher: Cipher, packet: seq<Byte>)
    requires |magic| == 8 && |nonce| == 24 && |clientNonce| == 12
    requires Accepts(magic + nonce + box, clientNonce, cipher, packet)
    ensures magic == [0x72, 0x36, 0x66, 0x6e, 0x76, 0x57, 0x6a, 0x38] && nonce[..12] == clientNonce
    ensures 33 <= |box| <= 4112 && |packet| >= 17 && cipher.open(nonce, box).Some?
  {
    var message := magic + nonce + box;
    assert message[..8] == magic && message[8..32] == nonce && message[32..] == box;
    assert message[8..20] == nonce[..12];
  }
}
