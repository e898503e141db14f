/**
 The plugin pipeline: a query runs through the query plugins, may be sent to the
 encrypted upstream, and its response runs through the response plugins.
 */
module Plugins {
  import opened Names
  import opened Bytes
  import Framing
  import TcpFraming

  const ALIASES_LIMIT: nat := 8

  type Packet = seq<Byte>

  datatype Action = NoAction | Continue | Drop | Reject | Synth

  /** A record: class INET, the name it is an alias for, the address it holds. */
  datatype Rr = Rr(inet: bool, target: Option<string>, address: Option<string>)

  datatype Msg = Msg(names: seq<string>, answer: seq<Rr>, content: int)

  /** `udpLimit` is the largest response that the client accepts over UDP. */
  datatype Session = Session(
    action: Action, synth: Option<Msg>, qName: string, whitelisted: bool, stale: Option<Msg>, udpLimit: nat)

  /** A plugin may change the session and the message, and may fail. */
  datatype Eval = Eval(st: Session, msg: Msg, failed: bool)
  type Plugin = (Session, Msg) -> Eval

  const START: Session := Session(Continue, None, "", false, None, Framing.MAX_DNS_UDP_SAFE_PACKET_SIZE)

  // --- Running a list of plugins ---

  /** What the loop does with the outcome of one plugin. */
  function Settle(e: Eval, refused: Msg -> Msg): Eval {
    if e.failed then e.(st := e.st.(action := Drop))
    else if e.st.action.Reject? then e.(st := e.st.(synth := Some(refused(e.msg))))
    else e
  }

  predicate Decided(e: Eval) { e.failed || e.st.action != Continue }

  function RunPlugins(ps: seq<Plugin>, st: Session, msg: Msg, refused: Msg -> Msg): Eval {
    if ps == [] then Eval(st, msg, false)
    else
      var e := Settle(ps[0](st, msg), refused);
      if Decided(e) then e else RunPlugins(ps[1..], e.st, e.msg, refused)
  }

  method ApplyPlugins(ps: seq<Plugin>, st: Session, msg: Msg, refused: Msg -> Msg) returns (e: Eval)
    ensures e == RunPlugins(ps, st, msg, refused)
  {
    e := Eval(st, msg, false);
    for i := 0 to |ps|
      invariant !e.failed
      invariant RunPlugins(ps, st, msg, refused) == RunPlugins(ps[i..], e.st, e.msg, refused)
    {
      assert ps[i..][1..] == ps[i + 1..];
      e := ps[i](e.st, e.msg);
      if e.failed {
        e := e.(st := e.st.(action := Drop));
        return;
      }
      if e.st.action.Reject? {
        e := e.(st := e.st.(synth := Some(refused(e.msg))));
      }
      if e.st.action != Continue {
        return;
      }
    }
  }

  /** Running two lists one after the other; after a decision the second never runs. */
  lemma {:induction false} RunConcat(ps: seq<Plugin>, qs: seq<Plugin>, st: Session, msg: Msg, refused: Msg -> Msg)
    requires st.action == Continue
    ensures var e := RunPlugins(ps, st, msg, refused);
            RunPlugins(ps + qs, st, msg, refused) == if Decided(e) then e else RunPlugins(qs, e.st, e.msg, refused)
  {
    if ps == [] {
      assert ps + qs == qs;
    } else {
      var e := Settle(ps[0](st, msg), refused);
      assert (ps + qs)[1..] == ps[1..] + qs;
      if !Decided(e) { RunConcat(ps[1..], qs, e.st, e.msg, refused); }
    }
  }

  /** No plugin runs after the first one that decides: what stands behind it makes no difference. */
  lemma NothingRunsAfterDecision(ps: seq<Plugin>, qs: seq<Plugin>, rs: seq<Plugin>, st: Session, msg: Msg,
                                 refused: Msg -> Msg)
    requires st.action == Continue && Decided(RunPlugins(ps, st, msg, refused))
    ensures RunPlugins(ps + qs, st, msg, refused) == RunPlugins(ps + rs, st, msg, refused)
  {
    RunConcat(ps, qs, st, msg, refused);
    RunConcat(ps, rs, st, msg, refused);
  }

  // --- Sending upstream ---

  /** A plugin that decides leaves something to decide with. */
  ghost predicate Disciplined(p: Plugin) {
    forall st, msg :: var e := p(st, msg);
      st.action == Continue && !e.failed ==> e.st.action != NoAction && (e.st.action == Synth ==> e.st.synth.Some?)
  }

  lemma {:induction false} DecidedMeansAnswered(ps: seq<Plugin>, st: Session, msg: Msg, refused: Msg -> Msg)
    requires st.action == Continue
    requires forall i :: 0 <= i < |ps| ==> Disciplined(ps[i])
    ensures var e := RunPlugins(ps, st, msg, refused);
            Decided(e) ==> e.st.action == Drop || e.st.synth.Some?
  {
    if ps != [] {
      var e := Settle(ps[0](st, msg), refused);
      assert Disciplined(ps[0]);
      if !Decided(e) { DecidedMeansAnswered(ps[1..], e.st, e.msg, refused); }
    }
  }

  /** A rejecting plugin leaves the refusal of the message behind. */
  lemma {:induction false} RejectedMeansRefused(ps: seq<Plugin>, st: Session, msg: Msg, refused: Msg -> Msg)
    requires st.action == Continue
    ensures var e := RunPlugins(ps, st, msg, refused);
            !e.failed && e.st.action == Reject ==> e.st.synth == Some(refused(e.msg))
  {
    if ps != [] {
      var e := Settle(ps[0](st, msg), refused);
      if !Decided(e) { RejectedMeansRefused(ps[1..], e.st, e.msg, refused); }
    }
  }

  datatype Upstream = DnsCrypt | DoH | ODoH

  datatype Client = UdpClient | TcpClient

  /** `Unverified` is an HTTP reply without a completed TLS handshake. */
  datatype Exchange = Reply(bytes: Packet) | Unverified(bytes: Packet) | Timeout | NetworkError

  /** Everything outside: wire format, other servers, configuration. */
  datatype World = World(
    unpack: Packet -> Option<Msg>,
    pack: Msg -> Option<Packet>,
    padQuery: (Msg, Packet) -> Packet,
    withoutOptions: Msg -> Msg,
    refused: Msg -> Msg,
    truncated: Msg -> Msg,
    server: Option<Upstream>,
    route: Framing.Route,
    overUdp: Packet -> Exchange,
    overTcp: Packet -> Exchange,
    overHttp: Packet -> Exchange,
    odohTargets: nat,
    odohEncrypts: Packet -> bool,
    queryPlugins: seq<Plugin>,
    responsePlugins: seq<Plugin>,
    logging: bool)

  predicate HasTCFlag(p: Packet) { |p| > 2 && p[2] / 2 % 2 == 1 }

  /** A packed message has at least its header. */
  ghost predicate PacksSomething(w: World) {
    forall m :: w.pack(m).Some? ==> w.pack(m).value != []
  }

  /** Session and packet after `ApplyQueryPlugins`; unreadable queries pass through untouched. */
  function AfterQuery(w: World, query: Packet): (Session, Packet) {
    match w.unpack(query)
    case None => (START, query)
    case Some(m) =>
      if |m.names| != 1 then (START, query)
      else
        match NormalQName(m.names[0])
        case None => (START, query)
        case Some(qName) =>
          var st := START.(qName := qName);
          if w.queryPlugins == [] && !w.logging then (st, query)
          else
            var e := RunPlugins(w.queryPlugins, st, m, w.refused);
            if e.failed then (e.st, query)
            else
              match w.pack(e.msg)
              case None => (e.st, query)
              case Some(packed) =>
                if w.server == Some(DoH) && e.st.action == Continue then (e.st, w.padQuery(e.msg, packed))
                else (e.st, packed)
  }

  method ApplyQueryPlugins(w: World, query: Packet) returns (st: Session, packet: Packet)
    ensures (st, packet) == AfterQuery(w, query)
  {
    st, packet := START, query;
    var m := w.unpack(query);
    if m.None? { return; }
    if |m.value.names| != 1 { return; }
    var qName := NormalizeQName(m.value.names[0]);
    if qName.None? { return; }
    st := st.(qName := qName.value);
    if |w.queryPlugins| == 0 && !w.logging { return; }
    var e := ApplyPlugins(w.queryPlugins, st, m.value, w.refused);
    st := e.st;
    if e.failed { return; }
    var packed := w.pack(e.msg);
    if packed.None? { return; }
    packet := packed.value;
    if w.server == Some(DoH) && st.action == Continue {
      packet := w.padQuery(e.msg, packet);
    }
  }

  function AfterResponse(w: World, st: Session, response: Packet): (Session, Packet, bool) {
    match w.unpack(response)
    case None => (st, response, !(|response| >= MIN_DNS_PACKET_SIZE && HasTCFlag(response)))
    case Some(m) =>
      var e := RunPlugins(w.responsePlugins, st, w.withoutOptions(m), w.refused);
      if e.failed then (e.st, response, true)
      else
        match w.pack(e.msg)
        case None => (e.st, response, true)
        case Some(packed) => (e.st, packed, false)
  }

  method ApplyResponsePlugins(w: World, session: Session, response: Packet)
    returns (st: Session, packet: Packet, failed: bool)
    ensures (st, packet, failed) == AfterResponse(w, session, response)
  {
    st, packet, failed := session, response, false;
    var m := w.unpack(response);
    if m.None? {
      failed := !(|response| >= MIN_DNS_PACKET_SIZE && HasTCFlag(response));
      return;
    }
    var e := ApplyPlugins(w.responsePlugins, st, w.withoutOptions(m.value), w.refused);
    st := e.st;
    if e.failed { failed := true; return; }
    var packed := w.pack(e.msg);
    if packed.None? { failed := true; return; }
    packet := packed.value;
  }

  /** A server is there and takes the query: it fits a DNSCrypt message, or an ODoH target has a
      configuration to encrypt it with. */
  predicate Sendable(w: World, q: Packet) {
    && w.server.Some?
    && (w.server == Some(DnsCrypt) ==> |q| <= Framing.Capacity(Framing.Tcp, w.route))
    && (w.server == Some(ODoH) ==> w.odohTargets > 0 && w.odohEncrypts(q))
  }

  /** When a query reaches the encrypted upstream. */
  predicate GoesUpstream(w: World, query: Packet, onlyCached: bool) {
    var (st, q) := AfterQuery(w, query);
    && |query| >= MIN_DNS_PACKET_SIZE && SizeOk(q)
    && st.action != Drop && st.synth.None?
    && !onlyCached && Sendable(w, q)
  }

  predicate SizeOk(p: Packet) { MIN_DNS_PACKET_SIZE <= |p| <= MAX_DNS_PACKET_SIZE }

  /** Over UDP if the query can be padded for it; over TCP otherwise, after a truncated reply and after
      a timeout. */
  function DnsCryptReply(w: World, q: Packet, proto: Framing.Proto): Exchange {
    if proto.Udp? && |q| <= Framing.Capacity(Framing.Udp, w.route) then
      var r := w.overUdp(q);
      if r.Timeout? || (r.Reply? && |r.bytes| >= MIN_DNS_PACKET_SIZE && HasTCFlag(r.bytes)) then w.overTcp(q) else r
    else w.overTcp(q)
  }

  /** The reply, or the stale answer if there was none. DoH takes an unverified reply if there is no
      stale answer; ODoH does without stale answers. */
  function RawResponse(w: World, st: Session, q: Packet, proto: Framing.Proto): Option<Packet> {
    var e := if w.server == Some(DnsCrypt) then DnsCryptReply(w, q, proto) else w.overHttp(q);
    if e.Reply? || (e.Unverified? && w.server == Some(DoH) && st.stale.None?) then Some(e.bytes)
    else if w.server != Some(ODoH) && st.stale.Some? then w.pack(st.stale.value)
    else None
  }

  /** How a response of legal size is delivered: cut down to an empty truncated response when it is too
      large for UDP, behind its length over TCP. */
  function Delivered(w: World, client: Client, st: Session, response: Packet): Option<Packet>
    requires SizeOk(response)
  {
    if client.TcpClient? then Some(TcpFraming.Frame(response))
    else if |response| <= st.udpLimit then Some(response)
    else
      match w.unpack(response)
      case None => None
      case Some(m) => w.pack(w.truncated(m))
  }

  predicate DeliversMsg(w: World, client: Client, st: Session, m: Msg, answer: Packet) {
    var packed := w.pack(m);
    packed.Some? && SizeOk(packed.value) && Delivered(w, client, st, packed.value) == Some(answer)
  }

  /** What a client receives: a synthesised answer, or what the response plugins made of the
      upstream's reply, or of a stale answer when the upstream failed. */
  predicate LegitimateAnswer(w: World, query: Packet, client: Client, proto: Framing.Proto, sent: bool,
                             answer: Packet) {
    var (st, q) := AfterQuery(w, query);
    && |query| >= MIN_DNS_PACKET_SIZE && SizeOk(q) && st.action != Drop
    && if !sent then st.synth.Some? && DeliversMsg(w, client, st, st.synth.value, answer)
       else
         var raw := RawResponse(w, st, q, proto);
         && raw.Some? && SizeOk(raw.value)
         && var (st', packet, failed) := AfterResponse(w, st, raw.value);
            && !failed && st'.action != Drop
            && if st'.synth.Some? then DeliversMsg(w, client, st', st'.synth.value, answer)
               else SizeOk(packet) && Delivered(w, client, st', packet) == Some(answer)
  }

  method Deliver(w: World, client: Client, st: Session, response: Packet) returns (answer: Option<Packet>)
    ensures answer == if SizeOk(response) then Delivered(w, client, st, response) else None
  {
    if |response| < MIN_DNS_PACKET_SIZE || |response| > MAX_DNS_PACKET_SIZE { return None; }
    if client.UdpClient? {
      if |response| > st.udpLimit {
        var m := w.unpack(response);
        if m.None? { return None; }
        return w.pack(w.truncated(m.value));
      }
      return Some(response);
    }
    answer := TcpFraming.PrefixWithSize(response);
  }

  /** The decisions of `processIncomingQuery` for one query. `answer` is what the client gets. */
  method ProcessIncomingQuery(w: World, query: Packet, client: Client, proto: Framing.Proto, onlyCached: bool)
    returns (answer: Option<Packet>, sent: bool)
    requires PacksSomething(w)
    ensures sent <==> GoesUpstream(w, query, onlyCached)
    ensures forall a :: answer == Some(a) <==> LegitimateAnswer(w, query, client, proto, sent, a)
  {
    sent := false;
    if |query| < MIN_DNS_PACKET_SIZE { return None, false; }
    var server := w.server;
    var st, q := ApplyQueryPlugins(w, query);
    if |q| < MIN_DNS_PACKET_SIZE || |q| > MAX_DNS_PACKET_SIZE { return None, false; }
    if st.action == Drop { return None, false; }
    var response: Packet := [];
    if st.synth.Some? {
      var packed := w.pack(st.synth.value);
      if packed.None? { return None, false; }
      response := packed.value;
    }
    if onlyCached {
      if |response| == 0 { return None, false; }
      server := None;
    }
    if |response| == 0 && server.Some? {
      if server == Some(DnsCrypt) && |q| > Framing.Capacity(Framing.Tcp, w.route) { return None, false; }
      if server == Some(ODoH) {
        if w.odohTargets == 0 { return None, false; }
        if !w.odohEncrypts(q) { return None, false; }
      }
      sent := true;
      answer := AnswerFromUpstream(w, query, client, proto, st, q);
      return;
    }
    answer := Deliver(w, client, st, response);
  }

  method DnsCryptExchange(w: World, q: Packet, proto: Framing.Proto) returns (e: Exchange)
    ensures e == DnsCryptReply(w, q, proto)
  {
    if proto.Udp? && |q| <= Framing.Capacity(Framing.Udp, w.route) {
      e := w.overUdp(q);
      var retryOverTcp := false;
      if e.Reply? && |e.bytes| >= MIN_DNS_PACKET_SIZE && HasTCFlag(e.bytes) {
        retryOverTcp := true;
      } else if e.Timeout? {
        retryOverTcp := true;
      }
      if retryOverTcp {
        e := w.overTcp(q);
      }
    } else {
      e := w.overTcp(q);
    }
  }

  method FetchRaw(w: World, st: Session, q: Packet, proto: Framing.Proto) returns (raw: Option<Packet>)
    requires w.server.Some?
    ensures raw == RawResponse(w, st, q, proto)
  {
    match w.server.value {
      case DnsCrypt =>
        var e := DnsCryptExchange(w, q, proto);
        if e.Reply? { return Some(e.bytes); }
        if st.stale.None? { return None; }
        return w.pack(st.stale.value);
      case DoH =>
        var e := w.overHttp(q);
        if !e.Reply? && st.stale.Some? { return w.pack(st.stale.value); }
        return if e.Reply? || e.Unverified? then Some(e.bytes) else None;
      case ODoH =>
        var e := w.overHttp(q);
        return if e.Reply? then Some(e.bytes) else None;
    }
  }

  method AnswerFromUpstream(w: World, ghost query: Packet, client: Client, proto: Framing.Proto, st: Session, q: Packet)
    returns (answer: Option<Packet>)
    requires w.server.Some? && (st, q) == AfterQuery(w, query)
    requires |query| >= MIN_DNS_PACKET_SIZE && SizeOk(q) && st.action != Drop
    ensures forall a :: answer == Some(a) <==> LegitimateAnswer(w, query, client, proto, true, a)
  {
    var raw := FetchRaw(w, st, q, proto);
    if raw.None? || |raw.value| < MIN_DNS_PACKET_SIZE || |raw.value| > MAX_DNS_PACKET_SIZE { return None; }
    var st', packet, failed := ApplyResponsePlugins(w, st, raw.value);
    if failed || st'.action == Drop { return None; }
    if st'.synth.Some? {
      var packed := w.pack(st'.synth.value);
      if packed.None? { return None; }
      packet := packed.value;
    }
    answer := Deliver(w, client, st', packet);
  }

  /** With disciplined plugins, a query the plugins decided is never sent: upstream sees only queries
      that ran through every plugin undecided, or that no plugin could read. */
  lemma DecidedQueriesStayLocal(w: World, query: Packet, onlyCached: bool)
    requires forall i :: 0 <= i < |w.queryPlugins| ==> Disciplined(w.queryPlugins[i])
    ensures GoesUpstream(w, query, onlyCached) ==> !onlyCached && AfterQuery(w, query).0.action == Continue
  {
    if w.unpack(query).Some? && |w.unpack(query).value.names| == 1 {
      var m := w.unpack(query).value;
      var qName := NormalQName(m.names[0]);
      if qName.Some? {
        DecidedMeansAnswered(w.queryPlugins, START.(qName := qName.value), m, w.refused);
      }
    }
  }

  /** A response that the response plugins reject never reaches the client: the refusal does. */
  lemma RejectedResponseIsReplaced(w: World, query: Packet, client: Client, proto: Framing.Proto, answer: Packet,
                                   m: Msg)
    requires LegitimateAnswer(w, query, client, proto, true, answer) && AfterQuery(w, query).0.action == Continue
    requires var (st, q) := AfterQuery(w, query);
             && w.unpack(RawResponse(w, st, q, proto).value) == Some(m)
             && RunPlugins(w.responsePlugins, st, w.withoutOptions(m), w.refused).st.action == Reject
    ensures var e := RunPlugins(w.responsePlugins, AfterQuery(w, query).0, w.withoutOptions(m), w.refused);
            DeliversMsg(w, client, e.st, w.refused(e.msg), answer)
  {
    RejectedMeansRefused(w.responsePlugins, AfterQuery(w, query).0, w.withoutOptions(m), w.refused);
  }

  // --- From the query to the answer ---

  /** What the plugins made of a query is what is sent, padded for DoH if they left it undecided. */
  lemma RewrittenQueryIsSent(w: World, query: Packet, m: Msg, qName: string)
    requires w.unpack(query) == Some(m) && |m.names| == 1 && NormalQName(m.names[0]) == Some(qName)
    requires w.queryPlugins != [] || w.logging
    ensures var e := RunPlugins(w.queryPlugins, START.(qName := qName), m, w.refused);
            var packed := w.pack(e.msg);
            && AfterQuery(w, query).0 == e.st
            && (e.failed || packed.None? ==> AfterQuery(w, query).1 == query)
            && (!e.failed && packed.Some? && w.server == Some(DoH) && e.st.action == Continue ==>
                  AfterQuery(w, query).1 == w.padQuery(e.msg, packed.value))
            && (!e.failed && packed.Some? && !(w.server == Some(DoH) && e.st.action == Continue) ==>
                  AfterQuery(w, query).1 == packed.value)
  {
  }

  /** A query that cannot be read, has not exactly one question or a name that is not ASCII is sent as it is,
      undecided. */
  lemma UnreadQueryIsSent(w: World, query: Packet)
    requires w.unpack(query).Some? && |w.unpack(query).value.names| == 1 ==>
               NormalQName(w.unpack(query).value.names[0]).None?
    ensures AfterQuery(w, query).1 == query && AfterQuery(w, query).0.action == Continue
    ensures GoesUpstream(w, query, false) <==> SizeOk(query) && Sendable(w, query)
  {
  }

  predicate TruncatedBytes(b: Packet) { |b| >= 17 && (b[2] % 4 == 2 || b[2] % 4 == 3) }

  /** Which transport answers a DNSCrypt query: UDP, unless the query is too large for it, its reply is
      truncated or late; then TCP. */
  lemma TransportOfReply(w: World, st: Session, q: Packet, proto: Framing.Proto, b: Packet)
    requires w.server == Some(DnsCrypt)
    ensures proto.Udp? && |q| <= 1183 && w.overUdp(q) == Reply(b) && !TruncatedBytes(b) ==>
              RawResponse(w, st, q, proto) == Some(b)
    ensures (&& proto.Udp? && |q| <= 1183 && w.overUdp(q).Reply? && TruncatedBytes(w.overUdp(q).bytes)
             && w.overTcp(q) == Reply(b)) ==> RawResponse(w, st, q, proto) == Some(b)
    ensures proto.Udp? && w.overUdp(q) == Timeout && w.overTcp(q) == Reply(b) ==>
              RawResponse(w, st, q, proto) == Some(b)
    ensures w.overTcp(q) == Reply(b) && (proto.Tcp? || |q| > 4027 || (|q| > 1183 && w.route.fragmentsBlocked)) ==>
              RawResponse(w, st, q, proto) == Some(b)
  {
  }

  /** What is served when no transport has a reply: the stale answer, and nothing for ODoH or without one. */
  lemma StaleWhenUnreachable(w: World, st: Session, q: Packet, proto: Framing.Proto)
    requires w.server.Some? && w.overUdp(q) == NetworkError && w.overTcp(q) == NetworkError
    requires w.overHttp(q) == NetworkError
    ensures RawResponse(w, st, q, proto) ==
            if st.stale.Some? && !w.server.value.ODoH? then w.pack(st.stale.value) else None
  {
  }

  /** A response as it arrives at the client: behind its length over TCP; over UDP as it is, or as an empty
      truncated response if it is longer than the client accepts. */
  predicate Arrives(w: World, client: Client, limit: nat, response: Packet, answer: Packet) {
    if client.TcpClient? then
      answer == [|response| / 256 % 256, |response| % 256] + response
    else if |response| <= limit then answer == response
    else w.unpack(response).Some? && w.pack(w.truncated(w.unpack(response).value)) == Some(answer)
  }

  lemma ArrivesIffDelivered(w: World, client: Client, st: Session, response: Packet, answer: Packet)
    requires SizeOk(response)
    ensures Delivered(w, client, st, response) == Some(answer) <==> Arrives(w, client, st.udpLimit, response, answer)
  {
    assert High(|response|) == |response| / 256 % 256;
  }

  /** What the response plugins made of a reply is what the client gets: what they synthesised, or else
      the message they left, packed again. */
  lemma RewrittenResponseReachesClient(w: World, query: Packet, client: Client, proto: Framing.Proto, reply: Packet,
                                       m: Msg, answer: Packet)
    requires var (st, q) := AfterQuery(w, query);
             && |query| >= MIN_DNS_PACKET_SIZE && SizeOk(q) && st.action != Drop
             && RawResponse(w, st, q, proto) == Some(reply) && SizeOk(reply) && w.unpack(reply) == Some(m)
    requires var e := RunPlugins(w.responsePlugins, AfterQuery(w, query).0, w.withoutOptions(m), w.refused);
             !e.failed && e.st.action != Drop && w.pack(e.msg).Some?
    ensures var e := RunPlugins(w.responsePlugins, AfterQuery(w, query).0, w.withoutOptions(m), w.refused);
            var packed := if e.st.synth.Some? then w.pack(e.st.synth.value) else w.pack(e.msg);
            LegitimateAnswer(w, query, client, proto, true, answer) <==>
              packed.Some? && SizeOk(packed.value) && Arrives(w, client, e.st.udpLimit, packed.value, answer)
  {
    var e := RunPlugins(w.responsePlugins, AfterQuery(w, query).0, w.withoutOptions(m), w.refused);
    var packed := if e.st.synth.Some? then w.pack(e.st.synth.value) else w.pack(e.msg);
    if packed.Some? && SizeOk(packed.value) {
      ArrivesIffDelivered(w, client, e.st, packed.value, answer);
    }
  }

  /** A reply that cannot be unpacked reaches the client as it is exactly if it is truncated. */
  lemma UnreadableReply(w: World, query: Packet, client: Client, proto: Framing.Proto, reply: Packet, answer: Packet)
    requires var (st, q) := AfterQuery(w, query);
             && |query| >= MIN_DNS_PACKET_SIZE && SizeOk(q) && st.action != Drop && st.synth.None?
             && RawResponse(w, st, q, proto) == Some(reply) && SizeOk(reply) && w.unpack(reply) == None
    ensures LegitimateAnswer(w, query, client, proto, true, answer) <==>
            TruncatedBytes(reply) && Arrives(w, client, AfterQuery(w, query).0.udpLimit, reply, answer)
  {
    ArrivesIffDelivered(w, client, AfterQuery(w, query).0, reply, answer);
  }

  /** A query that the plugins answer is not sent, and the client gets their answer. */
  lemma SynthesisedAnswerReachesClient(w: World, query: Packet, client: Client, proto: Framing.Proto,
                                       onlyCached: bool, answer: Packet)
    requires var (st, q) := AfterQuery(w, query);
             |query| >= MIN_DNS_PACKET_SIZE && SizeOk(q) && st.action != Drop && st.synth.Some?
    ensures !GoesUpstream(w, query, onlyCached)
    ensures var packed := w.pack(AfterQuery(w, query).0.synth.value);
            LegitimateAnswer(w, query, client, proto, false, answer) <==>
              packed.Some? && SizeOk(packed.value) &&
              Arrives(w, client, AfterQuery(w, query).0.udpLimit, packed.value, answer)
  {
    var st := AfterQuery(w, query).0;
    var packed := w.pack(st.synth.value);
    if packed.Some? && SizeOk(packed.value) {
      ArrivesIffDelivered(w, client, st, packed.value, answer);
    }
  }

  /** Discipline is needed: one plugin that announces an answer without giving one lets the query out. */
  lemma UndisciplinedLeaks(w: World, query: Packet)
    requires |query| == 17 && w.server == Some(DoH)
    requires w.unpack(query) == Some(Msg(["a"], [], 0)) && w.pack(Msg(["a"], [], 0)) == Some(query)
    requires |w.queryPlugins| == 1
    requires forall st, msg :: w.queryPlugins[0](st, msg) == Eval(st.(action := Synth), msg, false)
    ensures GoesUpstream(w, query, false) && AfterQuery(w, query).0.action == Synth
  {
    assert TrimTrailingDot("a") == "a" && Ascii("a");
    var st := START.(qName := Lower("a"));
    assert w.queryPlugins[0](st, Msg(["a"], [], 0)) == Eval(st.(action := Synth), Msg(["a"], [], 0), false);
  }
}
