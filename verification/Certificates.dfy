/**
 DNSCrypt certificates: unescaping of TXT records (presentation format, section
 5.1 of RFC 1035) and the choice of one certificate among those received.
 */
module Certificates {
  import opened Names
  import opened Bytes

  const QUOTE: Byte := 34
  const BACKSLASH: Byte := 92

  // --- TXT strings ---

  predicate IsDigit(b: Byte) { 48 <= b <= 57 }

  /** Byte arithmetic: the sum wraps. */
  function DddToByte(a: Byte, b: Byte, c: Byte): Byte {
    ((a - 48) * 100 + (b - 48) * 10 + (c - 48)) % 256
  }

  function NamedEscape(b: Byte): Byte {
    if b == 116 then 9 else if b == 114 then 13 else if b == 110 then 10 else b
  }

  /** What the first character or escape sequence stands for, and how long it is. */
  function Head(s: seq<Byte>): (h: (seq<Byte>, nat))
    requires s != []
    ensures 1 <= h.1 <= |s|
  {
    if s[0] != BACKSLASH then ([s[0]], 1)
    else if |s| == 1 then ([], 1)
    else if |s| >= 4 && IsDigit(s[1]) && IsDigit(s[2]) && IsDigit(s[3])
    then ([DddToByte(s[1], s[2], s[3])], 4)
    else ([NamedEscape(s[1])], 2)
  }

  function Unescaped(s: seq<Byte>): seq<Byte>
    decreases |s|
  {
    if s == [] then [] else Head(s).0 + Unescaped(s[Head(s).1..])
  }

  lemma UnescapedStep(s: seq<Byte>, msg: seq<Byte>, i: nat, j: nat)
    requires i < |s| && j == i + Head(s[i..]).1
    ensures msg + Unescaped(s[i..]) == msg + Head(s[i..]).0 + Unescaped(s[j..])
  {
    assert s[i..][j - i..] == s[j..];
  }

  method PackTXTRR(s: seq<Byte>) returns (msg: seq<Byte>)
    ensures msg == Unescaped(s)
  {
    msg := [];
    var i := 0;
    assert s[0..] == s;
    while i < |s|
      invariant 0 <= i <= |s|
      invariant msg + Unescaped(s[i..]) == Unescaped(s)
    {
      ghost var rest := s[i..];
      UnescapedStep(s, msg, i, i + Head(rest).1);
      if s[i] == BACKSLASH {
        i := i + 1;
        if i == |s| { break; }
        if i + 2 < |s| && IsDigit(s[i]) && IsDigit(s[i + 1]) && IsDigit(s[i + 2]) {
          msg := msg + [DddToByte(s[i], s[i + 1], s[i + 2])];
          i := i + 2;
        } else if s[i] == 116 {
          msg := msg + [9];
        } else if s[i] == 114 {
          msg := msg + [13];
        } else if s[i] == 110 {
          msg := msg + [10];
        } else {
          msg := msg + [s[i]];
        }
      } else {
        msg := msg + [s[i]];
      }
      i := i + 1;
    }
    assert s[|s|..] == [];
  }

  /** Presentation escaping, as the DNS library applies it to the bytes received. */
  function EscapeByte(b: Byte): seq<Byte> {
    if b == QUOTE || b == BACKSLASH then [BACKSLASH, b]
    else if b < 32 || b > 126 then [BACKSLASH, 48 + b / 100, 48 + b / 10 % 10, 48 + b % 10]
    else [b]
  }

  function Escaped(s: seq<Byte>): seq<Byte> {
    if s == [] then [] else EscapeByte(s[0]) + Escaped(s[1..])
  }

  lemma DecimalRoundTrip(b: Byte)
    ensures 48 + b / 100 <= 57 && DddToByte(48 + b / 100, 48 + b / 10 % 10, 48 + b % 10) == b
  {
    var q, o := b / 10, b % 10;
    assert b == 10 * q + o;
    assert b / 100 == q / 10;
    assert q == 10 * (q / 10) + q % 10;
  }

  lemma HeadOfEscaped(b: Byte, rest: seq<Byte>)
    ensures Head(EscapeByte(b) + rest) == ([b], |EscapeByte(b)|)
  {
    DecimalRoundTrip(b);
  }

  lemma UnescapeHead(b: Byte, rest: seq<Byte>)
    ensures Unescaped(EscapeByte(b) + rest) == [b] + Unescaped(rest)
  {
    HeadOfEscaped(b, rest);
    assert (EscapeByte(b) + rest)[|EscapeByte(b)|..] == rest;
  }

  /** Unescaping undoes escaping, on every byte string. */
  lemma {:induction false} UnescapeUndoesEscape(s: seq<Byte>)
    ensures Unescaped(Escaped(s)) == s
  {
    if s != [] {
      UnescapeHead(s[0], Escaped(s[1..]));
      UnescapeUndoesEscape(s[1..]);
    }
  }

  /** What any backslash stands for: with three digits behind it their number, modulo 256; with t, r or n a
      tab, a return or a newline; with anything else that character; and nothing at the end. */
  lemma {:induction false} BackslashMeans(b: Byte, rest: seq<Byte>)
    ensures Unescaped([92]) == []
    ensures |rest| >= 2 && 48 <= b <= 57 && 48 <= rest[0] <= 57 && 48 <= rest[1] <= 57 ==>
              Unescaped([92, b] + rest) ==
              [(100 * (b as int) + 10 * (rest[0] as int) + (rest[1] as int) - 5328) % 256] + Unescaped(rest[2..])
    ensures !(|rest| >= 2 && 48 <= b <= 57 && 48 <= rest[0] <= 57 && 48 <= rest[1] <= 57) ==>
              Unescaped([92, b] + rest) ==
              [if b == 't' as int then 9 else if b == 'r' as int then 13 else if b == 'n' as int then 10 else b] +
              Unescaped(rest)
  {
    var s := [92, b] + rest;
    assert s[2..] == rest;
    assert |rest| >= 2 ==> s[4..] == rest[2..] && s[2] == rest[0] && s[3] == rest[1];
    assert [92][1..] == [];
  }

  lemma {:induction false} EscapedConcat(s: seq<Byte>, t: seq<Byte>)
    ensures Escaped(s + t) == Escaped(s) + Escaped(t)
  {
    if s == [] {
      assert s + t == t;
    } else {
      calc {
        Escaped(s + t);
        { assert (s + t)[0] == s[0] && (s + t)[1..] == s[1..] + t; }
        EscapeByte(s[0]) + Escaped(s[1..] + t);
        { EscapedConcat(s[1..], t); }
        EscapeByte(s[0]) + (Escaped(s[1..]) + Escaped(t));
        Escaped(s) + Escaped(t);
      }
    }
  }

  function Joined(strings: seq<seq<Byte>>): seq<Byte> {
    if strings == [] then [] else strings[0] + Joined(strings[1..])
  }

  function EscapedEach(strings: seq<seq<Byte>>): (r: seq<seq<Byte>>)
    ensures |r| == |strings|
  {
    if strings == [] then [] else [Escaped(strings[0])] + EscapedEach(strings[1..])
  }

  /** A certificate cut into any character-strings is recovered whole. */
  lemma {:induction false} TxtRecordRecovered(strings: seq<seq<Byte>>)
    ensures Unescaped(Joined(EscapedEach(strings))) == Joined(strings)
  {
    EscapedJoined(strings);
    UnescapeUndoesEscape(Joined(strings));
  }

  lemma {:induction false} EscapedJoined(strings: seq<seq<Byte>>)
    ensures Joined(EscapedEach(strings)) == Escaped(Joined(strings))
  {
    if strings != [] {
      EscapedJoined(strings[1..]);
      EscapedConcat(strings[0], Joined(strings[1..]));
    }
  }

  // --- Certificates ---

  const CERT_MAGIC: seq<Byte> := [0x44, 0x4e, 0x53, 0x43]
  const WEEK: nat := 86400 * 7

  /** 0 is undefined, 1 is XSalsa20Poly1305, 2 is XChacha20Poly1305. */
  type Construction = n: int | 0 <= n <= 2

  datatype AnswerRr = Txt(strings: seq<seq<Byte>>) | OtherRr

  /** Bytes of the certificate in an answer. */
  function BinCert(a: AnswerRr): seq<Byte> {
    if a.Txt? then Unescaped(Joined(a.strings)) else []
  }

  function Version(c: seq<Byte>): nat
    requires |c| >= 124
  {
    BigEndian16(c[4], c[5])
  }

  function Serial(c: seq<Byte>): nat requires |c| >= 124 { BigEndian32(c[112..116]) }
  function TsBegin(c: seq<Byte>): nat requires |c| >= 124 { BigEndian32(c[116..120]) }
  function TsEnd(c: seq<Byte>): nat requires |c| >= 124 { BigEndian32(c[120..124]) }

  /** What the checks are made against. `verify` takes the signed part and the signature. */
  datatype Context = Context(
    verify: (seq<Byte>, seq<Byte>) -> bool,
    sharedKey: (Construction, seq<Byte>) -> seq<Byte>,
    now: nat,
    ignoreTimestamp: bool)

  /** Long enough, right magic, known version, signed, and a period that is not empty. */
  predicate Genuine(c: seq<Byte>, x: Context) {
    && |c| >= 124 && c[..4] == CERT_MAGIC
    && (Version(c) == 1 || Version(c) == 2)
    && x.verify(c[72..], c[8..72])
    && TsBegin(c) < TsEnd(c)
  }

  predicate Acceptable(c: seq<Byte>, x: Context) {
    Genuine(c, x) && (x.ignoreTimestamp || TsBegin(c) <= x.now <= TsEnd(c))
  }

  /** Serial first, then construction. */
  predicate Precedes(c: seq<Byte>, d: seq<Byte>)
    requires |c| >= 124 && |d| >= 124
  {
    Serial(c) < Serial(d) || (Serial(c) == Serial(d) && Version(c) < Version(d))
  }

  /** `i` is the last of the greatest among the acceptable certificates. */
  ghost predicate IsChoice(certs: seq<seq<Byte>>, x: Context, i: int) {
    && 0 <= i < |certs| && Acceptable(certs[i], x)
    && (forall j :: 0 <= j < |certs| && Acceptable(certs[j], x) ==> !Precedes(certs[i], certs[j]))
    && (forall j :: i < j < |certs| && Acceptable(certs[j], x) ==> Precedes(certs[j], certs[i]))
  }

  datatype CertInfo = CertInfo(
    serverPk: seq<Byte>, sharedKey: seq<Byte>, magicQuery: seq<Byte>,
    construction: Construction, forwardSecurity: bool)

  /** All the key material comes from certificate `c`. */
  predicate TakenFrom(info: CertInfo, c: seq<Byte>, x: Context) {
    && |c| >= 124 && (Version(c) == 1 || Version(c) == 2)
    && info.construction == Version(c)
    && info.serverPk == c[72..104]
    && info.magicQuery == c[104..112]
    && info.sharedKey == x.sharedKey(Version(c), c[72..104])
  }

  function BinCerts(answers: seq<AnswerRr>): (r: seq<seq<Byte>>)
    ensures |r| == |answers|
  {
    seq(|answers|, i requires 0 <= i < |answers| => BinCert(answers[i]))
  }

  /** Whether the last genuine certificate, acceptable or not, lives for at most a week. */
  function LastGenuineIsShort(certs: seq<seq<Byte>>, x: Context): bool {
    if certs == [] then false
    else
      var c := certs[|certs| - 1];
      if Genuine(c, x) then TsEnd(c) - TsBegin(c) <= WEEK
      else LastGenuineIsShort(certs[..|certs| - 1], x)
  }

  /** One certificate against the best so far: it replaces it unless it is unacceptable or preceded. */
  predicate Considered(c: seq<Byte>, x: Context, info: CertInfo, highestSerial: nat,
                       next: CertInfo, serial: nat, taken: bool) {
    && (taken <==> Acceptable(c, x) && highestSerial <= Serial(c) &&
                   !(Serial(c) == highestSerial && Version(c) < info.construction))
    && (taken ==> TakenFrom(next, c, x) && serial == Serial(c))
    && (!taken ==> next.(forwardSecurity := info.forwardSecurity) == info && serial == highestSerial)
    && next.forwardSecurity == if Genuine(c, x) then TsEnd(c) - TsBegin(c) <= WEEK else info.forwardSecurity
  }

  /** State of the loop: `at` is the choice among `certs`, -1 if there is none yet. */
  ghost predicate Chosen(certs: seq<seq<Byte>>, x: Context, info: CertInfo, highestSerial: nat, at: int) {
    && info.forwardSecurity == LastGenuineIsShort(certs, x)
    && (at == -1 ==> info.construction == 0 && highestSerial == 0 &&
                     forall j :: 0 <= j < |certs| ==> !Acceptable(certs[j], x))
    && (at != -1 ==> IsChoice(certs, x, at) && TakenFrom(info, certs[at], x) && highestSerial == Serial(certs[at]))
  }

  lemma ConsideredExtendsChoice(certs: seq<seq<Byte>>, c: seq<Byte>, x: Context, info: CertInfo,
                                highestSerial: nat, at: int, next: CertInfo, serial: nat, taken: bool)
    requires Chosen(certs, x, info, highestSerial, at)
    requires Considered(c, x, info, highestSerial, next, serial, taken)
    ensures Chosen(certs + [c], x, next, serial, if taken then |certs| else at)
  {
    assert (certs + [c])[..|certs|] == certs;
    if taken {
      assert IsChoice(certs + [c], x, |certs|);
    } else if at != -1 {
      assert IsChoice(certs + [c], x, at);
    }
  }

  /** The body of the loop for one TXT record. */
  method Consider(c: seq<Byte>, x: Context, info: CertInfo, highestSerial: nat)
    returns (next: CertInfo, serial: nat, taken: bool)
    ensures Considered(c, x, info, highestSerial, next, serial, taken)
  {
    next, serial, taken := info, highestSerial, false;
    if |c| < 124 { return; }
    if c[..4] != CERT_MAGIC { return; }
    var esVersion := BigEndian16(c[4], c[5]);
    if esVersion != 1 && esVersion != 2 { return; }
    var construction: Construction := esVersion;
    if !x.verify(c[72..], c[8..72]) { return; }
    var certSerial := BigEndian32(c[112..116]);
    var tsBegin, tsEnd := BigEndian32(c[116..120]), BigEndian32(c[120..124]);
    if tsBegin >= tsEnd { return; }
    next := next.(forwardSecurity := !(tsEnd - tsBegin > WEEK));
    if !x.ignoreTimestamp && (x.now > tsEnd || x.now < tsBegin) { return; }
    if certSerial < highestSerial { return; }
    if certSerial == highestSerial && construction < info.construction { return; }
    serial, taken := certSerial, true;
    next := CertInfo(c[72..104], x.sharedKey(construction, c[72..104]), c[104..112], construction,
                     next.forwardSecurity);
  }

  method ConsiderAnswer(a: AnswerRr, x: Context, info: CertInfo, highestSerial: nat)
    returns (next: CertInfo, serial: nat, taken: bool)
    ensures Considered(BinCert(a), x, info, highestSerial, next, serial, taken)
  {
    if a.OtherRr? { return info, highestSerial, false; }
    var c := PackTXTRR(Joined(a.strings));
    next, serial, taken := Consider(c, x, info, highestSerial);
  }

  /** What the loop returns: an error exactly if no certificate is acceptable, and otherwise the
      key material of the one choice. */
  ghost predicate Selected(certs: seq<seq<Byte>>, x: Context, r: Option<CertInfo>) {
    && (r.None? <==> forall i :: 0 <= i < |certs| ==> !Acceptable(certs[i], x))
    && (r.Some? ==> exists i :: IsChoice(certs, x, i) && TakenFrom(r.value, certs[i], x))
    && (r.Some? ==> r.value.forwardSecurity == LastGenuineIsShort(certs, x))
  }

  lemma ChosenIsSelected(certs: seq<seq<Byte>>, x: Context, info: CertInfo, highestSerial: nat, at: int)
    requires Chosen(certs, x, info, highestSerial, at)
    ensures Selected(certs, x, if info.construction == 0 then None else Some(info))
  {
  }

  lemma BinCertsSnoc(answers: seq<AnswerRr>, i: nat)
    requires i < |answers|
    ensures BinCerts(answers[..i + 1]) == BinCerts(answers[..i]) + [BinCert(answers[i])]
  {
  }

  const NO_CERT: CertInfo := CertInfo([], [], [], 0, false)

  lemma NothingChosen(x: Context)
    ensures Chosen([], x, NO_CERT, 0, -1)
  {
  }

  /** The tests a certificate must pass, on its bytes: length, magic, version 1 or 2, the signature over
      everything behind it, a period that is not empty, and the date unless it is ignored. */
  predicate Passes(c: seq<Byte>, x: Context) {
    && |c| >= 124 && c[..4] == [0x44, 0x4e, 0x53, 0x43]
    && c[4] == 0 && (c[5] == 1 || c[5] == 2)
    && x.verify(c[72..], c[8..72])
    && BigEndian32(c[116..120]) < BigEndian32(c[120..124])
    && (x.ignoreTimestamp || BigEndian32(c[116..120]) <= x.now <= BigEndian32(c[120..124]))
  }

  lemma PassesIffAcceptable(c: seq<Byte>, x: Context)
    ensures Passes(c, x) <==> Acceptable(c, x)
    ensures Acceptable(c, x) ==> Version(c) == c[5]
  {
  }

  /** Certificate `i` passes, and none that passes has a greater serial, the same one and a later version,
      or the same of both further behind. */
  ghost predicate Wins(certs: seq<seq<Byte>>, x: Context, i: int) {
    && 0 <= i < |certs| && Passes(certs[i], x)
    && forall j :: 0 <= j < |certs| && Passes(certs[j], x) ==>
         var mine, other := BigEndian32(certs[i][112..116]), BigEndian32(certs[j][112..116]);
         other < mine || (other == mine && (certs[j][5] < certs[i][5] || (certs[j][5] == certs[i][5] && j <= i)))
  }

  /** Key material from the bytes of `c`. */
  predicate KeysOf(info: CertInfo, c: seq<Byte>, x: Context) {
    && |c| >= 124 && 0 <= c[5] <= 2 && info.construction == c[5]
    && info.serverPk == c[72..104] && info.magicQuery == c[104..112]
    && info.sharedKey == x.sharedKey(c[5], c[72..104])
  }

  lemma ChoiceWins(certs: seq<seq<Byte>>, x: Context, i: int)
    requires IsChoice(certs, x, i)
    ensures Wins(certs, x, i)
  {
    PassesIffAcceptable(certs[i], x);
    forall j | 0 <= j < |certs| && Passes(certs[j], x)
      ensures !Precedes(certs[i], certs[j]) && (i < j ==> Precedes(certs[j], certs[i]))
      ensures Version(certs[j]) == certs[j][5]
    {
      PassesIffAcceptable(certs[j], x);
    }
  }

  /** All the tests but the date. */
  predicate PassesUndated(c: seq<Byte>, x: Context) { Passes(c, x.(ignoreTimestamp := true)) }

  /** The flag is set by the last certificate that passes all the tests but the date: it holds if that one
      lives for a week at most. */
  lemma {:induction false} FlagByBytes(certs: seq<seq<Byte>>, x: Context, j: int)
    requires 0 <= j < |certs| && PassesUndated(certs[j], x)
    requires forall k :: j < k < |certs| ==> !PassesUndated(certs[k], x)
    ensures LastGenuineIsShort(certs, x) <==>
            BigEndian32(certs[j][120..124]) - BigEndian32(certs[j][116..120]) <= 604800
  {
    var n := |certs| - 1;
    PassesIffAcceptable(certs[n], x.(ignoreTimestamp := true));
    if j < n {
      assert !PassesUndated(certs[n], x);
      FlagByBytes(certs[..n], x, j);
    }
  }

  /** The outcome, on the bytes of the certificates. */
  lemma SelectedByBytes(certs: seq<seq<Byte>>, x: Context, r: Option<CertInfo>)
    requires Selected(certs, x, r)
    ensures r.None? <==> forall i :: 0 <= i < |certs| ==> !Passes(certs[i], x)
    ensures r.Some? ==> exists i :: Wins(certs, x, i) && KeysOf(r.value, certs[i], x)
  {
    forall i | 0 <= i < |certs| ensures Passes(certs[i], x) <==> Acceptable(certs[i], x) {
      PassesIffAcceptable(certs[i], x);
    }
    if r.Some? {
      var i :| IsChoice(certs, x, i) && TakenFrom(r.value, certs[i], x);
      ChoiceWins(certs, x, i);
      PassesIffAcceptable(certs[i], x);
      assert KeysOf(r.value, certs[i], x);
    }
  }

  /** The selection loop. */
  method ChooseCert(answers: seq<AnswerRr>, x: Context) returns (r: Option<CertInfo>)
    ensures r.None? <==> forall i :: 0 <= i < |answers| ==> !Passes(BinCerts(answers)[i], x)
    ensures r.Some? ==> exists i :: Wins(BinCerts(answers), x, i) && KeysOf(r.value, BinCerts(answers)[i], x)
    ensures Selected(BinCerts(answers), x, r)
  {
    var info, highestSerial: nat := NO_CERT, 0;
    ghost var at := -1;
    NothingChosen(x);
    for i := 0 to |answers|
      invariant Chosen(BinCerts(answers[..i]), x, info, highestSerial, at)
    {
      BinCertsSnoc(answers, i);
      var next, serial, taken := ConsiderAnswer(answers[i], x, info, highestSerial);
      ConsideredExtendsChoice(BinCerts(answers[..i]), BinCert(answers[i]), x, info, highestSerial, at,
                              next, serial, taken);
      at := if taken then i else at;
      info, highestSerial := next, serial;
    }
    assert answers[..|answers|] == answers;
    ChosenIsSelected(BinCerts(answers), x, info, highestSerial, at);
    r := if info.construction == 0 then None else Some(info);
    SelectedByBytes(BinCerts(answers), x, r);
  }

  lemma ChoiceUnique(certs: seq<seq<Byte>>, x: Context, i: int, j: int)
    requires IsChoice(certs, x, i) && IsChoice(certs, x, j)
    ensures i == j
  {
  }

  // --- The forward-security flag ---

  predicate ShortLived(c: seq<Byte>)
    requires |c| >= 124
  {
    TsEnd(c) - TsBegin(c) <= WEEK
  }

  ghost predicate IsLastGenuine(certs: seq<seq<Byte>>, x: Context, j: int) {
    0 <= j < |certs| && Genuine(certs[j], x) && forall k :: j < k < |certs| ==> !Genuine(certs[k], x)
  }

  lemma {:induction false} FlagOfLastGenuine(certs: seq<seq<Byte>>, x: Context, j: int)
    requires IsLastGenuine(certs, x, j)
    ensures LastGenuineIsShort(certs, x) == ShortLived(certs[j])
  {
    var n := |certs| - 1;
    if j < n {
      assert !Genuine(certs[n], x);
      assert IsLastGenuine(certs[..n], x, j);
      FlagOfLastGenuine(certs[..n], x, j);
    }
  }

  lemma {:induction false} LastGenuineFrom(certs: seq<seq<Byte>>, x: Context, i: int) returns (j: int)
    requires 0 <= i < |certs| && Genuine(certs[i], x)
    ensures i <= j && IsLastGenuine(certs, x, j)
    decreases |certs| - i
  {
    if k :| i < k < |certs| && Genuine(certs[k], x) {
      j := LastGenuineFrom(certs, x, k);
    } else {
      j := i;
    }
  }

  /** No acceptable certificate is better than the acceptable `c`. */
  ghost predicate Greatest(c: seq<Byte>, certs: seq<seq<Byte>>, x: Context) {
    Acceptable(c, x) && forall d :: d in certs && Acceptable(d, x) ==> !Precedes(c, d)
  }

  /** The flag that comes with the chosen certificate is what that certificate says. */
  ghost predicate FlagIsOwn(certs: seq<seq<Byte>>, x: Context) {
    forall i :: IsChoice(certs, x, i) ==> LastGenuineIsShort(certs, x) == ShortLived(certs[i])
  }

  /** Genuine certificates that cannot win live as long, measured by a week, as those that can. */
  ghost predicate LosersAgree(certs: seq<seq<Byte>>, x: Context) {
    forall c, d :: c in certs && d in certs && Greatest(c, certs, x) && Genuine(d, x) && !Greatest(d, certs, x) ==>
      ShortLived(c) == ShortLived(d)
  }

  lemma AgreeingLosersAreHarmless(certs: seq<seq<Byte>>, order: seq<seq<Byte>>, x: Context, i: int)
    requires multiset(order) == multiset(certs) && LosersAgree(certs, x) && IsChoice(order, x, i)
    ensures LastGenuineIsShort(order, x) == ShortLived(order[i])
  {
    var j := LastGenuineFrom(order, x, i);
    FlagOfLastGenuine(order, x, j);
    assert order[i] in multiset(certs) && order[j] in multiset(certs);
    ChoiceIsGreatest(certs, order, x, i);
    assert i < j ==> !Greatest(order[j], certs, x);
  }

  lemma ChoiceIsGreatest(certs: seq<seq<Byte>>, order: seq<seq<Byte>>, x: Context, i: int)
    requires multiset(order) == multiset(certs) && IsChoice(order, x, i)
    ensures Greatest(order[i], certs, x)
  {
    forall d | d in certs && Acceptable(d, x) ensures !Precedes(order[i], d) {
      assert d in multiset(order);
      var k :| 0 <= k < |order| && order[k] == d;
    }
  }

  lemma ToTheEnd<T>(s: seq<T>, x: T) returns (t: seq<T>)
    requires x in s
    ensures |t| + 1 == |s| && multiset(t + [x]) == multiset(s)
  {
    var k :| 0 <= k < |s| && s[k] == x;
    t := s[..k] + s[k + 1..];
    assert s == s[..k] + [x] + s[k + 1..];
  }

  lemma BothToTheEnd<T>(s: seq<T>, x: T, y: T) returns (t: seq<T>)
    requires x in s && y in s && x != y
    ensures multiset(t + [x] + [y]) == multiset(s)
  {
    var rest := ToTheEnd(s, y);
    assert x in multiset(rest + [y]);
    assert x in rest;
    t := ToTheEnd(rest, x);
    assert multiset(t + [x] + [y]) == multiset(t + [x]) + multiset{y} == multiset(rest + [y]);
  }

  lemma LoserPrecedesWinner(certs: seq<seq<Byte>>, x: Context, c: seq<Byte>, d: seq<Byte>)
    requires Greatest(c, certs, x) && Acceptable(d, x) && !Greatest(d, certs, x)
    ensures Precedes(d, c)
  {
    var better :| better in certs && Acceptable(better, x) && Precedes(d, better);
    assert !Precedes(c, better);
  }

  lemma {:induction false} WinnerInFront(certs: seq<seq<Byte>>, order: seq<seq<Byte>>, x: Context,
                                         c: seq<Byte>, d: seq<Byte>)
    requires multiset(order + [c] + [d]) == multiset(certs)
    requires Greatest(c, certs, x) && Genuine(d, x) && !Greatest(d, certs, x)
    ensures IsChoice(order + [c] + [d], x, |order|)
  {
    var all := order + [c] + [d];
    forall j | 0 <= j < |all| && Acceptable(all[j], x) ensures !Precedes(c, all[j]) {
      assert all[j] in multiset(certs);
    }
    if Acceptable(d, x) {
      LoserPrecedesWinner(certs, x, c, d);
    }
  }

  /** Behind the best certificate, a loser of the other kind overwrites the flag. */
  lemma {:induction false} LoserBehindWinner(certs: seq<seq<Byte>>, order: seq<seq<Byte>>, x: Context,
                                             c: seq<Byte>, d: seq<Byte>)
    requires multiset(order + [c] + [d]) == multiset(certs)
    requires Greatest(c, certs, x) && Genuine(d, x) && !Greatest(d, certs, x)
    ensures IsChoice(order + [c] + [d], x, |order|)
    ensures LastGenuineIsShort(order + [c] + [d], x) == ShortLived(d)
  {
    WinnerInFront(certs, order, x, c, d);
    assert IsLastGenuine(order + [c] + [d], x, |order| + 1);
    FlagOfLastGenuine(order + [c] + [d], x, |order| + 1);
  }

  /** Exactly when the flag is right in whatever order the certificates arrive. The flag is set before
      the last checks, so a genuine certificate that is not chosen can overwrite it. */
  lemma FlagIsOwnIff(certs: seq<seq<Byte>>, x: Context)
    ensures (forall order :: multiset(order) == multiset(certs) ==> FlagIsOwn(order, x)) <==> LosersAgree(certs, x)
  {
    if LosersAgree(certs, x) {
      forall order | multiset(order) == multiset(certs) ensures FlagIsOwn(order, x) {
        forall i | IsChoice(order, x, i) ensures LastGenuineIsShort(order, x) == ShortLived(order[i]) {
          AgreeingLosersAreHarmless(certs, order, x, i);
        }
      }
    } else {
      var c, d :| c in certs && d in certs && Greatest(c, certs, x) && Genuine(d, x) && !Greatest(d, certs, x) &&
                  ShortLived(c) != ShortLived(d);
      var order := BothToTheEnd(certs, c, d);
      LoserBehindWinner(certs, order, x, c, d);
      assert !FlagIsOwn(order + [c] + [d], x);
    }
  }

  function CertFor(begin: seq<Byte>, end: seq<Byte>): (c: seq<Byte>)
    requires |begin| == 4 && |end| == 4
    ensures |c| == 124 && c[..4] == CERT_MAGIC && c[4] == 0 && c[5] == 1
    ensures c[116..120] == begin && c[120..124] == end
  {
    CERT_MAGIC + [0, 1] + seq(110, _ => 0) + begin + end
  }

  /** A certificate for ten seconds is chosen, in front of one for a long period that has not begun: the
      flag denies forward security. */
  lemma ForwardSecurityOfAnother()
    ensures var x := Context((_, _) => true, (_, _) => [], 5, false);
            var c, d := CertFor([0, 0, 0, 0], [0, 0, 0, 10]), CertFor([1, 0, 0, 0], [2, 0, 0, 0]);
            IsChoice([c, d], x, 0) && ShortLived(c) && !LastGenuineIsShort([c, d], x)
  {
    var x := Context((_, _) => true, (_, _) => [], 5, false);
    var c, d := CertFor([0, 0, 0, 0], [0, 0, 0, 10]), CertFor([1, 0, 0, 0], [2, 0, 0, 0]);
    assert TsBegin(c) == 0 && TsEnd(c) == 10;
    assert TsBegin(d) == 16777216 && TsEnd(d) == 33554432;
    assert Genuine(c, x) && Genuine(d, x) && Acceptable(c, x) && !Acceptable(d, x);
    assert IsLastGenuine([c, d], x, 1);
    FlagOfLastGenuine([c, d], x, 1);
  }
}
