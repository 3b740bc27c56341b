/** The human-readable PROXY header, version 1: how the proxy prints it and how the backend reads it. */
module ProxyProtocol {
  import opened Bytes
  import opened Text

  datatype Option<T> = None | Some(value: T)

  const PREFIX: seq<Byte> := [80, 82, 79, 88, 89, 32]              // "PROXY "
  const PROXY: seq<Byte> := [80, 82, 79, 88, 89]                   // "PROXY"
  const TCP4: seq<Byte> := [84, 67, 80, 52]                        // "TCP4"
  const TCP6: seq<Byte> := [84, 67, 80, 54]                        // "TCP6"
  const UNKNOWN_FAMILY: seq<Byte> := [85, 78, 75, 78, 79, 87, 78]  // "UNKNOWN"
  const UNKNOWN_IP: seq<Byte> := [117, 110, 107, 110, 111, 119, 110] // "unknown"
  const CRLF: seq<Byte> := [CR, LF]
  const MAX_LINE: nat := 107

  // ------------------------------------------------------------------ printing

  datatype Family = Inet | Inet6 | Inet6Mapped | OtherFamily

  /** A socket address; `text` is what inet_ntop makes of it, or None when it fails. */
  datatype SockAddr = SockAddr(family: Family, text: Option<seq<Byte>>, port: nat)

  /** Texts of addresses: short, ASCII, and free of the header's separators. */
  predicate IsIpText(t: seq<Byte>) {
    0 < |t| <= 39 && forall b :: b in t ==> b < 128 && b != SPACE && b != CR && b != LF
  }

  predicate WellFormed(a: SockAddr) {
    a.port < 65536 && (a.text.Some? ==> IsIpText(a.text.value))
  }

  function PeerIp(a: SockAddr): seq<Byte> {
    if a.family.OtherFamily? || a.text.None? then UNKNOWN_IP else a.text.value
  }

  datatype Effective = AfInet | AfInet6 | AfUnspec

  function EffectiveFamily(a: SockAddr): Effective {
    match a.family
    case Inet => AfInet
    case Inet6Mapped => AfInet
    case Inet6 => AfInet6
    case OtherFamily => AfUnspec
  }

  function SockPort(a: SockAddr): nat {
    if a.family.OtherFamily? then 0 else a.port
  }

  function Decimal(n: nat): seq<Byte> {
    if n < 10 then [48 + n as Byte] else Decimal(n / 10) + [48 + (n % 10) as Byte]
  }

  const UNKNOWN_HEADER: seq<Byte> := PREFIX + UNKNOWN_FAMILY + CRLF

  function FormatProxyV1(src: SockAddr, dst: SockAddr): seq<Byte> {
    var srcIp, dstIp := PeerIp(src), PeerIp(dst);
    var srcFam, dstFam := EffectiveFamily(src), EffectiveFamily(dst);
    if srcIp == UNKNOWN_IP || dstIp == UNKNOWN_IP then UNKNOWN_HEADER
    else if (srcFam.AfInet? && dstFam.AfInet?) || (srcFam.AfInet6? && dstFam.AfInet6?) then
      PREFIX + (if srcFam.AfInet? then TCP4 else TCP6) + [SPACE] + srcIp + [SPACE] + dstIp + [SPACE]
      + Decimal(SockPort(src)) + [SPACE] + Decimal(SockPort(dst)) + CRLF
    else UNKNOWN_HEADER
  }

  /** Whether the printed header names the client. */
  predicate Named(src: SockAddr, dst: SockAddr) {
    && PeerIp(src) != UNKNOWN_IP && PeerIp(dst) != UNKNOWN_IP
    && EffectiveFamily(src) == EffectiveFamily(dst) != AfUnspec
  }

  // ------------------------------------------------------------------ reading

  predicate IsBlank(b: Byte) {
    9 <= b <= 13 || b == 32
  }

  predicate IsDigit(b: Byte) {
    48 <= b <= 57
  }

  function DropBlanks(s: seq<Byte>): seq<Byte> {
    if s != [] && IsBlank(s[0]) then DropBlanks(s[1..])
    else if s != [] && IsBlank(s[|s| - 1]) then DropBlanks(s[..|s| - 1])
    else s
  }

  predicate AllDigits(s: seq<Byte>) {
    forall i :: 0 <= i < |s| ==> IsDigit(s[i])
  }

  /** Groups of digits with single underscores between them. */
  predicate IsDigitRun(s: seq<Byte>) {
    var groups := Split(s, 95);
    forall i :: 0 <= i < |groups| ==> groups[i] != [] && AllDigits(groups[i])
  }

  function OnlyDigits(s: seq<Byte>): seq<Byte> {
    if s == [] then [] else (if IsDigit(s[0]) then [s[0]] else []) + OnlyDigits(s[1..])
  }

  function Value(digits: seq<Byte>): int {
    if digits == [] then 0 else 10 * Value(digits[..|digits| - 1]) + digits[|digits| - 1] as int - 48
  }

  const MAX_INT_DIGITS: nat := 4300

  /** Python's int() on ASCII text. */
  function PyInt(s: seq<Byte>): Option<int> {
    var t := DropBlanks(s);
    var signed := t != [] && (t[0] == 43 || t[0] == 45);
    var body := if signed then t[1..] else t;
    if !IsDigitRun(body) || |OnlyDigits(body)| > MAX_INT_DIGITS then None
    else Some(if signed && t[0] == 45 then -Value(OnlyDigits(body)) else Value(OnlyDigits(body)))
  }

  datatype Parsed = Parsed(ip: seq<Byte>, port: int)

  function ParseProxyV1Line(line: seq<Byte>): Option<Parsed> {
    if exists b :: b in line && b >= 128 then None
    else
      var parts := Split(line, SPACE);
      if |parts| < 6 || parts[0] != PROXY then None
      else if parts[1] != TCP4 && parts[1] != TCP6 then None
      else if parts[2] == [] then None
      else match PyInt(parts[4])
        case None => None
        case Some(port) => if port < 0 || port > 65535 then None else Some(Parsed(parts[2], port))
  }

  // ------------------------------------------------------------------ what is printed is read back

  lemma {:induction false} DecimalReadsBack(n: nat)
    ensures Decimal(n) != [] && forall b :: b in Decimal(n) ==> IsDigit(b)
    ensures Value(Decimal(n)) == n
    ensures n < 65536 ==> |Decimal(n)| <= 5
  {
    if n >= 10 {
      DecimalReadsBack(n / 10);
      DecimalLength(n);
      var d := Decimal(n);
      assert d[..|d| - 1] == Decimal(n / 10);
    }
  }

  lemma DecimalLength(n: nat)
    ensures n < 65536 ==> |Decimal(n)| <= 5
  {
    if n < 65536 {
      var a := n / 10;
      var b := a / 10;
      var c := b / 10;
      assert c / 10 < 10;
      assert |Decimal(c)| <= 2 && |Decimal(b)| <= 3 && |Decimal(a)| <= 4;
    }
  }

  lemma {:induction false} OnlyDigitsOfDigits(s: seq<Byte>)
    requires forall b :: b in s ==> IsDigit(b)
    ensures OnlyDigits(s) == s
  {
    if s != [] {
      OnlyDigitsOfDigits(s[1..]);
    }
  }

  lemma PortReadsBack(n: nat)
    requires n < 65536
    ensures PyInt(Decimal(n)) == Some(n)
  {
    DecimalReadsBack(n);
    OnlyDigitsOfDigits(Decimal(n));
    SplitPlain(Decimal(n), 95);
    RunEnds(Decimal(n));
  }

  /** The header line without its CRLF. */
  function HeaderLine(src: SockAddr, dst: SockAddr): seq<Byte> {
    var h := FormatProxyV1(src, dst);
    if |h| < 2 then h else h[..|h| - 2]
  }

  /** The fields of a header that names the client. */
  function Fields(src: SockAddr, dst: SockAddr): seq<seq<Byte>> {
    [PROXY, if EffectiveFamily(src).AfInet? then TCP4 else TCP6, PeerIp(src), PeerIp(dst),
     Decimal(SockPort(src)), Decimal(SockPort(dst))]
  }

  lemma JoinSix(a: seq<Byte>, b: seq<Byte>, c: seq<Byte>, d: seq<Byte>, e: seq<Byte>, f: seq<Byte>)
    ensures Join([a, b, c, d, e, f], SPACE) == a + [SPACE] + b + [SPACE] + c + [SPACE] + d + [SPACE] + e + [SPACE] + f
  {
    var fields := [a, b, c, d, e, f];
    assert fields[1..] == [b, c, d, e, f] && [b, c, d, e, f][1..] == [c, d, e, f] && [c, d, e, f][1..] == [d, e, f];
    assert [d, e, f][1..] == [e, f] && [e, f][1..] == [f];
    assert Join([e, f], SPACE) == e + [SPACE] + f;
    assert Join([d, e, f], SPACE) == d + [SPACE] + (e + [SPACE] + f);
    assert Join([c, d, e, f], SPACE) == c + [SPACE] + (d + [SPACE] + (e + [SPACE] + f));
    assert Join([b, c, d, e, f], SPACE) == b + [SPACE] + (c + [SPACE] + (d + [SPACE] + (e + [SPACE] + f)));
  }

  lemma HeaderIsJoin(src: SockAddr, dst: SockAddr)
    requires Named(src, dst)
    ensures FormatProxyV1(src, dst) == Join(Fields(src, dst), SPACE) + CRLF
    ensures HeaderLine(src, dst) == Join(Fields(src, dst), SPACE)
  {
    var f := Fields(src, dst);
    JoinSix(f[0], f[1], f[2], f[3], f[4], f[5]);
    assert PREFIX == PROXY + [SPACE];
    var line := f[0] + [SPACE] + f[1] + [SPACE] + f[2] + [SPACE] + f[3] + [SPACE] + f[4] + [SPACE] + f[5];
    assert FormatProxyV1(src, dst) == line + CRLF;
    assert (line + CRLF)[..|line + CRLF| - 2] == line;
  }

  /** ASCII and free of carriage returns. */
  predicate Clean(s: seq<Byte>) {
    forall b :: b in s ==> b < 128 && b != CR
  }

  lemma FieldsAreClean(src: SockAddr, dst: SockAddr)
    requires WellFormed(src) && WellFormed(dst)
    ensures forall p :: p in Fields(src, dst) ==> Clean(p) && SPACE !in p
    ensures |Decimal(SockPort(src))| <= 5 && |Decimal(SockPort(dst))| <= 5 && |PeerIp(src)| <= 39 && |PeerIp(dst)| <= 39
  {
    DecimalReadsBack(SockPort(src));
    DecimalReadsBack(SockPort(dst));
  }

  lemma {:induction false} JoinIsClean(parts: seq<seq<Byte>>)
    requires forall p :: p in parts ==> Clean(p)
    ensures Clean(Join(parts, SPACE))
  {
    if |parts| > 1 {
      JoinIsClean(parts[1..]);
      assert Clean(parts[0]);
    }
  }

  lemma UnknownReadsAsNone()
    ensures UNKNOWN_HEADER == PREFIX + UNKNOWN_FAMILY + CRLF
    ensures ParseProxyV1Line(PREFIX + UNKNOWN_FAMILY) == None
  {
    var line := PREFIX + UNKNOWN_FAMILY;
    assert line == PROXY + [SPACE] + UNKNOWN_FAMILY;
    SplitAtSep(PROXY, UNKNOWN_FAMILY, SPACE);
    SplitPlain(PROXY, SPACE);
    SplitPlain(UNKNOWN_FAMILY, SPACE);
  }

  /**
   * The header the proxy prints is read back as the client address and port it was printed from,
   * unless the proxy could not name them; then it is read as no address at all.
   */
  lemma HeaderReadsBack(src: SockAddr, dst: SockAddr)
    requires WellFormed(src) && WellFormed(dst)
    ensures ParseProxyV1Line(HeaderLine(src, dst)) ==
              if Named(src, dst) then Some(Parsed(PeerIp(src), SockPort(src))) else None
  {
    if Named(src, dst) {
      hide Decimal, PyInt;
      var fields := Fields(src, dst);
      HeaderIsJoin(src, dst);
      FieldsAreClean(src, dst);
      JoinIsClean(fields);
      SplitJoin(fields, SPACE);
      PortReadsBack(SockPort(src));
    } else {
      UnknownReadsAsNone();
      assert HeaderLine(src, dst) == PREFIX + UNKNOWN_FAMILY;
    }
  }

  /** Every printed header fits the protocol's limit, and its only CRLF is the one that ends it. */
  lemma HeaderIsFramed(src: SockAddr, dst: SockAddr)
    requires WellFormed(src) && WellFormed(dst)
    ensures FormatProxyV1(src, dst) == HeaderLine(src, dst) + CRLF
    ensures PREFIX <= HeaderLine(src, dst) && CR !in HeaderLine(src, dst)
    ensures |FormatProxyV1(src, dst)| <= MAX_LINE
  {
    if Named(src, dst) {
      hide Decimal;
      var f := Fields(src, dst);
      HeaderIsJoin(src, dst);
      FieldsAreClean(src, dst);
      JoinIsClean(f);
      JoinSix(f[0], f[1], f[2], f[3], f[4], f[5]);
      assert PREFIX == PROXY + [SPACE];
    } else {
      assert HeaderLine(src, dst) == PREFIX + UNKNOWN_FAMILY;
    }
  }

  // ------------------------------------------------------------------ the header and the reader, in figures

  predicate Spells(bytes: seq<Byte>, text: string) {
    |bytes| == |text| && forall i :: 0 <= i < |bytes| ==> bytes[i] as int == text[i] as int
  }

  lemma ConstantsSpell()
    ensures Spells(PREFIX, "PROXY ") && Spells(PROXY, "PROXY") && Spells(TCP4, "TCP4") && Spells(TCP6, "TCP6")
    ensures Spells(UNKNOWN_HEADER, "PROXY UNKNOWN\r\n") && Spells(UNKNOWN_IP, "unknown") && Spells(CRLF, "\r\n")
    ensures Spells([SPACE], " ") && Spells(Decimal(65535), "65535") && MAX_LINE == 107
  {
    assert UNKNOWN_HEADER == [80, 82, 79, 88, 89, 32, 85, 78, 75, 78, 79, 87, 78, 13, 10];
    assert Decimal(6) == [54] && Decimal(65) == [54, 53] && Decimal(655) == [54, 53, 53] && Decimal(6553) == [54, 53, 53, 51];
  }

  /**
   * What is printed: TCP4 between two IPv4 addresses, plain or mapped into IPv6, TCP6 between two other IPv6
   * addresses, with source before destination, addresses before ports; anything else is unknown.
   */
  lemma HeaderExactly(src: SockAddr, dst: SockAddr)
    ensures
      var v4 := src.family in {Inet, Inet6Mapped} && dst.family in {Inet, Inet6Mapped};
      var v6 := src.family == Inet6 && dst.family == Inet6;
      var known := src.text.Some? && dst.text.Some? && src.text.value != UNKNOWN_IP && dst.text.value != UNKNOWN_IP;
      && (Named(src, dst) <==> known && (v4 || v6))
      && FormatProxyV1(src, dst) ==
           if known && (v4 || v6) then
             Join([PROXY, if v4 then TCP4 else TCP6, src.text.value, dst.text.value, Decimal(src.port), Decimal(dst.port)], SPACE) + CRLF
           else UNKNOWN_HEADER
  {
    if Named(src, dst) {
      HeaderIsJoin(src, dst);
    }
  }

  /** These fields, joined by single spaces, are the line, and they announce a TCP client. */
  ghost predicate Announces(line: seq<Byte>, fields: seq<seq<Byte>>) {
    && |fields| >= 6 && (forall f :: f in fields ==> SPACE !in f) && Join(fields, SPACE) == line
    && fields[0] == PROXY && fields[1] in {TCP4, TCP6} && fields[2] != []
  }

  /**
   * What is read, for every line: an address and a port if and only if the line is ASCII and consists of six or more
   * fields beginning with PROXY, TCP4 or TCP6 and a non-empty address, the fifth being an integer from 0 to 65535.
   */
  lemma ParsesExactly(line: seq<Byte>, ip: seq<Byte>, port: int)
    ensures ParseProxyV1Line(line) == Some(Parsed(ip, port)) <==>
      && (forall b :: b in line ==> b < 128) && 0 <= port <= 65535
      && exists fields :: Announces(line, fields) && fields[2] == ip && PyInt(fields[4]) == Some(port)
  {
    hide PyInt;
    var parts := Split(line, SPACE);
    JoinSplit(line, SPACE);
    SplitPiecesPlain(line, SPACE);
    if ParseProxyV1Line(line) == Some(Parsed(ip, port)) {
      assert Announces(line, parts);
    }
    forall fields | Announces(line, fields)
      ensures fields == parts
    {
      SplitJoin(fields, SPACE);
    }
  }

  // ------------------------------------------------------------------ integers as Python reads them

  ghost predicate AllBlank(s: seq<Byte>) {
    forall i :: 0 <= i < |s| ==> s[i] == 32 || 9 <= s[i] <= 13
  }

  /** The text is blanks, an optional sign, groups of digits with single underscores between them, and blanks. */
  ghost predicate IntText(s: seq<Byte>, front: seq<Byte>, sign: seq<Byte>, body: seq<Byte>, back: seq<Byte>) {
    && s == front + sign + body + back && AllBlank(front) && AllBlank(back)
    && (sign == [] || sign == [43] || sign == [45])
    && var groups := Split(body, 95);
       forall i :: 0 <= i < |groups| ==> groups[i] != [] && forall j :: 0 <= j < |groups[i]| ==> 48 <= groups[i][j] <= 57
  }

  lemma {:induction false} SplitEnds(s: seq<Byte>)
    ensures Split(s, 95)[0] <= s
    ensures var last := Split(s, 95)[|Split(s, 95)| - 1]; |last| <= |s| && last == s[|s| - |last|..]
    ensures |Split(s, 95)| == 1 ==> Split(s, 95)[0] == s
  {
    if s != [] {
      SplitEnds(s[1..]);
      var rest := Split(s[1..], 95);
      var last := rest[|rest| - 1];
      assert s[1..][|s| - 1 - |last|..] == s[|s| - |last|..];
    }
  }

  lemma RunEnds(s: seq<Byte>)
    requires IsDigitRun(s)
    ensures s != [] && IsDigit(s[0]) && IsDigit(s[|s| - 1])
  {
    SplitEnds(s);
    var groups := Split(s, 95);
    var first, last := groups[0], groups[|groups| - 1];
    assert first[0] == s[0] && last[|last| - 1] == s[|s| - 1];
  }

  lemma {:induction false} DropBlanksStrips(s: seq<Byte>) returns (front: seq<Byte>, back: seq<Byte>)
    ensures s == front + DropBlanks(s) + back && AllBlank(front) && AllBlank(back)
    decreases |s|
  {
    front, back := [], [];
    if s != [] && IsBlank(s[0]) {
      front, back := DropBlanksStrips(s[1..]);
      assert s == [s[0]] + (front + DropBlanks(s) + back) == ([s[0]] + front) + DropBlanks(s) + back;
      front := [s[0]] + front;
    } else if s != [] && IsBlank(s[|s| - 1]) {
      front, back := DropBlanksStrips(s[..|s| - 1]);
      assert s == s[..|s| - 1] + [s[|s| - 1]];
      assert s == front + DropBlanks(s) + (back + [s[|s| - 1]]);
      back := back + [s[|s| - 1]];
    }
  }

  lemma {:induction false} DropBlanksKeeps(front: seq<Byte>, t: seq<Byte>, back: seq<Byte>)
    requires AllBlank(front) && AllBlank(back) && t != [] && !IsBlank(t[0]) && !IsBlank(t[|t| - 1])
    ensures DropBlanks(front + t + back) == t
    decreases |front| + |back|
  {
    var s := front + t + back;
    if front != [] {
      assert s[0] == front[0] && s[1..] == front[1..] + t + back;
      DropBlanksKeeps(front[1..], t, back);
    } else if back != [] {
      assert s[0] == t[0] && s[|s| - 1] == back[|back| - 1];
      assert s[..|s| - 1] == front + t + back[..|back| - 1];
      DropBlanksKeeps(front, t, back[..|back| - 1]);
    } else {
      assert s == t;
    }
  }

  /** What a text of that form denotes; Python refuses more than 4300 digits. */
  function Denoted(sign: seq<Byte>, body: seq<Byte>): Option<int> {
    if |OnlyDigits(body)| > 4300 then None
    else Some(if sign == [45] then -Value(OnlyDigits(body)) else Value(OnlyDigits(body)))
  }

  /** int() gives a number exactly for texts of that form, and it is the number they denote. */
  lemma PyIntExactly(s: seq<Byte>, n: int)
    ensures PyInt(s) == Some(n) <==>
      exists front, sign, body, back :: IntText(s, front, sign, body, back) && Denoted(sign, body) == Some(n)
  {
    hide OnlyDigits, Value, Split, Denoted, DropBlanks, IsDigitRun, IntText, PyInt;
    if PyInt(s) == Some(n) {
      var front, sign, body, back := PyIntForm(s);
      IntTextReads(s, front, sign, body, back);
    }
    forall front, sign, body, back | IntText(s, front, sign, body, back)
      ensures PyInt(s) == Denoted(sign, body)
    {
      IntTextReads(s, front, sign, body, back);
    }
  }

  lemma PyIntForm(s: seq<Byte>) returns (front: seq<Byte>, sign: seq<Byte>, body: seq<Byte>, back: seq<Byte>)
    requires PyInt(s).Some?
    ensures IntText(s, front, sign, body, back)
  {
    hide OnlyDigits, Value, Split, DropBlanks;
    front, back := DropBlanksStrips(s);
    var t := DropBlanks(s);
    var signed := t != [] && (t[0] == 43 || t[0] == 45);
    sign, body := if signed then [t[0]] else [], if signed then t[1..] else t;
    assert t == sign + body;
    assert s == front + sign + body + back;
  }

  lemma IntTextReads(s: seq<Byte>, front: seq<Byte>, sign: seq<Byte>, body: seq<Byte>, back: seq<Byte>)
    requires IntText(s, front, sign, body, back)
    ensures PyInt(s) == Denoted(sign, body)
  {
    hide OnlyDigits, Value, Split, DropBlanks;
    RunEnds(body);
    var t := sign + body;
    assert t[|t| - 1] == body[|body| - 1] && t[0] == if sign == [] then body[0] else sign[0];
    assert s == front + t + back;
    DropBlanksKeeps(front, t, back);
    assert if sign == [] then t == body else t[1..] == body;
  }

  // ------------------------------------------------------------------ decimal notation

  lemma NoDigits()
    ensures OnlyDigits([]) == []
  {
  }

  lemma OnlyDigitsOfMore(first: Byte, rest: seq<Byte>)
    ensures OnlyDigits([first] + rest) == (if IsDigit(first) then [first] else []) + OnlyDigits(rest)
  {
    assert ([first] + rest)[1..] == rest;
  }

  /** Underscores are dropped, digits stay, in order. */
  lemma {:induction false} OnlyDigitsOfConcat(a: seq<Byte>, b: seq<Byte>)
    ensures OnlyDigits(a + b) == OnlyDigits(a) + OnlyDigits(b)
    ensures OnlyDigits([95]) == []
  {
    hide OnlyDigits;
    OnlyDigitsOfMore(95, []);
    NoDigits();
    assert [95] == [95] + [];
    if a == [] {
      assert a + b == b;
    } else {
      OnlyDigitsOfConcat(a[1..], b);
      OnlyDigitsOfMore(a[0], a[1..]);
      OnlyDigitsOfMore(a[0], a[1..] + b);
      assert a == [a[0]] + a[1..] && a + b == [a[0]] + (a[1..] + b);
    }
  }

  function Zeros(k: nat): (z: seq<Byte>)
    ensures |z| == k && forall i :: 0 <= i < k ==> z[i] == 48
  {
    seq(k, _ => 48)
  }

  lemma ValueOfMore(front: seq<Byte>, last: Byte)
    ensures Value(front + [last]) == 10 * Value(front) + last as int - 48
  {
    assert (front + [last])[..|front|] == front;
  }

  lemma DecimalOfMore(n: nat, last: Byte)
    requires IsDigit(last) && n > 0
    ensures Decimal(10 * n + (last as int - 48)) == Decimal(n) + [last]
  {
    var m := 10 * n + (last as int - 48);
    assert m / 10 == n && m % 10 == last as int - 48;
  }

  /** Every run of digits is some zeros before the decimal notation of its value, which has no leading zero itself. */
  lemma {:induction false} DigitsAreDecimal(s: seq<Byte>) returns (k: nat)
    requires s != [] && AllDigits(s)
    ensures Value(s) >= 0 && s == Zeros(k) + Decimal(Value(s))
    ensures Value(s) > 0 ==> Decimal(Value(s)) != [] && Decimal(Value(s))[0] != 48
    decreases |s|
  {
    hide Value, Decimal;
    var front, last := s[..|s| - 1], s[|s| - 1];
    assert s == front + [last];
    ValueOfMore(front, last);
    OneDigit(last as int - 48);
    if front == [] {
      k := 0;
      ValueOfNothing();
    } else {
      k := DigitsAreDecimal(front);
      if Value(front) == 0 {
        OneDigit(0);
        assert Zeros(k) + [48] == Zeros(k + 1);
        k := k + 1;
      } else {
        DecimalOfMore(Value(front), last);
        assert s == Zeros(k) + (Decimal(Value(front)) + [last]);
      }
    }
  }

  lemma ValueOfNothing()
    ensures Value([]) == 0
  {
  }

  lemma OneDigit(n: nat)
    requires n < 10
    ensures Decimal(n) == [48 + n as Byte]
  {
  }
}
