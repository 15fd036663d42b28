/**
 HTTP/1.1 messages (section 3 of RFC 7230) as the command-line client builds and parses them.

 Headers are text, bodies are bytes; the boundary is the first CRLF CRLF of the message.
 */
module Http {
  import opened Base
  import opened Decimal
  import opened Utf8

  // ---- Text primitives --------------------------------------------------------

  const CRLF := "\r\n"

  /** Split at the first occurrence of a character. */
  function Cut(s: string, c: char): (r: Option<(string, string)>)
    ensures r.None? <==> c !in s
    ensures r.Some? ==> s == r.value.0 + [c] + r.value.1 && c !in r.value.0
  {
    if s == "" then None
    else if s[0] == c then Some(("", s[1..]))
    else match Cut(s[1..], c)
      case None => None
      case Some((a, b)) => Some(([s[0]] + a, b))
  }

  /** Split at every CRLF, left to right. */
  function Split(s: string): (r: seq<string>)
    ensures |r| > 0
  {
    if |s| < 2 then [s]
    else if s[0] == '\r' && s[1] == '\n' then [""] + Split(s[2..])
    else var r := Split(s[1..]); [[s[0]] + r[0]] + r[1..]
  }

  function Join(lines: seq<string>): string
    requires |lines| > 0
  {
    if |lines| == 1 then lines[0] else lines[0] + CRLF + Join(lines[1..])
  }

  predicate NoCrlf(s: string) { forall i | 0 <= i < |s| - 1 :: !(s[i] == '\r' && s[i + 1] == '\n') }

  /** The Unicode White_Space property, which `str::trim` removes at both ends. */
  predicate White(c: char) {
    var n := c as int;
    || 9 <= n <= 13 || n == 0x20 || n == 0x85 || n == 0xA0 || n == 0x1680 || 0x2000 <= n <= 0x200A
    || n == 0x2028 || n == 0x2029 || n == 0x202F || n == 0x205F || n == 0x3000
  }

  function TrimStart(s: string): string { if s != "" && White(s[0]) then TrimStart(s[1..]) else s }

  function TrimEnd(s: string): string { if s != "" && White(s[|s| - 1]) then TrimEnd(s[..|s| - 1]) else s }

  function Trim(s: string): string { TrimEnd(TrimStart(s)) }

  predicate Trimmed(s: string) { s != "" ==> !White(s[0]) && !White(s[|s| - 1]) }

  // ---- Finding the boundary ---------------------------------------------------

  const DOUBLE: Bytes := [13, 10, 13, 10]

  predicate DoubleAt(d: Bytes, i: nat) { i + 4 <= |d| && d[i..i + 4] == DOUBLE }

  function FindDouble(d: Bytes, i: nat): Option<nat>
    decreases |d| - i
  {
    if i + 3 >= |d| then None else if DoubleAt(d, i) then Some(i) else FindDouble(d, i + 1)
  }

  lemma DoubleBytes(d: Bytes, i: nat)
    requires i + 3 < |d|
    ensures DoubleAt(d, i) <==> d[i] == 13 && d[i + 1] == 10 && d[i + 2] == 13 && d[i + 3] == 10
  {
    var four := d[i..i + 4];
    assert four == [d[i], d[i + 1], d[i + 2], d[i + 3]];
    assert four == DOUBLE <==> four[0] == 13 && four[1] == 10 && four[2] == 13 && four[3] == 10;
  }

  /** The program's scan. */
  method FindDoubleCrlf(data: Bytes) returns (r: Option<nat>)
    ensures r == FindDouble(data, 0)
    ensures r.Some? ==> DoubleAt(data, r.value) && forall j | 0 <= j < r.value :: !DoubleAt(data, j)
    ensures r.None? ==> forall j | 0 <= j :: !DoubleAt(data, j)
  {
    var i := 0;
    while i + 3 < |data|
      invariant FindDouble(data, 0) == FindDouble(data, i)
      invariant forall j | 0 <= j < i :: !DoubleAt(data, j)
    {
      DoubleBytes(data, i);
      if data[i] == 13 && data[i + 1] == 10 && data[i + 2] == 13 && data[i + 3] == 10 {
        return Some(i);
      }
      i := i + 1;
    }
    return None;
  }

  lemma {:induction false} FindDoubleIs(d: Bytes, i: nat, k: nat)
    requires i <= k && DoubleAt(d, k) && forall j | i <= j < k :: !DoubleAt(d, j)
    ensures FindDouble(d, i) == Some(k)
    decreases k - i
  {
    if i < k { FindDoubleIs(d, i + 1, k); }
  }

  // ---- Messages ---------------------------------------------------------------

  type Header = (string, string)

  datatype Response = Response(code: u16, text: string, headers: seq<Header>, body: Bytes)

  /** Header section lines and body of a complete message. */
  function Sections(data: Bytes): (r: Option<(seq<string>, Bytes)>)
    ensures r.Some? ==> |r.value.0| > 0
  {
    match FindDouble(data, 0)
    case None => None
    case Some(sep) =>
      if sep + 4 > |data| then None
      else match Decode(data[..sep])
        case None => None
        case Some(text) => Some((Split(text), data[sep + 4..]))
  }

  function ParseStatus(line: string): Option<(u16, string)> {
    match Cut(line, ' ')
    case None => None
    case Some((_, rest)) =>
      var (code, reason) := match Cut(rest, ' ') case None => (rest, "") case Some(cr) => cr;
      (match ParseU16(code) case None => None case Some(n) => Some((n, reason)))
  }

  function ParseHeaders(lines: seq<string>): seq<Header> {
    if lines == [] || lines[0] == "" then []
    else match Cut(lines[0], ':')
      case None => ParseHeaders(lines[1..])
      case Some((name, value)) => [(Trim(name), Trim(value))] + ParseHeaders(lines[1..])
  }

  function FieldOf(line: string): seq<Header> {
    match Cut(line, ':')
    case None => []
    case Some((name, value)) => [(Trim(name), Trim(value))]
  }

  function Parse(data: Bytes): Option<Response> {
    match Sections(data)
    case None => None
    case Some((lines, body)) =>
      match ParseStatus(lines[0])
      case None => None
      case Some((code, reason)) => Some(Response(code, reason, ParseHeaders(lines[1..]), body))
  }

  lemma HeadersStop(lines: seq<string>)
    requires lines == [] || lines[0] == ""
    ensures ParseHeaders(lines) == []
  {
  }

  lemma HeadersContinue(lines: seq<string>)
    requires lines != [] && lines[0] != ""
    ensures ParseHeaders(lines) == FieldOf(lines[0]) + ParseHeaders(lines[1..])
  {
    hide Cut, Trim;
  }

  /** The loop over the lines after the status line. */
  method CollectHeaders(lines: seq<string>) returns (headers: seq<Header>)
    ensures headers == ParseHeaders(lines)
  {
    hide Cut, Trim, ParseHeaders;
    headers := [];
    var i := 0;
    assert lines[0..] == lines;
    while i < |lines| && lines[i] != ""
      invariant i <= |lines|
      invariant headers + ParseHeaders(lines[i..]) == ParseHeaders(lines)
    {
      HeadersContinue(lines[i..]);
      assert lines[i..][1..] == lines[i + 1..];
      var colon := Cut(lines[i], ':');
      if colon.Some? {
        headers := headers + [(Trim(colon.value.0), Trim(colon.value.1))];
      }
      i := i + 1;
    }
    HeadersStop(lines[i..]);
  }

  /** The program's parser. */
  method ParseResponse(data: Bytes) returns (r: Option<Response>)
    ensures r == Parse(data)
    ensures r.Some? ==> Representable(r.value)
  {
    hide FindDouble, Decode, Split, ParseStatus, ParseHeaders, Representable;
    ParsedIsRepresentable(data);
    var sep := FindDoubleCrlf(data);
    if sep.None? { return None; }
    var text := Decode(data[..sep.value]);
    if text.None? { return None; }
    var lines := Split(text.value);
    var status := ParseStatus(lines[0]);
    if status.None? { return None; }
    var headers := CollectHeaders(lines[1..]);
    return Some(Response(status.value.0, status.value.1, headers, data[sep.value + 4..]));
  }

  /** What a parsed response can look like: no CRLF inside a field, trimmed header fields, no colon in a name. */
  predicate Representable(r: Response) {
    && NoCrlf(r.text)
    && forall i | 0 <= i < |r.headers| :: CleanHeader(r.headers[i])
  }

  predicate CleanHeader(h: Header) {
    NoCrlf(h.0) && NoCrlf(h.1) && Trimmed(h.0) && Trimmed(h.1) && ':' !in h.0
  }

  function HeaderLine(h: Header): string { h.0 + ": " + h.1 }

  function StatusLine(r: Response): string { "HTTP/1.1 " + Print(r.code) + " " + r.text }

  function HeaderLines(hs: seq<Header>): (r: seq<string>)
    ensures |r| == |hs| && forall i | 0 <= i < |hs| :: r[i] == HeaderLine(hs[i])
  {
    seq(|hs|, i requires 0 <= i < |hs| => HeaderLine(hs[i]))
  }

  /** A message from its header-section lines and its body. */
  function Message(lines: seq<string>, body: Bytes): Bytes
    requires |lines| > 0
  {
    Encode(Join(lines)) + DOUBLE + body
  }

  /** The reference printer for responses. */
  function PrintResponse(r: Response): Bytes { Message([StatusLine(r)] + HeaderLines(r.headers), r.body) }

  // ---- Splitting undoes joining -----------------------------------------------

  lemma {:induction false} SplitLine(l: string, rest: string)
    requires NoCrlf(l)
    ensures Split(l) == [l] && Split(l + CRLF + rest) == [l] + Split(rest)
    decreases |l|
  {
    if l == "" {
      assert l + CRLF + rest == CRLF + rest;
      assert (CRLF + rest)[2..] == rest;
    } else {
      var s := l + CRLF + rest;
      assert s[1..] == l[1..] + CRLF + rest;
      assert s[0] == l[0] && s[1] == (if |l| > 1 then l[1] else '\r');
      SplitLine(l[1..], rest);
      assert l == [l[0]] + l[1..];
      assert ([l[1..]] + Split(rest))[1..] == Split(rest);
    }
  }

  lemma {:induction false} SplitJoin(lines: seq<string>)
    requires |lines| > 0 && forall i | 0 <= i < |lines| :: NoCrlf(lines[i])
    ensures Split(Join(lines)) == lines
    decreases |lines|
  {
    if |lines| == 1 {
      SplitLine(lines[0], "");
    } else {
      hide Join, Split, NoCrlf;
      JoinUnfold(lines);
      SplitLine(lines[0], Join(lines[1..]));
      SplitJoin(lines[1..]);
      assert lines == [lines[0]] + lines[1..];
    }
  }

  lemma {:induction false} JoinSplit(s: string)
    ensures Join(Split(s)) == s
    decreases |s|
  {
    if |s| >= 2 {
      if s[0] == '\r' && s[1] == '\n' {
        JoinSplit(s[2..]);
        assert Split(s)[1..] == Split(s[2..]);
        assert s == "" + CRLF + s[2..];
      } else {
        JoinSplit(s[1..]);
        JoinHead(s[0], Split(s[1..]));
        assert s == [s[0]] + s[1..];
      }
    }
  }

  lemma JoinUnfold(lines: seq<string>)
    requires |lines| > 1
    ensures Join(lines) == lines[0] + CRLF + Join(lines[1..])
  {
  }

  lemma Regroup(x: string, a: string, b: string, d: string)
    ensures (x + a) + b + d == x + (a + b + d)
  {
  }

  lemma JoinHead(c: char, pieces: seq<string>)
    requires |pieces| > 0
    ensures Join([[c] + pieces[0]] + pieces[1..]) == [c] + Join(pieces)
  {
    var longer := [[c] + pieces[0]] + pieces[1..];
    if |pieces| > 1 {
      hide Join;
      assert longer[1..] == pieces[1..];
      JoinUnfold(longer);
      JoinUnfold(pieces);
      Regroup([c], pieces[0], CRLF, Join(pieces[1..]));
    }
  }

  lemma {:induction false} SplitPieces(s: string)
    ensures forall i | 0 <= i < |Split(s)| :: NoCrlf(Split(s)[i])
    ensures Split(s)[0] <= s
    decreases |s|
  {
    if |s| >= 2 {
      if s[0] == '\r' && s[1] == '\n' {
        SplitPieces(s[2..]);
      } else {
        SplitPieces(s[1..]);
        var p := Split(s[1..])[0];
        assert Split(s)[0] == [s[0]] + p;
        assert p != "" ==> p[0] == s[1];
      }
    }
  }

  lemma NoCrlfPart(a: string, m: string, b: string)
    requires NoCrlf(a + m + b)
    ensures NoCrlf(m)
  {
    forall i | 0 <= i < |m| - 1 ensures !(m[i] == '\r' && m[i + 1] == '\n') {
      assert (a + m + b)[|a| + i] == m[i] && (a + m + b)[|a| + i + 1] == m[i + 1];
    }
  }

  /** A separator that is neither CR nor LF keeps CRLF out of the joint. */
  lemma NoCrlfAround(a: string, c: char, b: string)
    requires c != '\r' && c != '\n'
    ensures NoCrlf(a + [c] + b) <==> NoCrlf(a) && NoCrlf(b)
  {
    var s := a + [c] + b;
    if NoCrlf(s) {
      assert "" + a + ([c] + b) == s && (a + [c]) + b + "" == s;
      NoCrlfPart("", a, [c] + b);
      NoCrlfPart(a + [c], b, "");
    }
  }

  // ---- Fields -----------------------------------------------------------------

  lemma CutFirst(a: string, c: char, b: string)
    requires c !in a
    ensures Cut(a + [c] + b, c) == Some((a, b))
  {
    var s := a + [c] + b;
    assert s[|a|] == c;
    var (x, y) := Cut(s, c).value;
    assert s == x + [c] + y && s[|x|] == c;
    assert |x| == |a|;
    assert x == s[..|a|] == a && y == s[|a| + 1..] == b;
  }

  lemma TrimStartIs(s: string)
    ensures |TrimStart(s)| <= |s| && s[|s| - |TrimStart(s)|..] == TrimStart(s)
    ensures TrimStart(s) != "" ==> !White(TrimStart(s)[0])
  {
    if s != "" && White(s[0]) {
      TrimStartIs(s[1..]);
    }
  }

  lemma TrimEndIs(s: string)
    ensures TrimEnd(s) <= s
    ensures TrimEnd(s) != "" ==> !White(TrimEnd(s)[|TrimEnd(s)| - 1])
  {
  }

  /** Trimming keeps one stretch of the text. */
  lemma TrimStretch(s: string) returns (k: nat)
    ensures k + |Trim(s)| <= |s| && Trim(s) == s[k..k + |Trim(s)|]
    ensures Trimmed(Trim(s))
  {
    hide TrimStart, TrimEnd, White;
    var t := TrimStart(s);
    TrimStartIs(s);
    TrimEndIs(t);
    k := |s| - |t|;
    var n := |Trim(s)|;
    assert Trim(s) == t[..n];
    assert t[..n] == s[k..k + n];
  }

  /** Trimming yields a trimmed piece of the text. */
  lemma TrimIs(s: string)
    ensures Trimmed(Trim(s))
    ensures NoCrlf(s) ==> NoCrlf(Trim(s))
    ensures forall c | c in Trim(s) :: c in s
  {
    hide Trim, Trimmed, NoCrlf;
    var t := Trim(s);
    var k := TrimStretch(s);
    assert s == s[..k] + t + s[k + |t|..];
    if NoCrlf(s) { NoCrlfPart(s[..k], t, s[k + |t|..]); }
  }

  predicate AllWhite(s: string) { forall i | 0 <= i < |s| :: White(s[i]) }

  lemma {:induction false} TrimStartSkips(a: string, u: string)
    requires AllWhite(a) && (u == "" || !White(u[0]))
    ensures TrimStart(a + u) == u
    decreases |a|
  {
    if a == "" {
      assert a + u == u;
    } else {
      assert (a + u)[0] == a[0] && (a + u)[1..] == a[1..] + u;
      TrimStartSkips(a[1..], u);
    }
  }

  lemma {:induction false} TrimEndSkips(u: string, b: string)
    requires AllWhite(b) && (u == "" || !White(u[|u| - 1]))
    ensures TrimEnd(u + b) == u
    decreases |b|
  {
    if b == "" {
      assert u + b == u;
    } else {
      var n := |b| - 1;
      assert (u + b)[|u + b| - 1] == b[n] && (u + b)[..|u + b| - 1] == u + b[..n];
      TrimEndSkips(u, b[..n]);
    }
  }

  /** Trimming takes away the blanks on both sides, all of them and nothing else. */
  lemma TrimUnique(a: string, t: string, b: string)
    requires AllWhite(a) && Trimmed(t) && AllWhite(b)
    ensures Trim(a + t + b) == t
  {
    if t == "" {
      assert a + t + b == (a + b) + "";
      TrimStartSkips(a + b, "");
    } else {
      assert a + t + b == a + (t + b);
      TrimStartSkips(a, t + b);
      TrimEndSkips(t, b);
    }
  }

  lemma {:induction false} TrimStartDrops(s: string) returns (a: string)
    ensures AllWhite(a) && s == a + TrimStart(s)
    decreases |s|
  {
    a := "";
    if s != "" && White(s[0]) {
      var rest := TrimStartDrops(s[1..]);
      a := [s[0]] + rest;
      assert s == [s[0]] + s[1..];
    }
  }

  lemma {:induction false} TrimEndDrops(s: string) returns (b: string)
    ensures AllWhite(b) && s == TrimEnd(s) + b
    decreases |s|
  {
    b := "";
    if s != "" && White(s[|s| - 1]) {
      var rest := TrimEndDrops(s[..|s| - 1]);
      b := rest + [s[|s| - 1]];
      assert s == s[..|s| - 1] + [s[|s| - 1]];
    }
  }

  /** Every text is its trimmed form between blanks. */
  lemma TrimExactly(s: string) returns (a: string, b: string)
    ensures AllWhite(a) && AllWhite(b) && Trimmed(Trim(s)) && s == a + Trim(s) + b
  {
    hide TrimStart, TrimEnd, White, AllWhite;
    a := TrimStartDrops(s);
    b := TrimEndDrops(TrimStart(s));
    var k := TrimStretch(s);
    assert s == a + (Trim(s) + b);
  }

  /** Among ASCII characters, tab, the line controls and space are blank. */
  lemma BlankAscii(c: char)
    requires c as int < 128
    ensures White(c) <==> c == ' ' || c == '\t' || c == '\n' || c == '\r' || c as int == 11 || c as int == 12
  {
  }

  /**
   Any line: name and value around the first colon count without the blanks around them, a line
   without a colon counts for nothing, and an empty line ends the headers.
   */
  lemma FieldExactly(a: string, name: string, b: string, c: string, value: string, d: string, rest: seq<string>)
    requires AllWhite(a) && AllWhite(b) && AllWhite(c) && AllWhite(d)
    requires Trimmed(name) && ':' !in name && Trimmed(value)
    ensures ParseHeaders([a + name + b + ":" + (c + value + d)] + rest) == [(name, value)] + ParseHeaders(rest)
  {
    var left, right := a + name + b, c + value + d;
    var line := left + ":" + right;
    NoColon(a);
    NoColon(b);
    assert line[|left|] == ':' && line == left + [':'] + right;
    CutFirst(left, ':', right);
    TrimUnique(a, name, b);
    TrimUnique(c, value, d);
    hide Cut, Trim, ParseHeaders, White;
    var lines := [line] + rest;
    assert lines[1..] == rest;
    HeadersContinue(lines);
  }

  lemma NoColon(s: string)
    requires AllWhite(s)
    ensures ':' !in s
  {
  }

  lemma NoFieldExactly(line: string, rest: seq<string>)
    requires ':' !in line
    ensures ParseHeaders([line] + rest) == if line == "" then [] else ParseHeaders(rest)
  {
    assert ([line] + rest)[1..] == rest;
  }

  lemma TrimSpaced(v: string)
    requires Trimmed(v)
    ensures Trim(v) == v && Trim(" " + v) == v
  {
    assert (" " + v)[1..] == v;
    assert TrimStart(" " + v) == TrimStart(v) == v;
  }

  lemma HeaderLineParses(h: Header)
    requires CleanHeader(h)
    ensures Cut(HeaderLine(h), ':') == Some((h.0, " " + h.1)) && HeaderLine(h) != ""
    ensures Trim(h.0) == h.0 && Trim(" " + h.1) == h.1
  {
    assert HeaderLine(h) == h.0 + [':'] + (" " + h.1);
    CutFirst(h.0, ':', " " + h.1);
    TrimSpaced(h.0);
    TrimSpaced(h.1);
  }

  lemma {:induction false} HeadersRoundTrip(hs: seq<Header>)
    requires forall i | 0 <= i < |hs| :: CleanHeader(hs[i])
    ensures ParseHeaders(HeaderLines(hs)) == hs
    decreases |hs|
  {
    if hs != [] {
      HeaderLineParses(hs[0]);
      assert HeaderLines(hs)[1..] == HeaderLines(hs[1..]);
      HeadersRoundTrip(hs[1..]);
      assert hs == [(hs[0].0, hs[0].1)] + hs[1..];
    }
  }

  lemma StatusRoundTrip(r: Response)
    ensures ParseStatus(StatusLine(r)) == Some((r.code, r.text))
  {
    var code := Print(r.code);
    assert StatusLine(r) == "HTTP/1.1" + [' '] + (code + [' '] + r.text);
    CutFirst("HTTP/1.1", ' ', code + [' '] + r.text);
    CutFirst(code, ' ', r.text);
    ParsePrintU16(r.code);
  }

  /** Version, code and reason in a status line: any version, and a reason or nothing after the code. */
  predicate StatusParts(line: string, version: string, code: string, reason: string) {
    && ' ' !in version && ' ' !in code
    && (line == version + [' '] + (code + [' '] + reason) || (reason == "" && line == version + [' '] + code))
  }

  /**
   A status line is accepted exactly when it has a first word, whatever it is, and a second one that
   is a number below 2^16 in decimal, with any number of digits and an optional plus sign.
   */
  lemma StatusAcceptedExactly(line: string, n: u16, reason: string)
    ensures ParseStatus(line) == Some((n, reason)) <==>
              exists version, code :: StatusParts(line, version, code, reason) && ParseU16(code) == Some(n)
  {
    hide ParseU16;
    if ParseStatus(line) == Some((n, reason)) {
      var (version, rest) := Cut(line, ' ').value;
      var code := if Cut(rest, ' ').Some? then Cut(rest, ' ').value.0 else rest;
      assert StatusParts(line, version, code, reason);
    }
    if exists version, code :: StatusParts(line, version, code, reason) && ParseU16(code) == Some(n) {
      var version, code :| StatusParts(line, version, code, reason) && ParseU16(code) == Some(n);
      StatusPartsFound(line, version, code, reason);
    }
  }

  lemma StatusPartsFound(line: string, version: string, code: string, reason: string)
    requires StatusParts(line, version, code, reason)
    ensures ParseStatus(line) == match ParseU16(code) case None => None case Some(n) => Some((n, reason))
  {
    hide ParseU16;
    if line == version + [' '] + (code + [' '] + reason) {
      CutFirst(version, ' ', code + [' '] + reason);
      CutFirst(code, ' ', reason);
    } else {
      CutFirst(version, ' ', code);
    }
  }

  /** Neither the version nor three digits are insisted on. */
  lemma StatusOddity()
    ensures ParseStatus("X +7") == Some((7, ""))
  {
    assert "X +7" == "X" + [' '] + "+7";
    assert "+7"[1..] == "7" && "7"[..0] == "";
    assert Value("7") == 7;
    StatusPartsFound("X +7", "X", "+7", "");
  }

  lemma {:induction false} ParsedHeadersClean(lines: seq<string>)
    requires forall i | 0 <= i < |lines| :: NoCrlf(lines[i])
    ensures forall i | 0 <= i < |ParseHeaders(lines)| :: CleanHeader(ParseHeaders(lines)[i])
    decreases |lines|
  {
    if lines != [] && lines[0] != "" {
      ParsedHeadersClean(lines[1..]);
      if Cut(lines[0], ':').Some? {
        var (name, value) := Cut(lines[0], ':').value;
        NoCrlfAround(name, ':', value);
        TrimIs(name);
        TrimIs(value);
      }
    }
  }

  lemma ParsedReasonClean(line: string)
    requires NoCrlf(line) && ParseStatus(line).Some?
    ensures NoCrlf(ParseStatus(line).value.1)
  {
    var (v, rest) := Cut(line, ' ').value;
    NoCrlfAround(v, ' ', rest);
    if Cut(rest, ' ').Some? {
      var (code, reason) := Cut(rest, ' ').value;
      NoCrlfAround(code, ' ', reason);
    }
  }

  lemma ParsedIsRepresentable(data: Bytes)
    ensures Parse(data).Some? ==> Representable(Parse(data).value)
  {
    if Parse(data).Some? {
      var lines := Sections(data).value.0;
      SplitPieces(Decode(data[..FindDouble(data, 0).value]).value);
      ParsedReasonClean(lines[0]);
      ParsedHeadersClean(lines[1..]);
    }
  }

  // ---- The boundary of a message ----------------------------------------------

  predicate CrlfAt(d: Bytes, i: nat) { i + 2 <= |d| && d[i] == 13 && d[i + 1] == 10 }

  lemma CharBytes(c: char)
    ensures |EncodeChar(c)| == 1 ==> EncodeChar(c)[0] == c as int
    ensures |EncodeChar(c)| > 1 ==> forall i | 0 <= i < |EncodeChar(c)| :: EncodeChar(c)[i] >= 128
  {
  }

  lemma {:induction false} EncodeNoCrlf(l: string)
    requires NoCrlf(l)
    ensures forall i | 0 <= i :: !CrlfAt(Encode(l), i)
    ensures l != "" ==> Encode(l) != []
    decreases |l|
  {
    if l != "" {
      var c, rest := EncodeChar(l[0]), Encode(l[1..]);
      CharBytes(l[0]);
      EncodeNoCrlf(l[1..]);
      if |l| > 1 {
        CharBytes(l[1]);
        assert rest[0] == EncodeChar(l[1])[0];
      }
      forall i | 0 <= i ensures !CrlfAt(Encode(l), i) {
        assert i >= |c| ==> CrlfAt(Encode(l), i) == CrlfAt(rest, i - |c|);
      }
    }
  }

  lemma NoCrlfInLine(e: Bytes, tail: Bytes)
    requires forall i | 0 <= i :: !CrlfAt(e, i)
    requires tail != [] && tail[0] == 13
    ensures forall j | 0 <= j < |e| :: !CrlfAt(e + tail, j)
  {
    forall j | 0 <= j < |e| ensures !CrlfAt(e + tail, j) {
      assert !CrlfAt(e, j);
    }
  }

  predicate Lines(lines: seq<string>) {
    |lines| > 0 && forall i | 0 <= i < |lines| :: lines[i] != "" && NoCrlf(lines[i])
  }

  lemma CrlfBytes()
    ensures Encode(CRLF) == [13, 10]
  {
    assert CRLF[1..] == "\n" && "\n"[1..] == "";
  }

  lemma MessageUnfold(lines: seq<string>, body: Bytes)
    requires |lines| > 1
    ensures Message(lines, body) == Encode(lines[0]) + ([13, 10] + Message(lines[1..], body))
    ensures |Encode(Join(lines))| == |Encode(lines[0])| + 2 + |Encode(Join(lines[1..]))|
  {
    hide Encode;
    EncodeAppend(lines[0] + CRLF, Join(lines[1..]));
    EncodeAppend(lines[0], CRLF);
    CrlfBytes();
  }

  lemma DoubleShift(d: Bytes, k: nat, j: nat)
    requires k <= |d| && k <= j
    ensures DoubleAt(d, j) == DoubleAt(d[k..], j - k)
  {
    if j + 4 <= |d| { assert d[j..j + 4] == d[k..][j - k..j - k + 4]; }
  }

  lemma DoubleIsTwo(d: Bytes, j: nat)
    ensures DoubleAt(d, j) <==> CrlfAt(d, j) && CrlfAt(d, j + 2)
  {
    if j + 4 <= |d| { assert d[j..j + 4] == [d[j], d[j + 1], d[j + 2], d[j + 3]]; }
  }

  /** `k` is the first CRLF CRLF of `d`, and `d` does not start a line break. */
  ghost predicate FirstDouble(d: Bytes, k: nat) {
    !CrlfAt(d, 0) && DoubleAt(d, k) && forall j | 0 <= j < k :: !DoubleAt(d, j)
  }

  lemma LastLineBoundary(e: Bytes, body: Bytes)
    requires e != [] && forall i | 0 <= i :: !CrlfAt(e, i)
    ensures FirstDouble(e + DOUBLE + body, |e|)
  {
    var d := e + DOUBLE + body;
    assert d == e + (DOUBLE + body);
    NoCrlfInLine(e, DOUBLE + body);
    assert d[|e|..|e| + 4] == DOUBLE;
    forall j | 0 <= j < |e| ensures !DoubleAt(d, j) {
      DoubleIsTwo(d, j);
    }
  }

  lemma LineBoundary(e: Bytes, rest: Bytes, k: nat)
    requires e != [] && forall i | 0 <= i :: !CrlfAt(e, i)
    requires FirstDouble(rest, k)
    ensures FirstDouble(e + ([13, 10] + rest), |e| + 2 + k)
  {
    var d := e + ([13, 10] + rest);
    NoCrlfInLine(e, [13, 10] + rest);
    assert d[|e| + 2..] == rest;
    DoubleShift(d, |e| + 2, |e| + 2 + k);
    forall j | 0 <= j < |e| + 2 + k ensures !DoubleAt(d, j) {
      DoubleIsTwo(d, j);
      if j < |e| + 2 {
        assert j == |e| ==> CrlfAt(d, j + 2) == CrlfAt(rest, 0);
        assert j == |e| + 1 ==> d[j] == 10;
      } else {
        DoubleShift(d, |e| + 2, j);
      }
    }
  }

  /** The first CRLF CRLF of a message built from clean lines is where its header section ends. */
  lemma {:induction false} BoundaryIsFirst(lines: seq<string>, body: Bytes)
    requires Lines(lines)
    ensures FirstDouble(Message(lines, body), |Encode(Join(lines))|)
    decreases |lines|
  {
    hide Encode, NoCrlf, FirstDouble;
    var e := Encode(lines[0]);
    EncodeNoCrlf(lines[0]);
    if |lines| == 1 {
      LastLineBoundary(e, body);
    } else {
      MessageUnfold(lines, body);
      BoundaryIsFirst(lines[1..], body);
      LineBoundary(e, Message(lines[1..], body), |Encode(Join(lines[1..]))|);
    }
  }

  /** A receiver recovers exactly the intended lines and body if and only if no line contains CRLF. */
  lemma SectionsExact(lines: seq<string>, body: Bytes)
    requires |lines| > 0 && forall i | 0 <= i < |lines| :: lines[i] != ""
    ensures Sections(Message(lines, body)) == Some((lines, body)) <==> Lines(lines)
  {
    var d := Message(lines, body);
    if Lines(lines) {
      BoundaryIsFirst(lines, body);
      var k := |Encode(Join(lines))|;
      FindDoubleIs(d, 0, k);
      assert d[..k] == Encode(Join(lines)) && d[k + 4..] == body;
      DecodeEncode(Join(lines));
      SplitJoin(lines);
    }
    if Sections(d) == Some((lines, body)) {
      SplitPieces(Decode(d[..FindDouble(d, 0).value]).value);
    }
  }

  lemma {:induction false} FindDoubleNone(d: Bytes, i: nat)
    requires forall j | i <= j :: !DoubleAt(d, j)
    ensures FindDouble(d, i) == None
    decreases |d| - i
  {
    if i + 3 < |d| { FindDoubleNone(d, i + 1); }
  }

  /** A message cut off before its body is incomplete. */
  lemma TruncatedHeader(lines: seq<string>, body: Bytes, k: nat)
    requires Lines(lines) && k < |Encode(Join(lines))| + 4
    ensures Sections(Message(lines, body)[..k]) == None
  {
    var d := Message(lines, body);
    BoundaryIsFirst(lines, body);
    forall j | 0 <= j ensures !DoubleAt(d[..k], j) {
      if j + 4 <= k {
        assert !DoubleAt(d, j);
        assert d[..k][j..j + 4] == d[j..j + 4];
      }
    }
    FindDoubleNone(d[..k], 0);
  }

  // ---- Responses --------------------------------------------------------------

  lemma HeaderLineClean(h: Header)
    ensures HeaderLine(h) != ""
    ensures NoCrlf(HeaderLine(h)) <==> NoCrlf(h.0) && NoCrlf(h.1)
  {
    assert NoCrlf("");
    hide NoCrlf;
    assert HeaderLine(h) == h.0 + [':'] + ("" + [' '] + h.1);
    NoCrlfAround("", ' ', h.1);
    NoCrlfAround(h.0, ':', "" + [' '] + h.1);
  }

  lemma ResponseLines(r: Response)
    ensures var lines := [StatusLine(r)] + HeaderLines(r.headers);
            && (forall i | 0 <= i < |lines| :: lines[i] != "")
            && (Representable(r) ==> Lines(lines))
  {
    var lines := [StatusLine(r)] + HeaderLines(r.headers);
    forall i | 0 <= i < |lines|
      ensures lines[i] != ""
      ensures Representable(r) ==> NoCrlf(lines[i])
    {
      if i == 0 {
        var code := Print(r.code);
        assert StatusLine(r) == "HTTP/1.1" + [' '] + (code + [' '] + r.text);
        NoCrlfAround(code, ' ', r.text);
        NoCrlfAround("HTTP/1.1", ' ', code + [' '] + r.text);
      } else {
        HeaderLineClean(r.headers[i - 1]);
      }
    }
  }

  /**
   Parsing a printed response gives it back exactly when its fields are representable; the body
   is arbitrary and may itself contain blank lines. Every response the parser ever returns is
   representable, so printing and re-parsing one changes nothing.
   */
  lemma ResponseRoundTrip(r: Response)
    ensures Parse(PrintResponse(r)) == Some(r) <==> Representable(r)
  {
    var lines := [StatusLine(r)] + HeaderLines(r.headers);
    ResponseLines(r);
    if Representable(r) {
      SectionsExact(lines, r.body);
      StatusRoundTrip(r);
      assert lines[1..] == HeaderLines(r.headers);
      HeadersRoundTrip(r.headers);
    }
    if Parse(PrintResponse(r)) == Some(r) { ParsedIsRepresentable(PrintResponse(r)); }
  }

  /** Whatever was received, re-printing the parse and parsing again is the identity. */
  lemma ReparseIsIdentity(data: Bytes)
    ensures Parse(data).Some? ==> Parse(PrintResponse(Parse(data).value)) == Parse(data)
  {
    if Parse(data).Some? {
      ParsedIsRepresentable(data);
      ResponseRoundTrip(Parse(data).value);
    }
  }

  // ---- Requests ---------------------------------------------------------------

  datatype Method = Get | Post | Head | Put | Delete

  function Verb(m: Method): string {
    match m case Get => "GET" case Post => "POST" case Head => "HEAD" case Put => "PUT" case Delete => "DELETE"
  }

  datatype Request = Request(verb: Method, host: string, port: u16, path: string, headers: seq<Header>, body: Option<Bytes>)

  function TargetPath(path: string): string { if path == "" then "/" else path }

  function HostHeader(host: string, port: u16): string { if port == 80 then host else host + ":" + Print(port) }

  function RequestHead(q: Request): seq<string> {
    [Verb(q.verb) + " " + TargetPath(q.path) + " HTTP/1.1", "Host: " + HostHeader(q.host, q.port), "Connection: close"]
  }

  function LengthLine(q: Request): seq<string> {
    if q.body.Some? then ["Content-Length: " + Print(|q.body.value|)] else []
  }

  function RequestLines(q: Request): seq<string> { RequestHead(q) + HeaderLines(q.headers) + LengthLine(q) }

  function BodyOf(q: Request): Bytes { if q.body.Some? then q.body.value else [] }

  /** Lines each followed by CRLF, as the program pushes them. */
  function Terminated(lines: seq<string>): string {
    if lines == [] then "" else Terminated(lines[..|lines| - 1]) + lines[|lines| - 1] + CRLF
  }

  lemma {:induction false} TerminatedFront(l: string, lines: seq<string>)
    ensures Terminated([l] + lines) == l + CRLF + Terminated(lines)
    decreases |lines|
  {
    if lines == [] {
      assert ([l] + lines)[..0] == [];
    } else {
      var n := |lines| - 1;
      assert ([l] + lines)[..n + 1] == [l] + lines[..n];
      TerminatedFront(l, lines[..n]);
    }
  }

  lemma {:induction false} TerminatedJoin(lines: seq<string>)
    requires |lines| > 0
    ensures Terminated(lines) == Join(lines) + CRLF
    decreases |lines|
  {
    TerminatedFront(lines[0], lines[1..]);
    assert [lines[0]] + lines[1..] == lines;
    if |lines| > 1 { TerminatedJoin(lines[1..]); }
  }

  lemma TerminatedMessage(lines: seq<string>, body: Bytes)
    requires |lines| > 0
    ensures Encode(Terminated(lines) + CRLF) + body == Message(lines, body)
  {
    hide Encode, Terminated, Join;
    TerminatedJoin(lines);
    assert Terminated(lines) + CRLF == Join(lines) + (CRLF + CRLF);
    EncodeAppend(Join(lines), CRLF + CRLF);
    assert Encode(CRLF + CRLF) == DOUBLE by {
      EncodeAppend(CRLF, CRLF);
      CrlfBytes();
    }
  }

  lemma TerminatedSnoc(lines: seq<string>, l: string)
    ensures Terminated(lines + [l]) == Terminated(lines) + l + CRLF
  {
    assert (lines + [l])[..|lines|] == lines;
  }

  /** The request line and the two fixed headers, pushed one after the other. */
  method PushHead(q: Request) returns (out: string)
    ensures out == Terminated(RequestHead(q))
  {
    hide Verb, HostHeader, Terminated;
    var path := if q.path == "" then "/" else q.path;
    var l0 := Verb(q.verb) + " " + path + " HTTP/1.1";
    var l1 := "Host: " + HostHeader(q.host, q.port);
    var l2 := "Connection: close";
    TerminatedSnoc([], l0);
    TerminatedSnoc([] + [l0], l1);
    TerminatedSnoc([] + [l0] + [l1], l2);
    assert RequestHead(q) == [] + [l0] + [l1] + [l2];
    NothingTerminated();
    out := "";
    out := out + l0 + CRLF;
    out := out + l1 + CRLF;
    out := out + l2 + CRLF;
  }

  lemma NothingTerminated()
    ensures Terminated([]) == ""
  {
  }

  /** The loop over the caller's headers. */
  method PushHeaders(out0: string, lines0: seq<string>, headers: seq<Header>) returns (out: string)
    requires out0 == Terminated(lines0)
    ensures out == Terminated(lines0 + HeaderLines(headers))
  {
    hide Terminated;
    out := out0;
    assert lines0 + HeaderLines(headers)[..0] == lines0;
    for i := 0 to |headers|
      invariant out == Terminated(lines0 + HeaderLines(headers)[..i])
    {
      var line := headers[i].0 + ": " + headers[i].1;
      TerminatedSnoc(lines0 + HeaderLines(headers)[..i], line);
      assert lines0 + HeaderLines(headers)[..i + 1] == lines0 + HeaderLines(headers)[..i] + [line];
      out := out + line + CRLF;
    }
    assert HeaderLines(headers)[..|headers|] == HeaderLines(headers);
  }

  /** The program's serialiser: pushes lines into a text buffer, then appends the body. */
  method BuildRequest(q: Request) returns (bytes: Bytes)
    ensures bytes == Message(RequestLines(q), BodyOf(q))
  {
    hide Terminated, RequestHead, HeaderLines, Message, Print, Encode;
    var out := PushHead(q);
    out := PushHeaders(out, RequestHead(q), q.headers);
    ghost var lines := RequestHead(q) + HeaderLines(q.headers);
    if q.body.Some? {
      TerminatedSnoc(lines, "Content-Length: " + Print(|q.body.value|));
      out := out + ("Content-Length: " + Print(|q.body.value|)) + CRLF;
    } else {
      assert lines + [] == lines;
    }
    HeadNonEmpty(q);
    TerminatedMessage(RequestLines(q), BodyOf(q));
    out := out + CRLF;
    bytes := Encode(out);
    if q.body.Some? {
      bytes := bytes + q.body.value;
    } else {
      assert bytes + [] == bytes;
    }
  }

  lemma HeadNonEmpty(q: Request)
    ensures |RequestHead(q)| == 3
  {
  }

  /** No caller-supplied field carries CRLF. */
  predicate CleanRequest(q: Request) {
    && NoCrlf(q.path)
    && NoCrlf(q.host)
    && forall i | 0 <= i < |q.headers| :: NoCrlf(q.headers[i].0) && NoCrlf(q.headers[i].1)
  }

  lemma VerbClean(m: Method)
    ensures NoCrlf(Verb(m)) && NoCrlf("HTTP/1.1") && NoCrlf("Host:") && NoCrlf("/") && NoCrlf("Connection: close")
    ensures NoCrlf("")
  {
  }

  lemma DigitsClean(n: nat)
    ensures NoCrlf(Print(n))
  {
  }

  lemma HeadClean(q: Request)
    ensures NoCrlf(RequestHead(q)[0]) <==> NoCrlf(q.path)
    ensures NoCrlf(RequestHead(q)[1]) <==> NoCrlf(q.host)
    ensures NoCrlf(RequestHead(q)[2])
  {
    var h := RequestHead(q);
    hide Verb, Print, NoCrlf;
    VerbClean(q.verb);
    assert h[0] == Verb(q.verb) + [' '] + (TargetPath(q.path) + [' '] + "HTTP/1.1");
    NoCrlfAround(TargetPath(q.path), ' ', "HTTP/1.1");
    NoCrlfAround(Verb(q.verb), ' ', TargetPath(q.path) + [' '] + "HTTP/1.1");
    assert h[1] == "Host:" + [' '] + HostHeader(q.host, q.port);
    NoCrlfAround("Host:", ' ', HostHeader(q.host, q.port));
    if q.port != 80 {
      assert HostHeader(q.host, q.port) == q.host + [':'] + Print(q.port);
      NoCrlfAround(q.host, ':', Print(q.port));
      DigitsClean(q.port);
    }
  }

  lemma LengthLineClean(q: Request)
    ensures forall i | 0 <= i < |LengthLine(q)| :: LengthLine(q)[i] != "" && NoCrlf(LengthLine(q)[i])
    ensures NoCrlf("")
  {
    if q.body.Some? {
      assert LengthLine(q)[0] == "Content-Length:" + [' '] + Print(|q.body.value|);
      NoCrlfAround("Content-Length:", ' ', Print(|q.body.value|));
    }
  }

  lemma HeadNotBlank(q: Request)
    ensures RequestHead(q)[0] != "" && RequestHead(q)[1] != "" && RequestHead(q)[2] != ""
  {
    hide Verb, HostHeader, TargetPath;
    assert RequestHead(q)[0][|RequestHead(q)[0]| - 1] == '1';
    assert RequestHead(q)[1][0] == 'H' && RequestHead(q)[2][0] == 'C';
  }

  predicate NotBlank(lines: seq<string>) { forall i | 0 <= i < |lines| :: lines[i] != "" }

  predicate Unbroken(lines: seq<string>) { forall i | 0 <= i < |lines| :: NoCrlf(lines[i]) }

  lemma PartsTogether(a: seq<string>, b: seq<string>)
    ensures NotBlank(a + b) <==> NotBlank(a) && NotBlank(b)
    ensures Unbroken(a + b) <==> Unbroken(a) && Unbroken(b)
  {
    hide NoCrlf;
    assert forall i | 0 <= i < |a| :: (a + b)[i] == a[i];
    assert forall i | 0 <= i < |b| :: (a + b)[|a| + i] == b[i];
  }

  lemma HeaderLinesClean(hs: seq<Header>)
    ensures NotBlank(HeaderLines(hs))
    ensures Unbroken(HeaderLines(hs)) <==> forall i | 0 <= i < |hs| :: NoCrlf(hs[i].0) && NoCrlf(hs[i].1)
  {
    hide NoCrlf, HeaderLine;
    forall i | 0 <= i < |hs|
      ensures HeaderLines(hs)[i] != ""
      ensures NoCrlf(HeaderLines(hs)[i]) <==> NoCrlf(hs[i].0) && NoCrlf(hs[i].1)
    {
      HeaderLineClean(hs[i]);
    }
  }

  lemma HeadLinesClean(q: Request)
    ensures NotBlank(RequestHead(q))
    ensures Unbroken(RequestHead(q)) <==> NoCrlf(q.path) && NoCrlf(q.host)
  {
    HeadNonEmpty(q);
    hide NoCrlf, RequestHead;
    HeadClean(q);
    HeadNotBlank(q);
  }

  lemma RequestLinesClean(q: Request)
    ensures NotBlank(RequestLines(q))
    ensures Lines(RequestLines(q)) <==> CleanRequest(q)
  {
    HeadNonEmpty(q);
    hide NoCrlf, RequestHead, HeaderLines, LengthLine;
    HeadLinesClean(q);
    HeaderLinesClean(q.headers);
    LengthLineClean(q);
    PartsTogether(RequestHead(q), HeaderLines(q.headers));
    PartsTogether(RequestHead(q) + HeaderLines(q.headers), LengthLine(q));
    LinesIs(RequestLines(q));
  }

  lemma LinesIs(lines: seq<string>)
    ensures Lines(lines) <==> lines != [] && NotBlank(lines) && Unbroken(lines)
  {
  }

  /** A receiver sees exactly the intended request lines and body if and only if no field carries CRLF. */
  lemma RequestExact(q: Request)
    ensures var body := if q.body.Some? then q.body.value else [];
            Sections(Message(RequestLines(q), BodyOf(q))) == Some((RequestLines(q), body)) <==> CleanRequest(q)
  {
    RequestLinesClean(q);
    SectionsExact(RequestLines(q), BodyOf(q));
  }

  /** The request line is the method's name, the path or a slash for none, and the version. */
  lemma RequestLineReads(q: Request)
    ensures
      var name := match q.verb case Get => "GET" case Post => "POST" case Head => "HEAD" case Put => "PUT" case Delete => "DELETE";
      Cut(RequestHead(q)[0], ' ') == Some((name, (if q.path == "" then "/" else q.path) + " HTTP/1.1"))
  {
    var name := Verb(q.verb);
    var tail := TargetPath(q.path) + " HTTP/1.1";
    assert ' ' !in name;
    assert RequestHead(q)[0] == name + [' '] + tail;
    CutFirst(name, ' ', tail);
  }

  /** The header fields a request is meant to carry. */
  function RequestFields(q: Request): seq<Header> {
    [("Host", HostHeader(q.host, q.port)), ("Connection", "close")] + q.headers
    + if q.body.Some? then [("Content-Length", Print(|q.body.value|))] else []
  }

  lemma FieldLines(q: Request)
    ensures RequestLines(q)[1..] == HeaderLines(RequestFields(q))
  {
    hide Print, HostHeader;
    var lines, fields := RequestLines(q)[1..], RequestFields(q);
    assert |lines| == |fields|;
    forall i | 0 <= i < |lines| ensures lines[i] == HeaderLine(fields[i]) {
      if 2 <= i < 2 + |q.headers| { assert fields[i] == q.headers[i - 2]; }
    }
  }

  lemma FixedFieldsClean(q: Request)
    requires CleanRequest(q) && Trimmed(HostHeader(q.host, q.port))
    ensures CleanHeader(("Host", HostHeader(q.host, q.port))) && CleanHeader(("Connection", "close"))
    ensures forall n: nat :: CleanHeader(("Content-Length", Print(n)))
  {
    if q.port != 80 {
      assert HostHeader(q.host, q.port) == q.host + [':'] + Print(q.port);
      NoCrlfAround(q.host, ':', Print(q.port));
      DigitsClean(q.port);
    }
  }

  /**
   The header parser reads a request without stray CRLF back as Host, Connection, the caller's fields
   and the body length exactly when the Host value and the caller's fields are trimmed and no name of
   theirs contains a colon.
   */
  lemma RequestFieldsParse(q: Request)
    requires CleanRequest(q)
    ensures ParseHeaders(RequestLines(q)[1..]) == RequestFields(q) <==>
              && Trimmed(HostHeader(q.host, q.port))
              && forall i | 0 <= i < |q.headers| :: CleanHeader(q.headers[i])
    ensures q.body.Some? ==> Value(RequestFields(q)[|q.headers| + 2].1) == |q.body.value|
  {
    HeadNonEmpty(q);
    assert |RequestLines(q)| > 0;
    hide ParseHeaders, RequestLines, HostHeader, Trimmed, CleanHeader;
    if Trimmed(HostHeader(q.host, q.port)) && forall i | 0 <= i < |q.headers| :: CleanHeader(q.headers[i]) {
      CleanFieldsParse(q);
    }
    if ParseHeaders(RequestLines(q)[1..]) == RequestFields(q) { ParsedFieldsClean(q); }
    if q.body.Some? { ValuePrint(|q.body.value|); }
  }

  lemma CleanFieldsParse(q: Request)
    requires CleanRequest(q) && Trimmed(HostHeader(q.host, q.port))
    requires forall i | 0 <= i < |q.headers| :: CleanHeader(q.headers[i])
    ensures ParseHeaders(RequestLines(q)[1..]) == RequestFields(q)
  {
    FixedFieldsClean(q);
    FieldLines(q);
    hide CleanHeader, RequestLines, HostHeader;
    var fields := RequestFields(q);
    forall i | 0 <= i < |fields| ensures CleanHeader(fields[i]) {
      if 2 <= i < 2 + |q.headers| { assert fields[i] == q.headers[i - 2]; }
    }
    HeadersRoundTrip(fields);
  }

  lemma ParsedFieldsClean(q: Request)
    requires CleanRequest(q) && ParseHeaders(RequestLines(q)[1..]) == RequestFields(q)
    ensures Trimmed(HostHeader(q.host, q.port))
    ensures forall i | 0 <= i < |q.headers| :: CleanHeader(q.headers[i])
  {
    hide ParseHeaders, RequestLines, HostHeader, Trimmed, NoCrlf, CleanRequest;
    RequestLinesClean(q);
    ParsedHeadersClean(RequestLines(q)[1..]);
    var fields := RequestFields(q);
    assert CleanHeader(fields[0]);
    forall i | 0 <= i < |q.headers| ensures CleanHeader(q.headers[i]) {
      assert fields[i + 2] == q.headers[i];
    }
  }

  // ---- URLs -------------------------------------------------------------------

  const SCHEME := "http://"

  function ParseUrl(url: string): Option<(string, u16, string)> {
    if !(SCHEME <= url) then None
    else
      var rest := url[|SCHEME|..];
      var (authority, path) := match Cut(rest, '/') case None => (rest, "/") case Some((a, p)) => (a, "/" + p);
      if authority == "" then None
      else match Cut(authority, ':')
        case None => Some((authority, 80, path))
        case Some((host, port)) =>
          Some((host, match ParseU16(port) case None => 80 case Some(n) => n, path))
  }

  predicate AddressableHost(host: string, port: u16) {
    ':' !in host && '/' !in host && (host != "" || port != 80)
  }

  lemma UrlForward(host: string, port: u16, p: string)
    requires AddressableHost(host, port)
    ensures ParseUrl(SCHEME + HostHeader(host, port) + "/" + p) == Some((host, port, "/" + p))
  {
    var auth := HostHeader(host, port);
    var url := SCHEME + auth + "/" + p;
    assert SCHEME <= url && url[|SCHEME|..] == auth + ['/'] + p;
    assert '/' !in auth;
    CutFirst(auth, '/', p);
    if port != 80 {
      assert auth == host + [':'] + Print(port);
      CutFirst(host, ':', Print(port));
      ParsePrintU16(port);
    }
  }

  /**
   Every URL of the scheme is an authority up to the first slash and a path from there. No path means
   a slash; no authority is refused; the port is the number after the first colon, or 80 if there is
   none or it is no 16-bit number. Any other URL is refused.
   */
  lemma UrlExactly(authority: string, path: string)
    requires '/' !in authority && (path == "" || path[0] == '/')
    ensures
      var r := ParseUrl("http://" + authority + path);
      var target := if path == "" then "/" else path;
      && (authority == "" ==> r == None)
      && (authority != "" && ':' !in authority ==> r == Some((authority, 80, target)))
      && (forall h: string, p: string | authority == h + ":" + p && ':' !in h ::
            r == Some((h, if ParseU16(p).Some? then ParseU16(p).value else 80, target)))
  {
    var url := "http://" + authority + path;
    var target := if path == "" then "/" else path;
    hide ParseU16;
    assert SCHEME <= url && url[7..] == authority + path;
    AuthorityFound(authority, path);
    forall h: string, p: string | authority == h + ":" + p && ':' !in h
      ensures ParseUrl(url) == Some((h, if ParseU16(p).Some? then ParseU16(p).value else 80, target))
    {
      assert authority == h + [':'] + p;
      CutFirst(h, ':', p);
    }
  }

  lemma AuthorityFound(authority: string, path: string)
    requires '/' !in authority && (path == "" || path[0] == '/')
    ensures path == "" ==> Cut(authority + path, '/') == None && authority + path == authority
    ensures path != "" ==> Cut(authority + path, '/') == Some((authority, path[1..])) && path == "/" + path[1..]
  {
    if path == "" {
      assert authority + path == authority;
    } else {
      assert path == "/" + path[1..];
      assert authority + path == authority + ['/'] + path[1..];
      CutFirst(authority, '/', path[1..]);
    }
  }

  lemma OtherScheme(url: string)
    requires !("http://" <= url)
    ensures ParseUrl(url) == None
  {
  }

  /** The recovered host is a piece of the authority without colon or slash, and the path starts with a slash. */
  lemma UrlShape(url: string)
    ensures ParseUrl(url).Some? ==>
              var (host, port, path) := ParseUrl(url).value;
              ':' !in host && '/' !in host && (host != "" || ':' in url[|SCHEME|..]) && path != "" && path[0] == '/'
  {
  }

  lemma NoAuthority(p: string)
    ensures ParseUrl(SCHEME + "/" + p) == None
  {
    var url := SCHEME + "/" + p;
    assert SCHEME <= url && url[|SCHEME|..] == "" + ['/'] + p;
    CutFirst("", '/', p);
  }

  /**
   The URL formed from a request's Host value and path parses back to host, port and path
   exactly when the host has no colon or slash, is not both empty and on port 80, and the path
   is empty or starts with a slash.
   */
  lemma UrlRoundTrip(host: string, port: u16, path: string)
    ensures ParseUrl(SCHEME + HostHeader(host, port) + TargetPath(path)) == Some((host, port, TargetPath(path)))
            <==> AddressableHost(host, port) && (path == "" || path[0] == '/')
  {
    var target := TargetPath(path);
    var url := SCHEME + HostHeader(host, port) + target;
    assert target != "" && (target[0] == '/' <==> path == "" || path[0] == '/');
    if target[0] == '/' { RootedUrl(host, port, target); }
    hide HostHeader, TargetPath, ParseUrl;
    UrlShape(url);
  }

  lemma RootedUrl(host: string, port: u16, target: string)
    requires target != "" && target[0] == '/'
    ensures AddressableHost(host, port) ==>
              ParseUrl(SCHEME + HostHeader(host, port) + target) == Some((host, port, target))
    ensures host == "" && port == 80 ==> ParseUrl(SCHEME + HostHeader(host, port) + target) == None
  {
    hide ParseUrl, AddressableHost;
    var p := target[1..];
    assert target == "/" + p;
    var auth := HostHeader(host, port);
    assert SCHEME + auth + target == SCHEME + auth + "/" + p;
    if AddressableHost(host, port) { UrlForward(host, port, p); }
    if host == "" && port == 80 {
      assert SCHEME + auth == SCHEME;
      NoAuthority(p);
    }
  }
}
