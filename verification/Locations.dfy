/** scripts/check_codeql_findings.py: the repository path of a SARIF artifact location.
    Percent-encoding is section 2.1 of RFC 3986; decoding once is its section 2.4. */
module Locations {
  import opened Outcomes
  import opened PythonStrings
  import opened Sequences
  import ArchiveNames

  /** What the script takes from its interpreter: str.isprintable, whether urlsplit accepts a
      network location, and which characters are digits to a regular expression. */
  datatype Platform = Platform(printable: char -> bool, netlocAccepted: string -> bool, digit: char -> bool)

  const MAX_URI_DECODE_LAYERS: nat := 8

  type Byte = b: nat | b < 256

  // ----- UTF-8 -----

  predicate Continuation(b: nat) { 0x80 <= b < 0xC0 }

  /** The second byte that may follow this first byte of a longer sequence. */
  predicate Second(first: nat, b: nat)
  {
    if first == 0xE0 then 0xA0 <= b < 0xC0
    else if first == 0xED then 0x80 <= b < 0xA0
    else if first == 0xF0 then 0x90 <= b < 0xC0
    else if first == 0xF4 then 0x80 <= b < 0x90
    else 0xC2 <= first < 0xF5 && Continuation(b)
  }

  /** The code point spelled by two, three and four bytes. */
  function Two(a: int, b: int): int { (a - 0xC0) * 64 + (b - 0x80) }

  function Three(a: int, b: int, c: int): int { (a - 0xE0) * 4096 + (b - 0x80) * 64 + (c - 0x80) }

  function Four(a: int, b: int, c: int, d: int): int
  {
    (a - 0xF0) * 262144 + (b - 0x80) * 4096 + (c - 0x80) * 64 + (d - 0x80)
  }

  /** bytes.decode("utf-8", "replace"): one replacement per maximal invalid stretch. */
  function DecodeUtf8(bs: seq<Byte>): string
  {
    if bs == [] then ""
    else if bs[0] < 0x80 then [bs[0] as char] + DecodeUtf8(bs[1..])
    else if |bs| < 2 || !Second(bs[0], bs[1]) then ['\U{fffd}'] + DecodeUtf8(bs[1..])
    else if bs[0] < 0xE0 then [Two(bs[0], bs[1]) as char] + DecodeUtf8(bs[2..])
    else if |bs| < 3 || !Continuation(bs[2]) then ['\U{fffd}'] + DecodeUtf8(bs[2..])
    else if bs[0] < 0xF0 then [Three(bs[0], bs[1], bs[2]) as char] + DecodeUtf8(bs[3..])
    else if |bs| < 4 || !Continuation(bs[3]) then ['\U{fffd}'] + DecodeUtf8(bs[3..])
    else [Four(bs[0], bs[1], bs[2], bs[3]) as char] + DecodeUtf8(bs[4..])
  }

  function EncodeChar(c: char): (bs: seq<Byte>)
    ensures 1 <= |bs| <= 4
  {
    var n := c as int;
    if n < 0x80 then [n]
    else if n < 0x800 then [0xC0 + n / 64, 0x80 + n % 64]
    else if n < 0x10000 then [0xE0 + n / 4096, 0x80 + n / 64 % 64, 0x80 + n % 64]
    else [0xF0 + n / 262144, 0x80 + n / 4096 % 64, 0x80 + n / 64 % 64, 0x80 + n % 64]
  }

  lemma Digits64(n: int)
    requires 0 <= n < 0x110000
    ensures n / 64 * 64 + n % 64 == n
    ensures n / 4096 * 4096 + n / 64 % 64 * 64 + n % 64 == n
    ensures n / 262144 * 262144 + n / 4096 % 64 * 4096 + n / 64 % 64 * 64 + n % 64 == n
  {
  }

  /** The bytes of a character are a valid sequence that spells it. */
  lemma EncodedBytes(c: char)
    ensures var bs := EncodeChar(c);
      match |bs|
      case 1 => bs[0] < 0x80 && bs[0] as char == c
      case 2 => bs[0] < 0xE0 && Second(bs[0], bs[1]) && Two(bs[0], bs[1]) == c as int
      case 3 => 0xE0 <= bs[0] < 0xF0 && Second(bs[0], bs[1]) && Continuation(bs[2])
        && Three(bs[0], bs[1], bs[2]) == c as int
      case _ => 0xF0 <= bs[0] && Second(bs[0], bs[1]) && Continuation(bs[2]) && Continuation(bs[3])
                && Four(bs[0], bs[1], bs[2], bs[3]) == c as int
  {
    Digits64(c as int);
  }

  /** A character decodes to itself, whatever follows. */
  lemma DecodeEncodedChar(c: char, rest: seq<Byte>)
    ensures DecodeUtf8(EncodeChar(c) + rest) == [c] + DecodeUtf8(rest)
  {
    var bs := EncodeChar(c);
    var all := bs + rest;
    assert all[|bs|..] == rest;
    EncodedBytes(c);
    assert forall i | 0 <= i < |bs| :: all[i] == bs[i];
  }

  function EncodeUtf8(s: string): seq<Byte>
  {
    if s == "" then [] else EncodeChar(s[0]) + EncodeUtf8(s[1..])
  }

  lemma {:induction false} DecodeEncoded(s: string)
    ensures DecodeUtf8(EncodeUtf8(s)) == s
  {
    if s != "" {
      DecodeEncodedChar(s[0], EncodeUtf8(s[1..]));
      DecodeEncoded(s[1..]);
    }
  }

  // ----- what is not UTF-8 -----

  lemma ReencodesTwo(a: Byte, b: Byte)
    requires Second(a, b) && a < 0xE0
    ensures 0 <= Two(a, b) < 0xD800 && EncodeChar(Two(a, b) as char) == [a, b]
  {
  }

  lemma ReencodesThree(a: Byte, b: Byte, c: Byte)
    requires Second(a, b) && 0xE0 <= a < 0xF0 && Continuation(c)
    ensures var n := Three(a, b, c);
      && (0 <= n < 0xD800 || 0xE000 <= n < 0x110000) && EncodeChar(n as char) == [a, b, c]
  {
    var n := Three(a, b, c);
    assert n == (a - 0xE0) * 4096 + (b - 0x80) * 64 + (c - 0x80);
    assert n / 64 == (a - 0xE0) * 64 + (b - 0x80) && n / 4096 == a - 0xE0;
  }

  lemma ReencodesFour(a: Byte, b: Byte, c: Byte, d: Byte)
    requires Second(a, b) && 0xF0 <= a && Continuation(c) && Continuation(d)
    ensures var n := Four(a, b, c, d); 0xE000 <= n < 0x110000 && EncodeChar(n as char) == [a, b, c, d]
  {
    var n := Four(a, b, c, d);
    assert n / 64 == (a - 0xF0) * 4096 + (b - 0x80) * 64 + (c - 0x80);
    assert n / 4096 == (a - 0xF0) * 64 + (b - 0x80) && n / 262144 == a - 0xF0;
  }

  /** Bytes are read without a replacement only if they are the encoding of the text: no
      overlong form, no surrogate, nothing beyond the last code point. */
  lemma {:induction false} DecodeIsStrict(bs: seq<Byte>)
    requires '\U{fffd}' !in DecodeUtf8(bs)
    ensures EncodeUtf8(DecodeUtf8(bs)) == bs
  {
    hide Second, Continuation, Two, Three, Four;
    if bs != [] {
      var n := Taken(bs);
      assert bs == bs[..n] + bs[n..];
      DecodeStep(bs);
      var s := DecodeUtf8(bs);
      assert s[1..] == DecodeUtf8(bs[n..]);
      assert s[0] in s && forall c | c in s[1..] :: c in s;
      DecodeIsStrict(bs[n..]);
    }
  }

  /** How many bytes the first character of the decoded text stands for. */
  function Taken(bs: seq<Byte>): (n: nat)
    requires bs != []
    ensures 0 < n <= |bs|
  {
    if bs[0] < 0x80 || |bs| < 2 || !Second(bs[0], bs[1]) then 1
    else if bs[0] < 0xE0 || |bs| < 3 || !Continuation(bs[2]) then 2
    else if bs[0] < 0xF0 || |bs| < 4 || !Continuation(bs[3]) then 3
    else 4
  }

  lemma DecodeStep(bs: seq<Byte>)
    requires bs != []
    ensures var n := Taken(bs);
      && DecodeUtf8(bs) != "" && DecodeUtf8(bs)[1..] == DecodeUtf8(bs[n..])
      && (DecodeUtf8(bs)[0] == '\U{fffd}' || EncodeChar(DecodeUtf8(bs)[0]) == bs[..n])
  {
    hide Second, Continuation, Two, Three, Four, EncodeChar;
    AsciiByte(bs[0]);
    if bs[0] >= 0x80 && |bs| >= 2 && Second(bs[0], bs[1]) {
      if bs[0] < 0xE0 {
        ReencodesTwo(bs[0], bs[1]);
      } else if |bs| >= 3 && Continuation(bs[2]) {
        if bs[0] < 0xF0 {
          ReencodesThree(bs[0], bs[1], bs[2]);
        } else if |bs| >= 4 && Continuation(bs[3]) {
          ReencodesFour(bs[0], bs[1], bs[2], bs[3]);
        }
      }
    }
  }

  lemma AsciiByte(b: Byte)
    ensures b < 0x80 ==> EncodeChar(b as char) == [b]
  {
  }

  /** The bytes begin the encoding of some character. */
  ghost predicate Begins(bs: seq<Byte>)
  {
    exists c :: bs <= EncodeChar(c)
  }

  /** A byte that begins no character, or the beginning of one that is broken off. */
  ghost predicate Broken(t: seq<Byte>, rest: seq<Byte>)
  {
    || (|t| == 1 && !Begins(t))
    || (t != [] && Begins(t) && (forall c :: t != EncodeChar(c)) && (rest == [] || !Begins(t + [rest[0]])))
  }

  /** Each of them is replaced by one character. */
  lemma BrokenIsReplaced(t: seq<Byte>, rest: seq<Byte>)
    requires Broken(t, rest)
    ensures DecodeUtf8(t + rest) == ['\U{fffd}'] + DecodeUtf8(rest)
  {
    hide Second, Continuation, EncodeChar;
    var bs := t + rest;
    BeginsExactly(t);
    if rest != [] { BeginsExactly(t + [rest[0]]); }
    if IsWhole(t) { WholeIsCharacter(t); }
    assert forall i | 0 <= i < |t| :: bs[i] == t[i];
    assert bs[|t|..] == rest;
    assert rest != [] ==> bs[|t|] == rest[0];
  }

  /** A whole valid sequence. */
  ghost predicate IsWhole(t: seq<Byte>)
  {
    match |t|
    case 1 => t[0] < 0x80
    case 2 => Second(t[0], t[1]) && t[0] < 0xE0
    case 3 => Second(t[0], t[1]) && 0xE0 <= t[0] < 0xF0 && Continuation(t[2])
    case 4 => Second(t[0], t[1]) && 0xF0 <= t[0] && Continuation(t[2]) && Continuation(t[3])
    case _ => false
  }

  lemma WholeIsCharacter(t: seq<Byte>)
    requires IsWhole(t)
    ensures (exists c :: t == EncodeChar(c)) && Begins(t)
  {
    hide Second, Continuation, EncodeChar, Two, Three, Four;
    AsciiByte(t[0]);
    if |t| == 1 {
      assert t == [t[0]];
    } else if |t| == 2 {
      ReencodesTwo(t[0], t[1]);
      assert t == [t[0], t[1]];
    } else if |t| == 3 {
      ReencodesThree(t[0], t[1], t[2]);
      assert t == [t[0], t[1], t[2]];
    } else {
      ReencodesFour(t[0], t[1], t[2], t[3]);
      assert t == [t[0], t[1], t[2], t[3]];
    }
  }

  lemma BeginsExactly(t: seq<Byte>)
    requires t != []
    ensures Begins(t) <==> BeginsSequence(t)
  {
    hide EncodeChar, Second, Continuation;
    if Begins(t) {
      var c :| t <= EncodeChar(c);
      EncodedBytes(c);
      FirstByte(EncodeChar(c));
      assert forall i | 0 <= i < |t| :: t[i] == EncodeChar(c)[i];
    }
    if BeginsSequence(t) { SomeSequence(t); }
  }

  ghost predicate BeginsSequence(t: seq<Byte>)
    requires t != []
  {
    if |t| == 1 then t[0] < 0x80 || 0xC2 <= t[0] < 0xF5
    else
      && t[0] >= 0x80 && Second(t[0], t[1])
      && (|t| == 2 || (t[0] >= 0xE0 && Continuation(t[2])
                       && (|t| == 3 || (|t| == 4 && t[0] >= 0xF0 && Continuation(t[3])))))
  }

  lemma FirstByte(bs: seq<Byte>)
    ensures |bs| >= 2 && Second(bs[0], bs[1]) ==> 0xC2 <= bs[0] < 0xF5
  {
  }

  lemma SomeSequence(t: seq<Byte>)
    requires t != [] && BeginsSequence(t)
    ensures Begins(t)
  {
    hide EncodeChar;
    AsciiByte(t[0]);
    if t[0] < 0x80 {
      assert t <= EncodeChar(t[0] as char);
    } else {
      var b := if |t| > 1 then t[1] else if t[0] == 0xE0 then 0xA0 else if t[0] == 0xF0 then 0x90 else 0x80;
      var c, d := if |t| > 2 then t[2] else 0x80, if |t| > 3 then t[3] else 0x80;
      assert Second(t[0], b);
      if t[0] < 0xE0 {
        ReencodesTwo(t[0], b);
        assert t <= [t[0], b];
      } else if t[0] < 0xF0 {
        ReencodesThree(t[0], b, c);
        assert t <= [t[0], b, c];
      } else {
        ReencodesFour(t[0], b, c, d);
        assert t <= [t[0], b, c, d];
      }
    }
  }

  // ----- percent-encoding -----

  function HexValue(c: char): Option<nat>
  {
    if '0' <= c <= '9' then Some(c as int - '0' as int)
    else if 'a' <= c <= 'f' then Some(c as int - 'a' as int + 10)
    else if 'A' <= c <= 'F' then Some(c as int - 'A' as int + 10)
    else None
  }

  predicate EscapeAt(s: string)
  {
    |s| >= 3 && s[0] == '%' && HexValue(s[1]).Some? && HexValue(s[2]).Some?
  }

  function EscapedByte(s: string): Byte
    requires EscapeAt(s)
  {
    HexValue(s[1]).value * 16 + HexValue(s[2]).value
  }

  /** unquote of s, with the bytes of the current ASCII run collected so far. */
  function UnquoteFrom(s: string, run: seq<Byte>): string
  {
    if s == "" then DecodeUtf8(run)
    else if EscapeAt(s) then UnquoteFrom(s[3..], run + [EscapedByte(s)])
    else if s[0] as int < 0x80 then UnquoteFrom(s[1..], run + [s[0] as int])
    else DecodeUtf8(run) + [s[0]] + UnquoteFrom(s[1..], [])
  }

  function Unquote(s: string): string
  {
    UnquoteFrom(s, [])
  }

  function UnquoteTimes(s: string, n: nat): string
    decreases n
  {
    if n == 0 then s else UnquoteTimes(Unquote(s), n - 1)
  }

  function HexDigit(n: nat): char
    requires n < 16
  {
    if n < 10 then ('0' as int + n) as char else ('A' as int + n - 10) as char
  }

  function Escape(b: Byte): string
  {
    ['%', HexDigit(b / 16), HexDigit(b % 16)]
  }

  function EscapeAll(bs: seq<Byte>): string
  {
    if bs == [] then "" else Escape(bs[0]) + EscapeAll(bs[1..])
  }

  /** The characters urllib.parse.quote leaves alone. */
  predicate Unreserved(c: char)
  {
    'a' <= c <= 'z' || 'A' <= c <= 'Z' || '0' <= c <= '9' || c == '_' || c == '.' || c == '-' || c == '~' || c == '/'
  }

  function Quote(s: string): string
  {
    if s == "" then "" else (if Unreserved(s[0]) then [s[0]] else EscapeAll(EncodeChar(s[0]))) + Quote(s[1..])
  }

  // ----- decoding undoes every percent-encoding -----

  /** A digit of this value, of either case. */
  ghost predicate Hex(c: char, value: nat)
  {
    value < 16 && (c == "0123456789abcdef"[value] || c == "0123456789ABCDEF"[value])
  }

  ghost predicate IsHex(c: char)
  {
    exists value :: Hex(c, value)
  }

  /** Every byte as a percent sign and two digits. */
  ghost predicate Escapes(e: string, bs: seq<Byte>)
  {
    |e| == 3 * |bs| && forall i | 0 <= i < |bs| ::
      e[3 * i] == '%' && Hex(e[3 * i + 1], bs[i] / 16) && Hex(e[3 * i + 2], bs[i] % 16)
  }

  /** The character itself, unless it is a percent sign, or its bytes escaped. */
  ghost predicate SpellsChar(e: string, c: char)
  {
    (e == [c] && c != '%') || Escapes(e, EncodeChar(c))
  }

  /** Some percent-encoding of the text: whichever characters are escaped, in whichever case. */
  ghost predicate Spells(u: string, p: string)
    decreases |p|
  {
    if p == "" then u == "" else exists k | 0 < k <= |u| :: SpellsChar(u[..k], p[0]) && Spells(u[k..], p[1..])
  }

  lemma HexExactly(c: char)
    ensures forall value: nat :: Hex(c, value) <==> HexValue(c) == Some(value)
    ensures IsHex(c) <==> HexValue(c).Some?
  {
    forall value: nat ensures Hex(c, value) <==> HexValue(c) == Some(value) {
      if value < 16 { HexDigits(value); }
    }
  }

  lemma HexDigits(value: nat)
    requires value < 16
    ensures "0123456789abcdef"[value] as int == if value < 10 then '0' as int + value else 'a' as int + value - 10
    ensures "0123456789ABCDEF"[value] as int == if value < 10 then '0' as int + value else 'A' as int + value - 10
  {
  }

  lemma EscapeReads(e: string, b: Byte, s: string)
    requires Escapes(e, [b])
    ensures EscapeAt(e + s) && EscapedByte(e + s) == b && (e + s)[3..] == s
  {
    hide Hex, HexValue;
    assert e[3 * 0] == '%' && Hex(e[3 * 0 + 1], [b][0] / 16) && Hex(e[3 * 0 + 2], [b][0] % 16);
    HexExactly(e[1]);
    HexExactly(e[2]);
    assert (e + s)[0] == e[0] && (e + s)[1] == e[1] && (e + s)[2] == e[2];
  }

  lemma FirstEscape(e: string, bs: seq<Byte>)
    requires bs != [] && Escapes(e, bs)
    ensures |e| >= 3 && Escapes(e[..3], [bs[0]]) && Escapes(e[3..], bs[1..])
  {
    hide Hex;
    assert e[3 * 0] == '%' && Hex(e[3 * 0 + 1], bs[0] / 16) && Hex(e[3 * 0 + 2], bs[0] % 16);
    forall i | 0 <= i < |bs[1..]|
      ensures e[3..][3 * i] == '%' && Hex(e[3..][3 * i + 1], bs[1..][i] / 16) && Hex(e[3..][3 * i + 2], bs[1..][i] % 16)
    {
      var j := i + 1;
      assert e[3 * j] == '%' && Hex(e[3 * j + 1], bs[j] / 16) && Hex(e[3 * j + 2], bs[j] % 16);
    }
  }

  lemma {:induction false} UnquoteEscapes(e: string, bs: seq<Byte>, s: string, run: seq<Byte>)
    requires Escapes(e, bs)
    ensures UnquoteFrom(e + s, run) == UnquoteFrom(s, run + bs)
  {
    hide Escapes, EscapeAt, EscapedByte;
    if bs == [] {
      NoEscapes(e);
      assert e + s == s && run + bs == run;
    } else {
      FirstEscape(e, bs);
      var tail := e[3..] + s;
      assert e + s == e[..3] + tail;
      EscapeReads(e[..3], bs[0], tail);
      UnquoteEscapes(e[3..], bs[1..], s, run + [bs[0]]);
      assert run + [bs[0]] + bs[1..] == run + bs;
    }
  }

  lemma NoEscapes(e: string)
    requires Escapes(e, [])
    ensures e == ""
  {
  }

  lemma {:induction false} EncodeSnoc(q: string, c: char)
    ensures EncodeUtf8(q + [c]) == EncodeUtf8(q) + EncodeChar(c)
  {
    if q == "" {
      assert [c][1..] == "" && EncodeChar(c) + [] == EncodeChar(c) && "" + [c] == [c];
    } else {
      assert (q + [c])[1..] == q[1..] + [c];
      EncodeSnoc(q[1..], c);
      Associates(EncodeChar(q[0]), EncodeUtf8(q[1..]), EncodeChar(c));
    }
  }

  /** ... with the text q read before it. */
  lemma {:induction false} UnquoteSpellingFrom(u: string, p: string, q: string)
    requires Spells(u, p)
    ensures UnquoteFrom(u, EncodeUtf8(q)) == q + p
    decreases |p|
  {
    hide EncodeChar, EncodeUtf8, DecodeUtf8, SpellsChar;
    if p == "" {
      DecodeEncoded(q);
    } else {
      var k :| 0 < k <= |u| && SpellsChar(u[..k], p[0]) && Spells(u[k..], p[1..]);
      assert u == u[..k] + u[k..];
      UnquoteOne(u[..k], p[0], u[k..], q);
      UnquoteSpellingFrom(u[k..], p[1..], q + [p[0]]);
      UnquoteSpellingFrom(u[k..], p[1..], "");
      EmptyRun();
      assert q + p == q + [p[0]] + p[1..];
      assert q + [p[0]] + ("" + p[1..]) == q + p;
    }
  }

  lemma EmptyRun()
    ensures EncodeUtf8("") == []
  {
  }

  lemma UnquoteOne(e: string, c: char, s: string, q: string)
    requires SpellsChar(e, c)
    ensures UnquoteFrom(e + s, EncodeUtf8(q)) == UnquoteFrom(s, EncodeUtf8(q + [c]))
      || UnquoteFrom(e + s, EncodeUtf8(q)) == q + [c] + UnquoteFrom(s, [])
  {
    hide DecodeUtf8, EncodeUtf8, Escapes;
    EncodeSnoc(q, c);
    DecodeEncoded(q);
    if Escapes(e, EncodeChar(c)) {
      UnquoteEscapes(e, EncodeChar(c), s, EncodeUtf8(q));
    } else {
      assert ([c] + s)[1..] == s && ([c] + s)[0] == c;
    }
  }

  /** Decoding once undoes any percent-encoding. */
  lemma UnquoteSpelling(u: string, p: string)
    requires Spells(u, p)
    ensures Unquote(u) == p
  {
    hide Spells, UnquoteFrom;
    EmptyRun();
    UnquoteSpellingFrom(u, p, "");
    assert "" + p == p;
  }

  /** ... and leaves text without escapes alone. */
  lemma {:induction false} UnquotePlainFrom(u: string, q: string)
    requires forall i | 0 <= i < |u| - 2 && u[i] == '%' ::
      !(IsHex(u[i + 1]) && IsHex(u[i + 2]))
    ensures UnquoteFrom(u, EncodeUtf8(q)) == q + u
  {
    hide Hex, IsHex, HexValue, EncodeUtf8, DecodeUtf8;
    DecodeEncoded(q);
    EmptyRun();
    if u != "" {
      if |u| > 2 {
        HexExactly(u[1]);
        HexExactly(u[2]);
      }
      EncodeSnoc(q, u[0]);
      assert q + u == q + [u[0]] + u[1..];
      forall i | 0 <= i < |u[1..]| - 2 && u[1..][i] == '%'
        ensures !(IsHex(u[1..][i + 1]) && IsHex(u[1..][i + 2]))
      {
        assert u[i + 1] == '%' && u[1..][i + 1] == u[i + 2] && u[1..][i + 2] == u[i + 3];
      }
      UnquotePlainFrom(u[1..], q + [u[0]]);
      UnquotePlainFrom(u[1..], "");
      assert q + [u[0]] + ("" + u[1..]) == q + u;
    }
  }

  lemma UnquotePlain(u: string)
    requires forall i | 0 <= i < |u| - 2 && u[i] == '%' ::
      !(IsHex(u[i + 1]) && IsHex(u[i + 2]))
    ensures Unquote(u) == u
  {
    EmptyRun();
    UnquotePlainFrom(u, "");
    assert "" + u == u;
  }

  lemma {:induction false} EscapeAllEscapes(bs: seq<Byte>)
    ensures Escapes(EscapeAll(bs), bs)
  {
    hide Hex;
    if bs != [] {
      EscapeAllEscapes(bs[1..]);
      var e, rest := EscapeAll(bs), EscapeAll(bs[1..]);
      assert e == Escape(bs[0]) + rest;
      forall i | 0 <= i < |bs|
        ensures e[3 * i] == '%' && Hex(e[3 * i + 1], bs[i] / 16) && Hex(e[3 * i + 2], bs[i] % 16)
      {
        if i == 0 {
          UpperHex(bs[0] / 16);
          UpperHex(bs[0] % 16);
        } else {
          var j := i - 1;
          assert rest[3 * j] == '%' && Hex(rest[3 * j + 1], bs[1..][j] / 16) && Hex(rest[3 * j + 2], bs[1..][j] % 16);
          assert e[3 * i] == rest[3 * j] && e[3 * i + 1] == rest[3 * j + 1] && e[3 * i + 2] == rest[3 * j + 2];
        }
      }
    }
  }

  lemma UpperHex(n: nat)
    requires n < 16
    ensures Hex(HexDigit(n), n)
  {
    HexDigits(n);
  }

  lemma {:induction false} QuoteSpells(p: string)
    ensures Spells(Quote(p), p)
  {
    hide Escapes, EncodeChar;
    if p != "" {
      var e := if Unreserved(p[0]) then [p[0]] else EscapeAll(EncodeChar(p[0]));
      EscapeAllEscapes(EncodeChar(p[0]));
      EscapeAllLength(EncodeChar(p[0]));
      QuoteSpells(p[1..]);
      var u := Quote(p);
      assert u[..|e|] == e && u[|e|..] == Quote(p[1..]);
    }
  }

  lemma EscapeAllLength(bs: seq<Byte>)
    ensures bs != [] ==> EscapeAll(bs) != ""
  {
  }

  /** The characters that quote leaves as they are. */
  lemma UnreservedAre(c: char)
    ensures Quote([c]) == [c] <==>
      c in "abcdefghijklmnopqrstuvwxyz" || c in "ABCDEFGHIJKLMNOPQRSTUVWXYZ" || c in "0123456789_.-~/"
  {
    hide EncodeChar;
    assert [c][1..] == "";
    EncodedBytes(c);
    EscapesHaveNoSpace(EncodeChar(c));
    LettersAre(c);
    if !Unreserved(c) {
      assert Quote([c]) == EscapeAll(EncodeChar(c)) + Quote("");
    }
  }

  lemma LettersAre(c: char)
    ensures c in "abcdefghijklmnopqrstuvwxyz" <==> 'a' <= c <= 'z'
    ensures c in "ABCDEFGHIJKLMNOPQRSTUVWXYZ" <==> 'A' <= c <= 'Z'
    ensures c in "0123456789_.-~/" <==> '0' <= c <= '9' || c == '_' || c == '.' || c == '-' || c == '~' || c == '/'
  {
  }

  /** Decoding once undoes encoding once, for every text. */
  lemma UnquoteQuote(p: string)
    ensures Unquote(Quote(p)) == p
  {
    QuoteSpells(p);
    UnquoteSpelling(Quote(p), p);
  }

  // ----- scheme stripping -----

  /** One letter of the scheme pattern, matched as re.IGNORECASE does. */
  predicate LetterMatches(c: char, letter: char)
    requires 'a' <= letter <= 'z'
  {
    || c == letter || c as int == letter as int - 32
    || (letter == 's' && c == '\U{017f}')
    || (letter == 'i' && (c == '\U{0130}' || c == '\U{0131}'))
  }

  predicate WordMatches(s: string, word: string)
    requires forall i | 0 <= i < |word| :: 'a' <= word[i] <= 'z'
  {
    |word| <= |s| && forall i | 0 <= i < |word| :: LetterMatches(s[i], word[i])
  }

  /** Length of the word that ^(?:file|https?):// matches before "://", 0 for no match. */
  function SchemeLength(s: string): (n: nat)
    ensures n <= |s|
    ensures n > 0 ==> s[n..] != [] && "://" <= s[n..]
  {
    if WordMatches(s, "file") && "://" <= s[4..] then 4
    else if WordMatches(s, "https") && "://" <= s[5..] then 5
    else if WordMatches(s, "http") && "://" <= s[4..] then 4
    else 0
  }

  /** urlsplit drops these wherever they occur. */
  function DropBreaks(s: string): string
  {
    if s == "" then ""
    else (if s[0] == '\t' || s[0] == '\r' || s[0] == '\n' then [] else [s[0]]) + DropBreaks(s[1..])
  }

  /** The text before the first of these characters. */
  function Before(s: string, stops: set<char>): (r: string)
    ensures |r| <= |s| && r == s[..|r|]
    ensures |r| < |s| ==> s[|r|] in stops
    ensures forall i | 0 <= i < |r| :: r[i] !in stops
  {
    if s == "" || s[0] in stops then "" else [s[0]] + Before(s[1..], stops)
  }

  predicate Ascii(s: string)
  {
    forall i | 0 <= i < |s| :: s[i] as int < 0x80
  }

  /** strip_scheme: the path urlsplit finds, if there is one.  None is a ValueError. */
  function StripScheme(s: string, platform: Platform): Option<string>
  {
    var n := SchemeLength(s);
    if n == 0 then Some(s)
    else if !Ascii(s[..n]) then
      // not a scheme for urlsplit, so everything before ? and # is the path
      var path := Before(DropBreaks(s), {'?', '#'});
      Some(if path != "" then path else s)
    else
      var rest := DropBreaks(s[n + 3..]);
      var netloc := Before(rest, {'/', '?', '#'});
      if !platform.netlocAccepted(netloc) then None
      else
        var path := Before(rest[|netloc|..], {'?', '#'});
        Some(if path != "" then path else s)
  }

  // ----- safe paths -----

  predicate DriveAt(s: string)
  {
    |s| >= 2 && ('a' <= s[0] <= 'z' || 'A' <= s[0] <= 'Z') && s[1] == ':'
  }

  /** _is_safe_location; the walk below repeats the same tests. */
  predicate SafeLocation(s: string, platform: Platform)
  {
    && s != "" && |s| <= 1024
    && (forall i | 0 <= i < |s| :: platform.printable(s[i]))
    && s[0] != '/' && '\\' !in s && !DriveAt(s)
    && forall part | part in SplitOn(s, '/') :: part != "" && part != "." && part != ".."
  }

  // what that means for the path

  /** Safe are exactly short printable texts of proper names joined by slashes, without a
      backslash or a drive. */
  lemma SafeExactly(s: string, platform: Platform)
    ensures SafeLocation(s, platform) <==>
      && |s| <= 1024 && (forall c | c in s :: platform.printable(c) && c != '\\')
      && !(|s| > 1 && s[1] == ':' && ('A' <= s[0] <= 'Z' || 'a' <= s[0] <= 'z'))
      && exists parts :: ArchiveNames.ProperNames(parts) && ArchiveNames.Join(parts) == s
  {
    hide SplitOn;
    ArchiveNames.SplitHasNoSlash(s);
    ArchiveNames.JoinSegments(s);
    if parts :| ArchiveNames.ProperNames(parts) && ArchiveNames.Join(parts) == s {
      ArchiveNames.SplitJoin(parts);
      ProperStart(parts);
    }
    if SafeLocation(s, platform) {
      assert ArchiveNames.ProperNames(SplitOn(s, '/'));
      forall c | c in s ensures platform.printable(c) {
        var i :| 0 <= i < |s| && s[i] == c;
      }
    }
  }

  lemma ProperStart(parts: seq<string>)
    requires ArchiveNames.ProperNames(parts)
    ensures var s := ArchiveNames.Join(parts); s != "" && s[0] != '/'
  {
    assert parts[0] in parts && parts[0][0] in parts[0];
  }

  /** Joined to any root, a safe location stays strictly below it, at every segment. */
  lemma SafeStaysBelowRoot(s: string, platform: Platform, root: seq<string>, k: nat)
    requires SafeLocation(s, platform) && 0 < k <= |ArchiveNames.Segments(s)|
    ensures var parts := ArchiveNames.Segments(s);
      root < ArchiveNames.Enter(root, parts[..k]) && ArchiveNames.Enter(root, parts[..k]) == root + parts[..k]
  {
    var parts := ArchiveNames.Segments(s);
    forall i | 0 <= i < k ensures ArchiveNames.Plain(parts[..k][i]) { assert parts[i] in SplitOn(s, '/'); }
    ArchiveNames.EnterPlain(root, parts[..k]);
  }

  /** One more layer for the security walk. */
  function NextLayer(s: string, platform: Platform): Option<string>
  {
    StripScheme(Unquote(s), platform)
  }

  /** The walk accepts candidate with `left` further decoding passes allowed. */
  predicate WalkAccepts(candidate: string, left: nat, platform: Platform)
    decreases left
  {
    match NextLayer(candidate, platform)
    case None => false
    case Some(decoded) =>
      decoded == candidate || (left > 0 && SafeLocation(decoded, platform) && WalkAccepts(decoded, left - 1, platform))
  }

  function RemovePrefix(s: string): string
  {
    if "./" <= s then s[2..] else s
  }

  /** The identity of a location: decoded once, accepted by the security walk. */
  function Normalized(uri: string, platform: Platform): Result<string>
  {
    match NextLayer(Strip(uri), platform)
    case None => Refused
    case Some(value) =>
      if WalkAccepts(value, MAX_URI_DECODE_LAYERS, platform) then Ok(RemovePrefix(value)) else Refused
  }

  // ----- the path:line spelling -----

  function TrailingDigits(s: string, digit: char -> bool): (n: nat)
    ensures n <= |s| && (forall i | |s| - n <= i < |s| :: digit(s[i]))
    ensures n < |s| ==> !digit(s[|s| - n - 1])
  {
    if s == "" || !digit(s[|s| - 1]) then 0 else 1 + TrailingDigits(s[..|s| - 1], digit)
  }

  /** Without a colon and digits at the end, or before a newline at the end. */
  function DropLine(s: string, digit: char -> bool): string
  {
    var body := if s != "" && s[|s| - 1] == '\n' then s[..|s| - 1] else s;
    var n := TrailingDigits(body, digit);
    if 0 < n < |body| && body[|body| - n - 1] == ':' then body[..|body| - n - 1] + s[|body|..] else s
  }

  predicate IsLine(s: string, digit: char -> bool)
  {
    s != "" && forall i | 0 <= i < |s| :: digit(s[i])
  }

  /** Exactly the path is left of path:line, and nothing else is shortened. */
  lemma LineDropped(s: string, digit: char -> bool)
    requires !digit(':') && !digit('\n')
    ensures forall p, line | IsLine(line, digit) && s == p + ":" + line :: DropLine(s, digit) == p
    ensures DropLine(s, digit) != s ==> exists p, line, end ::
      IsLine(line, digit) && (end == "" || end == "\n") && s == p + ":" + line + end && DropLine(s, digit) == p + end
  {
    hide DropLine, IsLine;
    forall p, line | IsLine(line, digit) && s == p + ":" + line ensures DropLine(s, digit) == p {
      PathIsLeft(p, line, digit);
    }
    if DropLine(s, digit) != s { var p, line, end := LineIsGone(s, digit); }
  }

  lemma PathIsLeft(p: string, line: string, digit: char -> bool)
    requires IsLine(line, digit) && !digit(':') && !digit('\n')
    ensures DropLine(p + ":" + line, digit) == p
  {
    hide TrailingDigits;
    var s := p + ":" + line;
    DigitsOf(p, line, digit);
    assert s[|s| - 1] == line[|line| - 1];
    assert s[..|p|] == p && s[|s|..] == "";
  }

  lemma LineIsGone(s: string, digit: char -> bool) returns (p: string, line: string, end: string)
    requires DropLine(s, digit) != s
    ensures IsLine(line, digit) && (end == "" || end == "\n")
    ensures s == p + ":" + line + end && DropLine(s, digit) == p + end
  {
    hide TrailingDigits;
    var body := if s != "" && s[|s| - 1] == '\n' then s[..|s| - 1] else s;
    var k := |body| - TrailingDigits(body, digit);
    p, line, end := body[..k - 1], body[k..], s[|body|..];
    CutAround(body, k);
    assert s == body + end;
  }

  lemma CutAround(s: string, k: nat)
    requires 0 < k <= |s|
    ensures s == s[..k - 1] + [s[k - 1]] + s[k..]
  {
  }

  lemma DigitsOf(p: string, line: string, digit: char -> bool)
    requires IsLine(line, digit) && !digit(':')
    ensures TrailingDigits(p + ":" + line, digit) == |line|
  {
    var s := p + ":" + line;
    var n := TrailingDigits(s, digit);
    assert s[|p|] == ':';
    assert forall i | |p| < i < |s| :: s[i] == line[i - |p| - 1] && digit(s[i]);
  }

  /** _normalize_location; baseline entries may be spelled path:line. */
  method NormalizeLocation(uri: string, stripLine: bool, platform: Platform) returns (r: Result<string>)
    ensures r.Ok? <==> Normalized(uri, platform).Ok?
    ensures r.Ok? && !stripLine ==> r == Normalized(uri, platform)
    ensures r.Ok? && stripLine ==> r.value == DropLine(Normalized(uri, platform).value, platform.digit)
  {
    hide Unquote, StripScheme, SafeLocation, Strip, RemovePrefix, DropLine;
    var value := StripScheme(Unquote(Strip(uri)), platform);
    if value.None? { return Refused; }
    var candidate := value.value;
    for depth := 0 to MAX_URI_DECODE_LAYERS + 1
      invariant depth <= MAX_URI_DECODE_LAYERS
      invariant WalkAccepts(value.value, MAX_URI_DECODE_LAYERS, platform)
        <==> WalkAccepts(candidate, MAX_URI_DECODE_LAYERS - depth, platform)
    {
      var decoded := StripScheme(Unquote(candidate), platform);
      if decoded.None? { return Refused; }
      if decoded.value == candidate { break; }
      if depth == MAX_URI_DECODE_LAYERS { return Refused; }
      if !SafeLocation(decoded.value, platform) { return Refused; }
      candidate := decoded.value;
    }
    var path := RemovePrefix(value.value);
    if stripLine { path := DropLine(path, platform.digit); }
    return Ok(path);
  }

  // ----- every deeper layer is safe -----

  lemma {:induction false} SplitAtSlash(s: string, i: nat)
    requires 0 < i < |s| && s[i] == '/' && s[i - 1] == '/'
    ensures "" in SplitOn(s, '/')[1..]
  {
    var rest := SplitOn(s[1..], '/');
    if i > 1 {
      SplitAtSlash(s[1..], i - 1);
      assert "" in rest[1..];
      assert SplitOn(s, '/')[1..] == if s[0] == '/' then rest else rest[1..];
    } else {
      assert rest[0] == "";
      assert SplitOn(s, '/')[1..] == rest;
    }
  }

  /** A doubled slash is never safe. */
  lemma DoubleSlashUnsafe(s: string, i: nat, platform: Platform)
    requires 0 < i < |s| && s[i] == '/' && s[i - 1] == '/'
    ensures !SafeLocation(s, platform)
  {
    SplitAtSlash(s, i);
    assert "" in SplitOn(s, '/');
  }

  lemma {:induction false} DropBreaksPrefix(a: string, b: string)
    requires forall i | 0 <= i < |a| :: a[i] != '\t' && a[i] != '\r' && a[i] != '\n'
    ensures DropBreaks(a + b) == a + DropBreaks(b)
  {
    if a == "" {
      assert a + b == b;
    } else {
      assert (a + b)[1..] == a[1..] + b;
      DropBreaksPrefix(a[1..], b);
      assert a == [a[0]] + a[1..];
    }
  }

  lemma {:induction false} BeforePrefix(a: string, b: string, stops: set<char>)
    requires forall i | 0 <= i < |a| :: a[i] !in stops
    ensures Before(a + b, stops) == a + Before(b, stops)
  {
    if a == "" {
      assert a + b == b;
    } else {
      assert (a + b)[1..] == a[1..] + b;
      BeforePrefix(a[1..], b, stops);
      assert a == [a[0]] + a[1..];
    }
  }

  /** The pattern finds file, http or https, each letter in either case, and those that
      fold to one of them, before "://". */
  lemma SchemeExactly(s: string, n: nat)
    ensures SchemeLength(s) == n && n > 0 <==>
      || (n == 4 && |s| > 6 && s[4..7] == "://"
          && ((s[0] in "fF" && s[1] in "iI\U{0130}\U{0131}" && s[2] in "lL" && s[3] in "eE")
              || (s[0] in "hH" && s[1] in "tT" && s[2] in "tT" && s[3] in "pP")))
      || (n == 5 && |s| > 7 && s[5..8] == "://"
          && s[0] in "hH" && s[1] in "tT" && s[2] in "tT" && s[3] in "pP" && s[4] in "sS\U{017f}")
  {
    hide WordMatches;
    WordsExactly(s);
    SlashesAt(s, 4);
    SlashesAt(s, 5);
  }

  lemma SlashesAt(s: string, k: nat)
    ensures k <= |s| ==> ("://" <= s[k..] <==> |s| > k + 2 && s[k..k + 3] == "://")
  {
    if |s| > k + 2 { assert s[k..][..3] == s[k..k + 3]; }
  }

  lemma WordsExactly(s: string)
    ensures WordMatches(s, "file") <==>
      |s| > 3 && s[0] in "fF" && s[1] in "iI\U{0130}\U{0131}" && s[2] in "lL" && s[3] in "eE"
    ensures WordMatches(s, "http") <==> |s| > 3 && s[0] in "hH" && s[1] in "tT" && s[2] in "tT" && s[3] in "pP"
    ensures WordMatches(s, "https") <==> |s| > 4 && WordMatches(s, "http") && s[4] in "sS\U{017f}"
  {
    var file, http, https := "file", "http", "https";
    assert |file| == |http| == 4 && |https| == 5;
    if |s| > 3 {
      assert WordMatches(s, file) <==>
        && LetterMatches(s[0], 'f') && LetterMatches(s[1], 'i')
        && LetterMatches(s[2], 'l') && LetterMatches(s[3], 'e');
      assert WordMatches(s, http) <==>
        && LetterMatches(s[0], 'h') && LetterMatches(s[1], 't')
        && LetterMatches(s[2], 't') && LetterMatches(s[3], 'p');
    }
    if |s| > 4 {
      assert WordMatches(s, https) <==>
        && LetterMatches(s[0], 'h') && LetterMatches(s[1], 't')
        && LetterMatches(s[2], 't') && LetterMatches(s[3], 'p') && LetterMatches(s[4], 's');
    }
  }

  /** urlsplit drops tabs and line ends, and nothing else. */
  lemma {:induction false} DropBreaksExactly(s: string)
    ensures forall c | c in s && c !in "\t\r\n" :: c in DropBreaks(s)
    ensures forall c | c in DropBreaks(s) :: c !in "\t\r\n"
  {
    if s != "" {
      DropBreaksExactly(s[1..]);
      assert s == [s[0]] + s[1..];
    }
  }

  lemma {:induction false} DropBreaksJoin(a: string, b: string)
    ensures DropBreaks(a + b) == DropBreaks(a) + DropBreaks(b)
  {
    if a == "" {
      assert a + b == b;
    } else {
      assert (a + b)[1..] == a[1..] + b && (a + b)[0] == a[0];
      DropBreaksJoin(a[1..], b);
      var one := if a[0] == '\t' || a[0] == '\r' || a[0] == '\n' then [] else [a[0]];
      assert DropBreaks(a) == one + DropBreaks(a[1..]);
      Associates(one, DropBreaks(a[1..]), DropBreaks(b));
    }
  }

  ghost predicate Without(s: string, stops: set<char>)
  {
    forall i | 0 <= i < |s| :: s[i] !in stops
  }

  /** Of an address, its path is left, and all of it when it has none. */
  lemma AddressPath(scheme: string, host: string, path: string, tail: string, platform: Platform)
    requires var s := scheme + "://" + (host + (path + tail));
      SchemeLength(s) == |scheme| > 0 && Ascii(scheme)
    requires Without(host, {'/', '?', '#', '\t', '\r', '\n'}) && Without(path, {'?', '#', '\t', '\r', '\n'})
    requires (path == "" || path[0] == '/') && (tail == "" || tail[0] in {'?', '#'})
    ensures var s := scheme + "://" + (host + (path + tail));
      StripScheme(s, platform) ==
        if !platform.netlocAccepted(host) then None else Some(if path == "" then s else path)
  {
    hide SchemeLength;
    var s := scheme + "://" + (host + (path + tail));
    assert s[..|scheme|] == scheme && s[|scheme| + 3..] == host + (path + tail);
    DropBreaksPrefix(host, path + tail);
    DropBreaksPrefix(path, tail);
    TailStays(tail);
    var rest := DropBreaks(tail);
    BeforePrefix(host, path + rest, {'/', '?', '#'});
    BeforePrefix(path, rest, {'?', '#'});
    assert host + "" == host && path + "" == path;
    assert (host + (path + rest))[|host|..] == path + rest;
  }

  lemma TailStays(tail: string)
    requires tail == "" || tail[0] in {'?', '#'}
    ensures DropBreaks(tail) == "" || DropBreaks(tail)[0] in {'?', '#'}
    ensures Before(DropBreaks(tail), {'?', '#'}) == ""
  {
  }

  /** A scheme that only folds to one is none for urlsplit. */
  lemma FoldedAddressPath(s: string, tail: string, platform: Platform)
    requires SchemeLength(s) > 0 && !Ascii(s[..SchemeLength(s)]) && SchemeLength(s + tail) == SchemeLength(s)
    requires Without(s, {'?', '#', '\t', '\r', '\n'}) && (tail == "" || tail[0] in {'?', '#'})
    ensures StripScheme(s + tail, platform) == Some(s)
  {
    hide SchemeLength;
    var n := SchemeLength(s);
    assert (s + tail)[..n] == s[..n];
    DropBreaksPrefix(s, tail);
    TailStays(tail);
    BeforePrefix(s, DropBreaks(tail), {'?', '#'});
    assert s + "" == s;
  }

  /** Stripping a scheme never yields a safe path: it starts with a slash, or keeps "//". */
  lemma SchemeIsUnsafe(s: string, platform: Platform)
    requires SchemeLength(s) > 0
    ensures StripScheme(s, platform).Some? ==> !SafeLocation(StripScheme(s, platform).value, platform)
    ensures !SafeLocation(s, platform)
  {
    var n := SchemeLength(s);
    assert s[n..][1] == '/' && s[n..][2] == '/';
    DoubleSlashUnsafe(s, n + 2, platform);
    if !Ascii(s[..n]) {
      var a, b := s[..n + 3], s[n + 3..];
      assert s == a + b;
      SchemeCharacters(s);
      DropBreaksPrefix(a, b);
      BeforePrefix(a, DropBreaks(b), {'?', '#'});
      var path := Before(DropBreaks(s), {'?', '#'});
      assert path[n + 1] == a[n + 1] && path[n + 2] == a[n + 2];
      DoubleSlashUnsafe(path, n + 2, platform);
    } else {
      var rest := DropBreaks(s[n + 3..]);
      var netloc := Before(rest, {'/', '?', '#'});
      var path := Before(rest[|netloc|..], {'?', '#'});
      assert path != "" ==> path[0] == '/';
    }
  }

  lemma SchemeCharacters(s: string)
    requires SchemeLength(s) > 0
    ensures var n := SchemeLength(s);
      forall i | 0 <= i < n + 3 :: s[i] != '\t' && s[i] != '\r' && s[i] != '\n' && s[i] !in {'?', '#'}
  {
    var n := SchemeLength(s);
    assert forall i | 0 <= i < n :: s[i] as int >= 65;
    assert s[n] == s[n..][0] && s[n + 1] == s[n..][1] && s[n + 2] == s[n..][2];
  }

  /** On a safe path a layer is a plain decoding. */
  lemma SafeLayerIsDecoding(s: string, platform: Platform)
    requires NextLayer(s, platform).Some? && SafeLocation(NextLayer(s, platform).value, platform)
    ensures NextLayer(s, platform) == Some(Unquote(s))
  {
    if SchemeLength(Unquote(s)) > 0 { SchemeIsUnsafe(Unquote(s), platform); }
  }

  lemma {:induction false} FixedForever(s: string, n: nat)
    requires Unquote(s) == s
    ensures UnquoteTimes(s, n) == s
    decreases n
  {
    if n > 0 { FixedForever(s, n - 1); }
  }

  /** The path no longer changes after n decodings, and is safe until then. */
  ghost predicate Unwraps(s: string, n: nat, platform: Platform)
  {
    && UnquoteTimes(s, n + 1) == UnquoteTimes(s, n)
    && forall k | 0 < k <= n :: SafeLocation(UnquoteTimes(s, k), platform)
  }

  /** The walk over a safe path accepts exactly when decoding it settles within the bound,
      over safe paths only. */
  lemma {:induction false} WalkExactly(s: string, left: nat, platform: Platform)
    requires SafeLocation(s, platform)
    ensures WalkAccepts(s, left, platform) <==> exists n | 0 <= n <= left :: Unwraps(s, n, platform)
    decreases left
  {
    hide Unquote, SafeLocation, Unwraps, NextLayer;
    NextOfSafe(s, platform);
    UnwrapsAtOnce(s, platform);
    if Unquote(s) != s {
      if SafeLocation(Unquote(s), platform) && left > 0 { WalkExactly(Unquote(s), left - 1, platform); }
      if n: nat :| n <= left && Unwraps(s, n, platform) { UnwrapsOnce(s, n - 1, platform); }
      if n: nat :| n < left && Unwraps(Unquote(s), n, platform) { UnwrapsOnce(s, n, platform); }
    }
  }

  lemma NextOfSafe(s: string, platform: Platform)
    requires SafeLocation(s, platform)
    ensures Unquote(s) == s || SafeLocation(Unquote(s), platform) ==> NextLayer(s, platform) == Some(Unquote(s))
    ensures var next := NextLayer(s, platform);
      next.Some? && (next.value == s || SafeLocation(next.value, platform)) ==> next.value == Unquote(s)
  {
    hide SafeLocation, Unquote;
    var u := Unquote(s);
    if SafeLocation(u, platform) && SchemeLength(u) > 0 { SchemeIsUnsafe(u, platform); }
    var next := NextLayer(s, platform);
    if next.Some? && SafeLocation(next.value, platform) { SafeLayerIsDecoding(s, platform); }
  }

  lemma UnwrapsAtOnce(s: string, platform: Platform)
    ensures Unwraps(s, 0, platform) <==> Unquote(s) == s
  {
    hide Unquote, SafeLocation;
    assert UnquoteTimes(s, 1) == UnquoteTimes(Unquote(s), 0);
  }

  lemma UnwrapsOnce(s: string, n: nat, platform: Platform)
    ensures Unwraps(s, n + 1, platform) <==> SafeLocation(Unquote(s), platform) && Unwraps(Unquote(s), n, platform)
  {
    hide Unquote, SafeLocation;
    forall k: nat ensures UnquoteTimes(s, k + 1) == UnquoteTimes(Unquote(s), k) {}
    if Unwraps(s, n + 1, platform) {
      assert UnquoteTimes(s, 1) == UnquoteTimes(Unquote(s), 0);
      forall k | 0 < k <= n ensures SafeLocation(UnquoteTimes(Unquote(s), k), platform) {
        assert SafeLocation(UnquoteTimes(s, k + 1), platform);
      }
    }
    if SafeLocation(Unquote(s), platform) && Unwraps(Unquote(s), n, platform) {
      forall k | 0 < k <= n + 1 ensures SafeLocation(UnquoteTimes(s, k), platform) {
        assert UnquoteTimes(s, k) == UnquoteTimes(Unquote(s), k - 1);
      }
    }
  }

  lemma {:induction false} AcceptedStaysSafe(s: string, left: nat, n: nat, platform: Platform)
    requires SafeLocation(s, platform) && WalkAccepts(s, left, platform)
    ensures SafeLocation(UnquoteTimes(s, n), platform)
    decreases n
  {
    SafeLayerIsDecoding(s, platform);
    if NextLayer(s, platform).value == s {
      FixedForever(s, n);
    } else if n > 0 {
      AcceptedStaysSafe(Unquote(s), left - 1, n - 1, platform);
    }
  }

  // ----- the leading "./" -----

  lemma DecodeAsciiFirst(x: Byte, run: seq<Byte>)
    requires x < 0x80
    ensures DecodeUtf8([x] + run) == [x as char] + DecodeUtf8(run)
  {
    assert ([x] + run)[1..] == run;
  }

  lemma {:induction false} UnquoteAsciiRun(x: Byte, s: string, run: seq<Byte>)
    requires x < 0x80
    ensures UnquoteFrom(s, [x] + run) == [x as char] + UnquoteFrom(s, run)
    decreases |s|
  {
    hide DecodeUtf8, EscapedByte;
    DecodeAsciiFirst(x, run);
    if EscapeAt(s) {
      Associates([x], run, [EscapedByte(s)]);
      UnquoteAsciiRun(x, s[3..], run + [EscapedByte(s)]);
    } else if s != "" && s[0] as int < 0x80 {
      Associates([x], run, [s[0] as int]);
      UnquoteAsciiRun(x, s[1..], run + [s[0] as int]);
    }
  }

  lemma UnquoteDotSlash(p: string)
    ensures Unquote("./" + p) == "./" + Unquote(p)
  {
    var s := "./" + p;
    var tail := "/" + p;
    assert s[1..] == tail && tail[1..] == p && s[0] == '.' && tail[0] == '/';
    assert Unquote(s) == UnquoteFrom(tail, [0x2E] + []) by { assert [] + [0x2E] == [0x2E] + []; }
    UnquoteAsciiRun(0x2E, tail, []);
    assert UnquoteFrom(tail, []) == UnquoteFrom(p, [0x2F] + []) by { assert [] + [0x2F] == [0x2F] + []; }
    UnquoteAsciiRun(0x2F, p, []);
  }

  lemma DotSlashUnsafe(s: string, platform: Platform)
    requires "./" <= s
    ensures !SafeLocation(s, platform)
  {
    assert s[0] == "./"[0] && s[1] == "./"[1];
    assert s[1..][0] == '/';
    assert SplitOn(s[1..], '/')[0] == "";
    assert SplitOn(s, '/')[0] == ['.'] + SplitOn(s[1..], '/')[0] == ".";
    assert "." in SplitOn(s, '/');
  }

  lemma DotSlashHasNoScheme(s: string)
    requires "./" <= s
    ensures SchemeLength(s) == 0
  {
    assert s[0] == "./"[0];
  }

  /** A leading "./" is dropped from a path that decoding leaves as it is; before any other
      it is refused, because the walk finds it again. */
  lemma DotSlashDropped(p: string, u: string, platform: Platform)
    requires Strip(u) == u && Unquote(u) == "./" + p
    ensures Normalized(u, platform) == if Unquote(p) == p then Ok(p) else Refused
  {
    hide Unquote, SafeLocation, Strip;
    var value := "./" + p;
    DotSlashHasNoScheme(value);
    UnquoteDotSlash(p);
    DotSlashHasNoScheme("./" + Unquote(p));
    DotSlashUnsafe("./" + Unquote(p), platform);
    assert value[2..] == p && ("./" + Unquote(p))[2..] == Unquote(p);
  }

  /** What acceptance says about the returned path itself. */
  lemma ReturnedPathWalks(value: string, left: nat, platform: Platform)
    requires WalkAccepts(value, left, platform) && SafeLocation(RemovePrefix(value), platform)
    ensures WalkAccepts(RemovePrefix(value), left, platform)
  {
    if "./" <= value {
      var p := value[2..];
      assert value == "./" + p;
      UnquoteDotSlash(p);
      DotSlashHasNoScheme(Unquote(value));
      DotSlashUnsafe(Unquote(value), platform);
      assert Unquote(value) == value;
      assert Unquote(p) == Unquote(value)[2..] == p;
      if SchemeLength(p) > 0 { SchemeIsUnsafe(p, platform); }
    }
  }

  /** After a path is returned and found safe, every further layer of percent-decoding of
      it, to any depth, is safe too. */
  lemma EveryLayerSafe(uri: string, platform: Platform, path: string, n: nat)
    requires Normalized(uri, platform) == Ok(path) && SafeLocation(path, platform)
    ensures SafeLocation(UnquoteTimes(path, n), platform)
  {
    ReturnedPathWalks(NextLayer(Strip(uri), platform).value, MAX_URI_DECODE_LAYERS, platform);
    AcceptedStaysSafe(path, MAX_URI_DECODE_LAYERS, n, platform);
  }

  // ----- decoding exactly once -----

  lemma {:induction false} QuoteHasNoSpace(p: string)
    ensures forall i | 0 <= i < |Quote(p)| :: !IsSpace(Quote(p)[i])
    ensures p != "" ==> Quote(p) != ""
  {
    if p != "" {
      QuoteHasNoSpace(p[1..]);
      EscapesHaveNoSpace(EncodeChar(p[0]));
    }
  }

  lemma {:induction false} EscapesHaveNoSpace(bs: seq<Byte>)
    ensures |EscapeAll(bs)| == 3 * |bs| && forall i | 0 <= i < |EscapeAll(bs)| :: !IsSpace(EscapeAll(bs)[i])
  {
    if bs != [] { EscapesHaveNoSpace(bs[1..]); }
  }

  /** Whichever way a safe path is percent-encoded, it is read back as that path, if and
      only if decoding it further settles after at most eight times, over safe paths only. */
  lemma SpellingReadsBack(u: string, path: string, platform: Platform)
    requires SafeLocation(path, platform) && Spells(u, path) && Strip(u) == u
    ensures Normalized(u, platform) ==
      if exists n | 0 <= n <= 8 :: Unwraps(path, n, platform) then Ok(path) else Refused
  {
    hide Spells, Strip, WalkAccepts, NextLayer, Unwraps;
    WalkExactly(path, MAX_URI_DECODE_LAYERS, platform);
    SpelledLayer(u, path, platform);
    if "./" <= path { DotSlashUnsafe(path, platform); }
  }

  /** ... the script's own among them. */
  lemma EncodedPathReadsBack(path: string, platform: Platform)
    requires SafeLocation(path, platform)
    ensures Normalized(Quote(path), platform) ==
      if WalkAccepts(path, MAX_URI_DECODE_LAYERS, platform) then Ok(path) else Refused
  {
    hide Quote, Strip, WalkAccepts, Spells, Unwraps;
    WalkExactly(path, MAX_URI_DECODE_LAYERS, platform);
    QuoteIsStripped(path);
    QuoteSpells(path);
    SpellingReadsBack(Quote(path), path, platform);
  }

  lemma QuoteIsStripped(path: string)
    ensures Strip(Quote(path)) == Quote(path)
  {
    hide Quote, IsSpace;
    QuoteHasNoSpace(path);
  }

  lemma SpelledLayer(u: string, path: string, platform: Platform)
    requires SafeLocation(path, platform) && Spells(u, path)
    ensures NextLayer(u, platform) == Some(path)
  {
    hide Spells, Unquote, SafeLocation;
    UnquoteSpelling(u, path);
    if SchemeLength(path) > 0 { SchemeIsUnsafe(path, platform); }
  }

  /** The returned identity is decoded exactly once: normalising any percent-encoding of a
      returned safe path gives that path back. */
  lemma DecodedExactlyOnce(uri: string, platform: Platform, path: string, u: string)
    requires Normalized(uri, platform) == Ok(path) && SafeLocation(path, platform)
    ensures Normalized(Quote(path), platform) == Ok(path)
    ensures Spells(u, path) && Strip(u) == u ==> Normalized(u, platform) == Ok(path)
  {
    hide Spells, Strip, WalkAccepts, Unwraps, Quote, Unquote, UnquoteTimes, SafeLocation, StripScheme;
    ReturnedPathWalks(NextLayer(Strip(uri), platform).value, MAX_URI_DECODE_LAYERS, platform);
    EncodedPathReadsBack(path, platform);
    if Spells(u, path) && Strip(u) == u {
      SpellingReadsBack(u, path, platform);
      WalkExactly(path, MAX_URI_DECODE_LAYERS, platform);
    }
  }
}
