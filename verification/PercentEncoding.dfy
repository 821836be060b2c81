/** encodeURIComponent and decodeURIComponent: UTF-16, UTF-8 (section 3 of RFC 3629) and
    percent-encoding (section 2.1 of RFC 3986), with the proof that the second inverts the first. */
module PercentEncoding {
  import opened JsStrings

  type CodePoint = v: int | 0 <= v < 0x110000 && !(0xD800 <= v < 0xE000)

  type Byte = b: int | 0 <= b < 256

  const PERCENT: Unit := '%' as int

  datatype UriError = UriError

  // ---- UTF-16

  predicate IsHighSurrogate(u: Unit) { 0xD800 <= u < 0xDC00 }

  predicate IsLowSurrogate(u: Unit) { 0xDC00 <= u < 0xE000 }

  /** The units that spell one code point. */
  function Units(v: CodePoint): (r: JsString)
    ensures 1 <= |r| <= 2
  {
    if v < 0x10000 then [v] else [0xD800 + (v - 0x10000) / 0x400, 0xDC00 + (v - 0x10000) % 0x400]
  }

  /** The code point a string starts with; None for a lone surrogate. */
  function First(s: JsString): (r: Option<CodePoint>)
    requires s != []
    ensures r.Some? ==> Units(r.value) <= s
  {
    if !IsHighSurrogate(s[0]) && !IsLowSurrogate(s[0]) then Some(s[0])
    else if IsHighSurrogate(s[0]) && |s| > 1 && IsLowSurrogate(s[1]) then
      Some(0x10000 + (s[0] as int - 0xD800) * 0x400 + (s[1] as int - 0xDC00))
    else None
  }

  /** No lone surrogates. */
  predicate WellFormed(s: JsString) {
    s == [] || (First(s).Some? && WellFormed(s[|Units(First(s).value)|..]))
  }

  // ---- UTF-8

  function Utf8(v: CodePoint): (r: seq<Byte>)
    ensures 1 <= |r| <= 4
  {
    if v < 0x80 then [v]
    else if v < 0x800 then [0xC0 + v / 64, 0x80 + v % 64]
    else if v < 0x10000 then [0xE0 + v / 4096, 0x80 + v / 64 % 64, 0x80 + v % 64]
    else [0xF0 + v / 262144, 0x80 + v / 4096 % 64, 0x80 + v / 64 % 64, 0x80 + v % 64]
  }

  /** How many octets the sequence that starts with this octet has, counted as the decoder does:
      its leading one bits. */
  function LeadingOnes(b: Byte): nat {
    if b < 0x80 then 0 else if b < 0xC0 then 1 else if b < 0xE0 then 2
    else if b < 0xF0 then 3 else if b < 0xF8 then 4 else 5
  }

  predicate IsContinuation(b: Byte) { 0x80 <= b < 0xC0 }

  /** The code point of a multi-octet sequence; None when it is overlong, a surrogate, too large
      or has a malformed continuation octet. */
  function Utf8Value(bs: seq<Byte>): Option<CodePoint>
    requires 2 <= |bs| <= 4 && LeadingOnes(bs[0]) == |bs|
  {
    if !(forall i | 1 <= i < |bs| :: IsContinuation(bs[i])) then None
    else
      var b := seq(|bs|, i requires 0 <= i < |bs| => bs[i] as int);
      var v := match |b|
        case 2 => (b[0] - 0xC0) * 64 + (b[1] - 0x80)
        case 3 => (b[0] - 0xE0) * 4096 + (b[1] - 0x80) * 64 + (b[2] - 0x80)
        case _ => (b[0] - 0xF0) * 262144 + (b[1] - 0x80) * 4096 + (b[2] - 0x80) * 64 + (b[3] - 0x80);
      var least: int := if |bs| == 2 then 0x80 else if |bs| == 3 then 0x800 else 0x10000;
      if least <= v < 0x110000 && !(0xD800 <= v < 0xE000) then Some(v) else None
  }

  lemma Utf8Inverts(v: CodePoint)
    requires v >= 0x80
    ensures LeadingOnes(Utf8(v)[0]) == |Utf8(v)|
    ensures Utf8Value(Utf8(v)) == Some(v)
  {
    if 0x800 <= v {
      assert v / 4096 == v / 64 / 64;
    }
    if 0x10000 <= v {
      assert v / 262144 == v / 4096 / 64;
    }
  }

  /** The converse: an accepted sequence is the one shortest form of its code point. */
  lemma OnlyShortestForms(bs: seq<Byte>)
    requires 2 <= |bs| <= 4 && LeadingOnes(bs[0]) == |bs| && Utf8Value(bs).Some?
    ensures bs == Utf8(Utf8Value(bs).value)
  {
    if |bs| == 2 {
      Digits(bs[0] as int - 0xC0, bs[1] as int - 0x80);
    } else if |bs| == 3 {
      ThreeDigits(bs[0] as int - 0xE0, bs[1] as int - 0x80, bs[2] as int - 0x80);
    } else {
      FourDigits(bs[0] as int - 0xF0, bs[1] as int - 0x80, bs[2] as int - 0x80, bs[3] as int - 0x80);
    }
  }

  lemma ThreeDigits(a: int, b: int, c: int)
    requires 0 <= b < 64 && 0 <= c < 64
    ensures var v := a * 4096 + b * 64 + c; v / 4096 == a && v / 64 % 64 == b && v % 64 == c
  {
    Digits(a * 64 + b, c);
    Digits(a, b);
    var v := a * 4096 + b * 64 + c;
    assert v / 4096 == v / 64 / 64;
  }

  lemma FourDigits(a: int, b: int, c: int, d: int)
    requires 0 <= b < 64 && 0 <= c < 64 && 0 <= d < 64
    ensures var v := a * 262144 + b * 4096 + c * 64 + d;
            v / 262144 == a && v / 4096 % 64 == b && v / 64 % 64 == c && v % 64 == d
  {
    Digits((a * 64 + b) * 64 + c, d);
    ThreeDigits(a, b, c);
    var v := a * 262144 + b * 4096 + c * 64 + d;
    assert v / 4096 == v / 64 / 64 && v / 262144 == v / 64 / 4096;
  }

  lemma Digits(high: int, low: int)
    requires 0 <= low < 64
    ensures (high * 64 + low) / 64 == high && (high * 64 + low) % 64 == low
  {
  }

  // ---- percent triplets

  function HexDigit(n: int): Unit
    requires 0 <= n < 16
  {
    if n < 10 then '0' as int + n else 'A' as int + n - 10
  }

  function HexValue(u: Unit): Option<int> {
    if '0' as int <= u <= '9' as int then Some(u - '0' as int)
    else if 'A' as int <= u <= 'F' as int then Some(u - 'A' as int + 10)
    else if 'a' as int <= u <= 'f' as int then Some(u - 'a' as int + 10)
    else None
  }

  function Triplet(b: Byte): JsString { [PERCENT, HexDigit(b / 16), HexDigit(b % 16)] }

  /** The octet spelled by a triplet at the front of s. */
  function Octet(s: JsString): (r: Option<Byte>)
    ensures r.Some? ==> |s| >= 3
  {
    if |s| < 3 || s[0] != PERCENT then None
    else
      var hi, lo := HexValue(s[1]), HexValue(s[2]);
      if hi.None? || lo.None? || !(0 <= hi.value < 16) || !(0 <= lo.value < 16) then None
      else Some(hi.value * 16 + lo.value)
  }

  function Triplets(bs: seq<Byte>): (r: JsString)
    ensures |r| == 3 * |bs|
  {
    if bs == [] then [] else Triplet(bs[0]) + Triplets(bs[1..])
  }

  function Octets(s: JsString, n: nat): (r: Option<seq<Byte>>)
    ensures r.Some? ==> |r.value| == n && |s| >= 3 * n
  {
    if n == 0 then Some([])
    else
      var b := Octet(s);
      if b.None? then None
      else
        var rest := Octets(s[3..], n - 1);
        if rest.None? then None else Some([b.value] + rest.value)
  }

  lemma TripletInverts(b: Byte, s: JsString)
    requires |s| >= 3 && s[..3] == Triplet(b)
    ensures Octet(s) == Some(b)
  {
    assert s[0] == Triplet(b)[0] && s[1] == Triplet(b)[1] && s[2] == Triplet(b)[2];
  }

  lemma FrontOf(a: JsString, b: JsString, t: JsString)
    ensures (a + b + t)[..|a|] == a && (a + b + t)[|a|..] == b + t
  {
  }

  lemma {:induction false} OctetsInvert(bs: seq<Byte>, t: JsString)
    ensures Octets(Triplets(bs) + t, |bs|) == Some(bs)
  {
    if bs != [] {
      OctetsInvert(bs[1..], t);
      FrontOf(Triplet(bs[0]), Triplets(bs[1..]), t);
      TripletInverts(bs[0], Triplets(bs) + t);
      assert [bs[0]] + bs[1..] == bs;
    }
  }

  // ---- encodeURIComponent

  predicate IsAlphanumeric(u: Unit) {
    'A' as int <= u <= 'Z' as int || 'a' as int <= u <= 'z' as int || '0' as int <= u <= '9' as int
  }

  /** Letters, digits and - _ . ! ~ * ' ( ) stand for themselves. */
  predicate IsUnescaped(u: Unit) {
    IsAlphanumeric(u) || u in Ascii("-_.!~*'()")
  }

  function EncodeCodePoint(v: CodePoint): (r: JsString)
    ensures r != []
  {
    if v < 0x80 && IsUnescaped(v) then [v] else Triplets(Utf8(v))
  }

  function EncodeURIComponent(s: JsString): Result<JsString, UriError>
    decreases |s|
  {
    if s == [] then Success([])
    else
      match First(s)
      case None => Failure(UriError)
      case Some(v) =>
        match EncodeURIComponent(s[|Units(v)|..])
        case Failure(e) => Failure(e)
        case Success(rest) => Success(EncodeCodePoint(v) + rest)
  }

  // ---- decodeURIComponent

  function Prepend(a: JsString, b: Option<JsString>): Option<JsString> {
    match b case None => None case Some(t) => Some(a + t)
  }

  /** None stands for a thrown URIError. */
  function DecodeURIComponent(s: JsString): Option<JsString>
    decreases |s|
  {
    if s == [] then Some([])
    else if s[0] != PERCENT then Prepend([s[0]], DecodeURIComponent(s[1..]))
    else
      match Octet(s)
      case None => None
      case Some(b) =>
        var n := LeadingOnes(b);
        if n == 0 then Prepend([b], DecodeURIComponent(s[3..]))
        else if n == 1 || n > 4 then None
        else
          match Octets(s, n)
          case None => None
          case Some(bs) =>
            match Utf8Value(bs)
            case None => None
            case Some(v) => Prepend(Units(v), DecodeURIComponent(s[3 * n..]))
  }

  /** Decoding one encoded code point gives its units back, whatever follows it. */
  lemma {:induction false} DecodeAfterCodePoint(v: CodePoint, t: JsString)
    ensures DecodeURIComponent(EncodeCodePoint(v) + t) == Prepend(Units(v), DecodeURIComponent(t))
  {
    var s := EncodeCodePoint(v) + t;
    if v < 0x80 && IsUnescaped(v) {
      assert s[1..] == t;
    } else {
      var bs := Utf8(v);
      OctetsInvert(bs, t);
      assert s[3 * |bs|..] == t;
      TripletInverts(bs[0], s);
      if v >= 0x80 {
        Utf8Inverts(v);
      }
    }
  }

  /** encodeURIComponent throws exactly on lone surrogates, and decodeURIComponent undoes it on
      every other string. */
  lemma {:induction false} DecodeInvertsEncode(s: JsString)
    ensures EncodeURIComponent(s).Success? <==> WellFormed(s)
    ensures WellFormed(s) ==> DecodeURIComponent(EncodeURIComponent(s).value) == Some(s)
    decreases |s|
  {
    if s != [] && First(s).Some? {
      var v := First(s).value;
      var rest := s[|Units(v)|..];
      DecodeInvertsEncode(rest);
      if WellFormed(rest) {
        DecodeAfterCodePoint(v, EncodeURIComponent(rest).value);
        assert Units(v) + rest == s;
      }
    }
  }

  /** A code point's units, put in front, are read first. */
  lemma FirstIs(v: CodePoint, t: JsString)
    ensures First(Units(v) + t) == Some(v) && (Units(v) + t)[|Units(v)|..] == t
  {
    if v >= 0x10000 {
      assert (v - 0x10000) == 0x400 * ((v - 0x10000) / 0x400) + (v - 0x10000) % 0x400;
    }
  }

  /** Whatever decodes from plain ASCII has no lone surrogates, so that it encodes and decodes again to itself. */
  lemma {:induction false} DecodedIsWellFormed(s: JsString)
    requires forall k :: 0 <= k < |s| ==> s[k] < 128
    ensures DecodeURIComponent(s).Some? ==>
              var t := DecodeURIComponent(s).value;
              WellFormed(t) && EncodeURIComponent(t).Success?
              && DecodeURIComponent(EncodeURIComponent(t).value) == Some(t)
    decreases |s|
  {
    if s != [] && DecodeURIComponent(s).Some? {
      var v, n := FirstDecoded(s);
      DecodedIsWellFormed(s[n..]);
      FirstIs(v, DecodeURIComponent(s[n..]).value);
    }
    if DecodeURIComponent(s).Some? {
      DecodeInvertsEncode(DecodeURIComponent(s).value);
    }
  }

  /** The first code point a string decodes to, and how much of the string spells it. */
  lemma {:induction false} FirstDecoded(s: JsString) returns (v: CodePoint, n: nat)
    requires s != [] && s[0] < 128 && DecodeURIComponent(s).Some?
    ensures 1 <= n <= |s| && DecodeURIComponent(s[n..]).Some?
    ensures DecodeURIComponent(s) == Some(Units(v) + DecodeURIComponent(s[n..]).value)
  {
    if s[0] != PERCENT {
      v, n := s[0], 1;
    } else {
      var b := Octet(s).value;
      if LeadingOnes(b) == 0 {
        v, n := b, 3;
      } else {
        n := 3 * LeadingOnes(b);
        v := Utf8Value(Octets(s, LeadingOnes(b)).value).value;
      }
    }
  }

  /** What an encoded string is made of: nothing a header parameter would end at. */
  lemma {:induction false} EncodedUnits(s: JsString)
    requires EncodeURIComponent(s).Success?
    ensures forall u :: u in EncodeURIComponent(s).value ==> u == PERCENT || IsUnescaped(u)
    ensures s != [] ==> EncodeURIComponent(s).value != []
    decreases |s|
  {
    if s != [] {
      var v := First(s).value;
      EncodedUnits(s[|Units(v)|..]);
      TripletUnits(Utf8(v));
    }
  }

  lemma {:induction false} TripletUnits(bs: seq<Byte>)
    ensures forall u :: u in Triplets(bs) ==> u == PERCENT || IsUnescaped(u)
  {
    if bs != [] {
      TripletUnits(bs[1..]);
    }
  }

  /** Decoding never lengthens. */
  lemma {:induction false} DecodeShrinks(s: JsString)
    ensures DecodeURIComponent(s).Some? ==> |DecodeURIComponent(s).value| <= |s|
    decreases |s|
  {
    if s != [] {
      if s[0] != PERCENT {
        DecodeShrinks(s[1..]);
      } else if Octet(s).Some? {
        var n := LeadingOnes(Octet(s).value);
        if n == 0 {
          DecodeShrinks(s[3..]);
        } else if 2 <= n <= 4 && Octets(s, n).Some? {
          DecodeShrinks(s[3 * n..]);
        }
      }
    }
  }

  // ---- written out

  const UPPER_HEX := "0123456789ABCDEF"
  const LOWER_HEX := "0123456789abcdef"

  /** A triplet is a percent sign and two upper-case digits. */
  lemma TripletIs(b: Byte)
    ensures Triplet(b) == ['%' as int, UPPER_HEX[b / 16] as int, UPPER_HEX[b % 16] as int]
  {
    HexIs(b / 16);
    HexIs(b % 16);
  }

  lemma HexIs(n: nat)
    requires n < 16
    ensures HexDigit(n) == UPPER_HEX[n] as int
  {
  }

  /** A character of plain ASCII is kept when it is a letter, a digit or one of - _ . ! ~ * ' ( ), and otherwise becomes
      its triplet. */
  lemma {:induction false} EncodedCharacter(c: char, s: JsString)
    requires c < '\U{0080}' && EncodeURIComponent(s).Success?
    ensures var kept := 'A' <= c <= 'Z' || 'a' <= c <= 'z' || '0' <= c <= '9' || c in "-_.!~*'()";
            var u := c as int;
            EncodeURIComponent([u] + s)
            == Success((if kept then [u] else ['%' as int, UPPER_HEX[u / 16] as int, UPPER_HEX[u % 16] as int])
                       + EncodeURIComponent(s).value)
  {
    var u: Unit := c as int;
    CodePointIn(u, s);
    KeptUnit(c);
    TripletIs(u);
    OneTriplet(u, Utf8(u));
  }

  lemma {:induction false} OneTriplet(b: Byte, bs: seq<Byte>)
    requires bs == [b]
    ensures Triplets(bs) == Triplet(b)
  {
    assert bs[1..] == [] && Triplets(bs[1..]) == [];
  }

  lemma KeptUnit(c: char)
    requires c < '\U{0080}'
    ensures IsUnescaped(c as int) <==> 'A' <= c <= 'Z' || 'a' <= c <= 'z' || '0' <= c <= '9' || c in "-_.!~*'()"
  {
    var text := "-_.!~*'()";
    assert forall k :: 0 <= k < 9 ==> Ascii(text)[k] == text[k] as int;
    if c in text {
      var k :| 0 <= k < 9 && text[k] == c;
      assert Ascii(text)[k] == c as int;
    }
  }

  /** Any other code point becomes the triplets of its UTF-8 octets. */
  lemma {:induction false} EncodedCodePoint(v: CodePoint, s: JsString)
    requires v >= 0x80 && EncodeURIComponent(s).Success?
    ensures EncodeURIComponent(Units(v) + s) == Success(Triplets(Utf8(v)) + EncodeURIComponent(s).value)
  {
    CodePointIn(v, s);
  }

  lemma {:induction false} CodePointIn(v: CodePoint, s: JsString)
    requires EncodeURIComponent(s).Success?
    ensures EncodeURIComponent(Units(v) + s) == Success(EncodeCodePoint(v) + EncodeURIComponent(s).value)
  {
    FirstIs(v, s);
  }

  /** A hexadecimal digit is read in either case, and nothing else is. */
  lemma HexValueExactly(u: Unit, n: int)
    ensures HexValue(u) == Some(n)
       <==> 0 <= n < 16 && (u == UPPER_HEX[n] as int || u == LOWER_HEX[n] as int)
  {
    if 0 <= n < 16 {
      HexIs(n);
      LowerHexIs(n);
    }
  }

  lemma LowerHexIs(n: nat)
    requires n < 16
    ensures LOWER_HEX[n] as int == if n < 10 then '0' as int + n else 'a' as int + n - 10
  {
  }

  /** Up to the first percent sign everything decodes to itself. */
  lemma {:induction false} DecodedPlain(a: JsString, s: JsString)
    requires forall k :: 0 <= k < |a| ==> a[k] != '%' as int
    ensures DecodeURIComponent(a + s) == Prepend(a, DecodeURIComponent(s))
  {
    if a == [] {
      assert a + s == s;
      PrependNothing(a, DecodeURIComponent(s));
    } else {
      DecodedPlain(a[1..], s);
      assert (a + s)[1..] == a[1..] + s;
      if DecodeURIComponent(s).Some? {
        var d := DecodeURIComponent(s).value;
        assert [a[0]] + (a[1..] + d) == a + d;
      }
    }
  }

  lemma PrependNothing(a: JsString, b: Option<JsString>)
    requires a == []
    ensures Prepend(a, b) == b
  {
    assert b.Some? ==> a + b.value == b.value;
  }

  /** A percent sign without two hexadecimal digits behind it is malformed, wherever it stands first. */
  lemma {:induction false} MalformedTriplet(a: JsString, s: JsString)
    requires forall k :: 0 <= k < |a| ==> a[k] != '%' as int
    requires s != [] && s[0] == '%' as int
    requires |s| < 3 || HexValue(s[1]).None? || HexValue(s[2]).None?
    ensures DecodeURIComponent(a + s).None?
  {
    DecodedPlain(a, s);
  }

  /** So is an octet that starts no sequence: 80 to BF, and F8 to FF. */
  lemma {:induction false} MalformedLead(a: JsString, s: JsString)
    requires forall k :: 0 <= k < |a| ==> a[k] != '%' as int
    requires Octet(s).Some? && (0x80 <= Octet(s).value < 0xC0 || Octet(s).value >= 0xF8)
    ensures DecodeURIComponent(a + s).None?
  {
    DecodedPlain(a, s);
  }
}
