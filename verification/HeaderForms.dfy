/** Content-Disposition headers as text: what the printer writes, and what the parser reads from any header. */
module HeaderForms {
  import opened JsStrings
  import opened PercentEncoding
  import opened ContentDisposition

  // ---- what is printed

  /** Carriage returns, line feeds and double quotes are dropped, other printable ASCII is kept, anything else becomes
      an underscore. */
  function Shown(u: Unit): JsString {
    if u == 13 || u == 10 || u == '"' as int then []
    else if ' ' as int <= u <= '~' as int then [u] else ['_' as int]
  }

  /** The fallback is made unit by unit. */
  lemma {:induction false} SafeUnit(a: JsString, u: Unit, b: JsString)
    ensures Safe(a + [u] + b) == Safe(a) + Shown(u) + Safe(b)
  {
    Associated(a, [u], b);
    SafeSplits(a, [u] + b, a + [u] + b);
    SafeStep(u, b, [u] + b);
    Associated(Safe(a), Shown(u), Safe(b));
  }

  lemma Associated(a: JsString, b: JsString, c: JsString)
    ensures a + b + c == a + (b + c)
  {
  }

  lemma {:induction false} SafeStep(u: Unit, s: JsString, t: JsString)
    requires t == [u] + s
    ensures Safe(t) == Shown(u) + Safe(s)
  {
    assert t[1..] == s;
    assert [] + Safe(s) == Safe(s);
  }

  lemma {:induction false} SafeSplits(a: JsString, b: JsString, ab: JsString)
    requires ab == a + b
    ensures Safe(ab) == Safe(a) + Safe(b)
  {
    if a == [] {
      NothingInFront(a, b);
      NothingInFront(Safe(a), Safe(b));
    } else {
      SafeSplits(a[1..], b, a[1..] + b);
      Apart(a, b);
      SafeStep(a[0], a[1..], a);
      SafeStep(a[0], a[1..] + b, ab);
      Associated(Shown(a[0]), Safe(a[1..]), Safe(b));
    }
  }

  lemma NothingInFront(a: JsString, b: JsString)
    requires a == []
    ensures a + b == b
  {
  }

  lemma Apart(a: JsString, b: JsString)
    requires a != []
    ensures a == [a[0]] + a[1..] && a + b == [a[0]] + (a[1..] + b)
  {
  }

  /** The units of an ASCII text. */
  predicate Spells(s: JsString, text: string) { |s| == |text| && forall i | 0 <= i < |s| :: s[i] == text[i] as int }

  /** The header of a printable name without quotes holds the name alone; that of any other holds its fallback and its
      encoding. A name with a lone surrogate has none. */
  lemma {:induction false} Printed(f: JsString, opening: JsString, quote: JsString, extended: JsString)
    requires Spells(opening, "attachment; filename=\"") && Spells(quote, "\"")
    requires Spells(extended, "\"; filename*=UTF-8''")
    ensures FormatContentDisposition(f).Success? <==> EncodeURIComponent(f).Success?
    ensures FormatContentDisposition(f).Success? ==>
              FormatContentDisposition(f).value
              == if forall k :: 0 <= k < |f| ==> ' ' as int <= f[k] <= '~' as int && f[k] != '"' as int
                 then opening + f + quote else opening + Safe(f) + extended + EncodeURIComponent(f).value
  {
    assert opening == OPENING && quote == [QUOTE];
    Literals(extended);
    SafeWhen(f);
    if EncodeURIComponent(f).Success? {
      Regrouped(OPENING, Safe(f), Ascii("\"; "), EXT_KEY, EncodeURIComponent(f).value);
    }
  }

  lemma Literals(extended: JsString)
    requires Spells(extended, "\"; filename*=UTF-8''")
    ensures extended == Ascii("\"; ") + EXT_KEY
  {
  }

  lemma {:induction false} SafeWhen(f: JsString)
    ensures Safe(f) == f <==> forall k :: 0 <= k < |f| ==> ' ' as int <= f[k] <= '~' as int && f[k] != '"' as int
  {
    if Safe(f) == f {
      forall k | 0 <= k < |f| ensures ' ' as int <= f[k] <= '~' as int && f[k] != '"' as int {
        assert f[k] in f;
      }
    }
  }

  lemma Regrouped(o: JsString, s: JsString, q: JsString, x: JsString, e: JsString)
    ensures o + s + q + x + e == o + s + (q + x) + e
  {
    assert o + s + q + x == o + s + (q + x);
  }

  // ---- what is read

  /** One character or the two cases of one letter. */
  predicate SameLetter(u: Unit, v: Unit) {
    u == v || ('A' as int <= u <= 'Z' as int && v == u + 32) || ('A' as int <= v <= 'Z' as int && u == v + 32)
  }

  /** A quoted value ends at a double quote; a bare one at a semicolon or white space. */
  predicate EndsValue(u: Unit, quoted: bool) {
    if quoted then u == '"' as int
    else u in {';' as int, 9, 10, 11, 12, 13, 0x20, 0xA0, 0x1680, 0x2000, 0x2001, 0x2002, 0x2003, 0x2004, 0x2005,
               0x2006, 0x2007, 0x2008, 0x2009, 0x200A, 0x2028, 0x2029, 0x202F, 0x205F, 0x3000, 0xFEFF}
  }

  /** At position i the header spells the key, in any case, and then the whole of a value that is not empty; a quoted
      one has its closing quote. */
  predicate ValueAt(h: JsString, key: JsString, quoted: bool, i: nat, value: JsString) {
    var start := i + |key|;
    var end := start + |value|;
    && value != [] && end <= |h| && h[start..end] == value
    && (forall k | 0 <= k < |key| :: SameLetter(h[i + k], key[k]))
    && (forall k | 0 <= k < |value| :: !EndsValue(value[k], quoted))
    && (if end < |h| then EndsValue(h[end], quoted) else !quoted)
  }

  /** That the key is followed by such a value nowhere before position i. */
  ghost predicate NoneBefore(h: JsString, key: JsString, quoted: bool, i: nat) {
    forall j: nat, value :: j < i ==> !ValueAt(h, key, quoted, j, value)
  }

  lemma StopsExactly(p: Pattern, u: Unit)
    ensures p.Stops(u) <==> EndsValue(u, p.quoted)
  {
  }

  lemma LiteralExactly(h: JsString, i: nat, p: JsString)
    requires i + |p| <= |h|
    ensures LiteralAt(h, i, p) <==> forall k :: 0 <= k < |p| ==> SameLetter(h[i + k], p[k])
  {
    forall k | 0 <= k < |p| ensures Fold(h[i + k]) == Fold(p[k]) <==> SameLetter(h[i + k], p[k]) {
      FoldExactly(h[i + k], p[k]);
    }
    if forall k :: 0 <= k < |p| ==> SameLetter(h[i + k], p[k]) {
      assert forall k {:trigger p[k]} :: 0 <= k < |p| ==> SameLetter(h[i + k], p[k]);
    }
  }

  lemma FoldExactly(u: Unit, v: Unit)
    ensures Fold(u) == Fold(v) <==> SameLetter(u, v)
  {
  }

  /** Such a value is what the pattern matches and captures. */
  lemma {:induction false} MatchExactly(p: Pattern, h: JsString, i: nat, value: JsString)
    ensures ValueAt(h, p.key, p.quoted, i, value) <==> p.MatchesAt(h, i) && p.Capture(h, i) == value
  {
    if ValueAt(h, p.key, p.quoted, i, value) {
      MatchOf(p, h, i, value);
    } else if p.MatchesAt(h, i) {
      ValueOf(p, h, i);
    }
  }

  lemma {:induction false} MatchOf(p: Pattern, h: JsString, i: nat, value: JsString)
    requires ValueAt(h, p.key, p.quoted, i, value)
    ensures p.MatchesAt(h, i) && p.Capture(h, i) == value
  {
    var start := i + |p.key|;
    LiteralExactly(h, i, p.key);
    forall u | u in value ensures !p.Stops(u) {
      StopsExactly(p, u);
    }
    if start + |value| < |h| {
      StopsExactly(p, h[start + |value|]);
    }
    RunEndIs(p, h, start, value);
  }

  lemma {:induction false} ValueOf(p: Pattern, h: JsString, i: nat)
    requires p.MatchesAt(h, i)
    ensures ValueAt(h, p.key, p.quoted, i, p.Capture(h, i))
  {
    var start := i + |p.key|;
    var end := p.RunEnd(h, start);
    LiteralExactly(h, i, p.key);
    var value := h[start..end];
    forall k | 0 <= k < |value| ensures !EndsValue(value[k], p.quoted) {
      assert value[k] == h[start + k];
      StopsExactly(p, h[start + k]);
    }
    if end < |h| {
      StopsExactly(p, h[end]);
    }
  }

  lemma {:induction false} LeftmostExactly(p: Pattern, h: JsString, i: nat, value: JsString)
    requires ValueAt(h, p.key, p.quoted, i, value) && NoneBefore(h, p.key, p.quoted, i)
    ensures p.Leftmost(h, 0) == Some(i) && p.MatchesAt(h, i) && p.Capture(h, i) == value
  {
    MatchExactly(p, h, i, value);
    forall j: nat | j < i ensures !p.MatchesAt(h, j) {
      if p.MatchesAt(h, j) {
        ValueOf(p, h, j);
      }
    }
    LeftmostIs(p, h, i);
  }

  lemma {:induction false} NoMatch(p: Pattern, h: JsString)
    requires NoneBefore(h, p.key, p.quoted, |h|)
    ensures p.Leftmost(h, 0).None?
  {
    if p.Leftmost(h, 0).Some? {
      ValueOf(p, h, p.Leftmost(h, 0).value);
    }
  }

  /** The first extended value, decoded, or nothing when its encoding is malformed; whatever else the header holds. */
  lemma {:induction false} ReadsExtended(h: JsString, i: nat, value: JsString)
    requires ValueAt(h, Ascii("filename*=UTF-8''"), false, i, value)
    requires NoneBefore(h, Ascii("filename*=UTF-8''"), false, i)
    ensures ParseContentDispositionFilename(Some(h)) == DecodeURIComponent(value)
  {
    LeftmostExactly(EXTENDED, h, i, value);
  }

  /** Without one, the first quoted value as it stands. */
  lemma ReadsQuoted(h: JsString, i: nat, value: JsString)
    requires NoneBefore(h, Ascii("filename*=UTF-8''"), false, |h|)
    requires ValueAt(h, Ascii("filename=\""), true, i, value) && NoneBefore(h, Ascii("filename=\""), true, i)
    ensures ParseContentDispositionFilename(Some(h)) == Some(value)
  {
    NoMatch(EXTENDED, h);
    LeftmostExactly(QUOTED, h, i, value);
  }

  /** Without either, the first bare value, less one single or double quote in front and one behind. */
  lemma ReadsBare(h: JsString, i: nat, lead: JsString, name: JsString, trail: JsString)
    requires NoneBefore(h, Ascii("filename*=UTF-8''"), false, |h|)
    requires NoneBefore(h, Ascii("filename=\""), true, |h|)
    requires ValueAt(h, Ascii("filename="), false, i, lead + name + trail)
    requires NoneBefore(h, Ascii("filename="), false, i)
    requires lead in [[], Ascii("\""), Ascii("'")] && trail in [[], Ascii("\""), Ascii("'")]
    requires lead == [] ==> name + trail == [] || (name + trail)[0] !in Ascii("\"'")
    requires trail == [] ==> name == [] || name[|name| - 1] !in Ascii("\"'")
    ensures ParseContentDispositionFilename(Some(h)) == Some(name)
  {
    NoMatch(EXTENDED, h);
    NoMatch(QUOTED, h);
    LeftmostExactly(BARE, h, i, lead + name + trail);
    Unquoted(lead, name, trail);
  }

  lemma Unquoted(lead: JsString, name: JsString, trail: JsString)
    requires lead in [[], Ascii("\""), Ascii("'")] && trail in [[], Ascii("\""), Ascii("'")]
    requires lead == [] ==> name + trail == [] || (name + trail)[0] !in Ascii("\"'")
    requires trail == [] ==> name == [] || name[|name| - 1] !in Ascii("\"'")
    ensures Unquote(lead + name + trail) == name
  {
    Associated(lead, name, trail);
    FrontMark(lead, name + trail, lead + name + trail);
    BackMark(name, trail, name + trail);
  }

  lemma FrontMark(lead: JsString, t: JsString, s: JsString)
    requires lead in [[], Ascii("\""), Ascii("'")] && s == lead + t
    requires lead == [] ==> t == [] || t[0] !in Ascii("\"'")
    ensures t == if s != [] && IsQuoteMark(s[0]) then s[1..] else s
  {
    Marks();
  }

  lemma BackMark(name: JsString, trail: JsString, t: JsString)
    requires trail in [[], Ascii("\""), Ascii("'")] && t == name + trail
    requires trail == [] ==> name == [] || name[|name| - 1] !in Ascii("\"'")
    ensures name == if t != [] && IsQuoteMark(t[|t| - 1]) then t[..|t| - 1] else t
  {
    Marks();
  }

  lemma Marks()
    ensures Ascii("\"") == [QUOTE] && Ascii("'") == ['\'' as int] && Ascii("\"'") == [QUOTE, '\'' as int]
  {
  }

  /** Without any of them, or without a header, nothing. */
  lemma ReadsNothing(h: JsString)
    requires NoneBefore(h, Ascii("filename*=UTF-8''"), false, |h|)
    requires NoneBefore(h, Ascii("filename=\""), true, |h|) && NoneBefore(h, Ascii("filename="), false, |h|)
    ensures ParseContentDispositionFilename(Some(h)) == None == ParseContentDispositionFilename(None)
  {
    NoMatch(EXTENDED, h);
    NoMatch(QUOTED, h);
    NoMatch(BARE, h);
  }

  /** A malformed encoding reads as nothing, though a fallback stands beside it. */
  lemma MalformedReadsNothing(h: JsString, i: nat, a: JsString, s: JsString)
    requires ValueAt(h, Ascii("filename*=UTF-8''"), false, i, a + s)
    requires NoneBefore(h, Ascii("filename*=UTF-8''"), false, i)
    requires (forall k :: 0 <= k < |a| ==> a[k] != '%' as int) && s != [] && s[0] == '%' as int
    requires |s| < 3 || HexValue(s[1]).None? || HexValue(s[2]).None?
    ensures ParseContentDispositionFilename(Some(h)) == None
  {
    ReadsExtended(h, i, a + s);
    MalformedTriplet(a, s);
  }
}
