/** The Content-Disposition header of a download: the printer, the parser that reads it back by
    leftmost regular-expression search, and when exactly the one inverts the other. */
module ContentDisposition {
  import opened JsStrings
  import opened PercentEncoding

  const QUOTE: Unit := '"' as int
  const OPENING := Ascii("attachment; filename=\"")
  const EXT_KEY := Ascii("filename*=UTF-8''")
  const QUOTED_KEY := Ascii("filename=\"")
  const BARE_KEY := Ascii("filename=")

  // ---- the printer

  predicate IsDropped(u: Unit) { u == '\r' as int || u == '\n' as int || u == QUOTE }

  predicate IsPrintable(u: Unit) { 0x20 <= u <= 0x7E }

  /** The fallback name: CR, LF and quotes dropped, everything else outside printable ASCII replaced
      unit by unit. */
  function Safe(s: JsString): (r: JsString)
    ensures |r| <= |s|
    ensures forall u :: u in r ==> IsPrintable(u) && u != QUOTE
    ensures r == s <==> forall u :: u in s ==> IsPrintable(u) && u != QUOTE
  {
    if s == [] then []
    else if IsDropped(s[0]) then assert s[0] in s; Safe(s[1..])
    else
      var r := [if IsPrintable(s[0]) then s[0] else '_' as int] + Safe(s[1..]);
      assert r == s ==> s[0] == r[0] && s[1..] == r[1..];
      assert (forall u :: u in s ==> IsPrintable(u) && u != QUOTE) ==> s == [s[0]] + s[1..];
      r
  }

  function FormatContentDisposition(filename: JsString): Result<JsString, UriError> {
    var safe := Safe(filename);
    match EncodeURIComponent(filename)
    case Failure(e) => Failure(e)
    case Success(encoded) =>
      if safe == filename then Success(OPENING + safe + [QUOTE])
      else Success(OPENING + safe + Ascii("\"; ") + EXT_KEY + encoded)
  }

  // ---- regular-expression search

  /** Case folding of a pattern with the i flag: ASCII letters only. */
  function Fold(u: Unit): Unit {
    if 'A' as int <= u <= 'Z' as int then u + 32 else u
  }

  predicate LiteralAt(h: JsString, i: nat, p: JsString) {
    i + |p| <= |h| && forall k {:trigger p[k]} | 0 <= k < |p| :: Fold(h[i + k]) == Fold(p[k])
  }

  /** A pattern of the parser: a literal key, then a run of at least one unit that holds no quote,
      and a closing quote (quoted), or that holds no semicolon and no white space. */
  datatype Pattern = Pattern(key: JsString, quoted: bool) {

    predicate Stops(u: Unit) {
      if quoted then u == QUOTE else u == ';' as int || IsWhiteSpace(u)
    }

    function RunEnd(h: JsString, i: nat): (r: nat)
      requires i <= |h|
      ensures i <= r <= |h|
      ensures forall k :: i <= k < r ==> !Stops(h[k])
      ensures r < |h| ==> Stops(h[r])
      decreases |h| - i
    {
      if i == |h| || Stops(h[i]) then i else RunEnd(h, i + 1)
    }

    predicate MatchesAt(h: JsString, i: nat) {
      LiteralAt(h, i, key)
      && i + |key| < RunEnd(h, i + |key|)
      && (quoted ==> RunEnd(h, i + |key|) < |h|)
    }

    /** The leftmost position at or after i where the pattern matches. */
    function Leftmost(h: JsString, i: nat): (r: Option<nat>)
      requires i <= |h|
      ensures r.Some? ==> i <= r.value && MatchesAt(h, r.value)
      ensures forall k: nat :: i <= k && (r.None? || k < r.value) ==> !MatchesAt(h, k)
      decreases |h| - i
    {
      if MatchesAt(h, i) then Some(i) else if i == |h| then None else Leftmost(h, i + 1)
    }

    function Capture(h: JsString, i: nat): JsString
      requires MatchesAt(h, i)
    {
      h[i + |key|..RunEnd(h, i + |key|)]
    }
  }

  const EXTENDED := Pattern(EXT_KEY, false)
  const QUOTED := Pattern(QUOTED_KEY, true)
  const BARE := Pattern(BARE_KEY, false)

  predicate IsQuoteMark(u: Unit) { u == QUOTE || u == '\'' as int }

  /** Drops one leading and one trailing quote mark. */
  function Unquote(s: JsString): JsString {
    var t := if s != [] && IsQuoteMark(s[0]) then s[1..] else s;
    if t != [] && IsQuoteMark(t[|t| - 1]) then t[..|t| - 1] else t
  }

  function ParseContentDispositionFilename(header: Option<JsString>): Option<JsString> {
    if header.None? || header.value == [] then None
    else
      var h := header.value;
      match EXTENDED.Leftmost(h, 0)
      case Some(i) => DecodeURIComponent(EXTENDED.Capture(h, i))
      case None =>
        match QUOTED.Leftmost(h, 0)
        case Some(i) => Some(QUOTED.Capture(h, i))
        case None =>
          match BARE.Leftmost(h, 0)
          case Some(i) => Some(Unquote(BARE.Capture(h, i)))
          case None => None
  }

  // ---- when the round trip holds

  /** At position i the fallback name itself spells the extended parameter's key, with a capturable
      unit (or the closing quote) after it. */
  predicate SpoofsAt(s: JsString, i: nat) {
    LiteralAt(s, i, EXT_KEY) && (i + |EXT_KEY| == |s| || !EXTENDED.Stops(s[i + |EXT_KEY|]))
  }

  predicate Spoofs(s: JsString) {
    exists i | 0 <= i < |s| :: SpoofsAt(s, i)
  }

  /** A header as the printer lays it out: opening, quoted fallback, tail. */
  function Header(s: JsString, tail: JsString): JsString { OPENING + s + [QUOTE] + tail }

  lemma KeyUnits()
    ensures |OPENING| == 22 && |EXT_KEY| == 17 && |QUOTED_KEY| == 10 && |BARE_KEY| == 9
    ensures OPENING[12..] == QUOTED_KEY && QUOTED_KEY[..9] == BARE_KEY
    ensures EXT_KEY[0] == QUOTED_KEY[0] == 'f' as int
    ensures EXT_KEY[8] == '*' as int && OPENING[20] == '=' as int && OPENING[21] == QUOTE
    ensures forall k :: 0 <= k < 22 && k != 12 ==> Fold(OPENING[k]) != 'f' as int
    ensures forall k :: 0 <= k < 17 ==> Fold(EXT_KEY[k]) != QUOTE
  {
    KeyInOpening();
    OpeningUnits();
    ExtKeyUnits();
  }

  lemma KeyInOpening()
    ensures |OPENING| == 22 && |QUOTED_KEY| == 10 && |BARE_KEY| == 9
    ensures OPENING[12..] == QUOTED_KEY && QUOTED_KEY[..9] == BARE_KEY
  {
    assert OPENING[12..] == QUOTED_KEY;
  }

  lemma OpeningUnits()
    ensures |OPENING| == 22
    ensures forall k :: 0 <= k < 22 && k != 12 ==> Fold(OPENING[k]) != 'f' as int
  {
    var text := "attachment; filename=\"";
    assert forall k :: 0 <= k < 22 && k != 12 ==> text[k] != 'f' && text[k] != 'F';
  }

  lemma ExtKeyUnits()
    ensures |EXT_KEY| == 17
    ensures forall k :: 0 <= k < 17 ==> Fold(EXT_KEY[k]) != QUOTE
  {
    var text := "filename*=UTF-8''";
    assert forall k :: 0 <= k < 17 ==> text[k] != '"';
  }

  lemma Mismatch(h: JsString, i: nat, p: JsString, k: nat)
    requires k < |p| && i + k < |h| && Fold(h[i + k]) != Fold(p[k])
    ensures !LiteralAt(h, i, p)
  {
    var unit := p[k];
  }

  /** No pattern matches before the quoted parameter's own key. */
  lemma NothingBeforeName(p: Pattern, h: JsString, i: nat)
    requires OPENING <= h && p.key != [] && p.key[0] == 'f' as int
    requires i < 12
    ensures !p.MatchesAt(h, i)
  {
    KeyUnits();
    Mismatch(h, i, p.key, 0);
  }

  /** Up to the closing quote, the extended pattern matches exactly where the fallback spoofs it. */
  lemma ExtendedInName(s: JsString, tail: JsString, i: nat)
    requires forall u :: u in s ==> u != QUOTE
    requires i <= 22 + |s|
    ensures EXTENDED.MatchesAt(Header(s, tail), i) <==> i >= 22 && SpoofsAt(s, i - 22)
  {
    KeyUnits();
    var h, x := Header(s, tail), EXT_KEY;
    if i == 12 {
      Mismatch(h, i, x, 8);
    } else if i < 22 {
      Mismatch(h, i, x, 0);
    } else {
      InName(h, s, i - 22);
    }
  }

  /** The same for a header's units from position 22 on. */
  lemma InName(h: JsString, s: JsString, j: nat)
    requires 22 + |s| < |h| && h[22..22 + |s|] == s && h[22 + |s|] == QUOTE && j <= |s|
    ensures EXTENDED.MatchesAt(h, 22 + j) <==> SpoofsAt(s, j)
  {
    KeyUnits();
    if j + 17 > |s| {
      Mismatch(h, 22 + j, EXT_KEY, |s| - j);
    } else {
      SliceMatch(h, 22, s, j, EXT_KEY);
      UnitInName(h, s, j + 17);
      RunStarts(h, 22 + j + 17);
    }
  }

  lemma UnitInName(h: JsString, s: JsString, k: nat)
    requires 22 + |s| < |h| && h[22..22 + |s|] == s && h[22 + |s|] == QUOTE && k <= |s|
    ensures h[22 + k] == if k == |s| then QUOTE else s[k]
  {
  }

  /** A run is not empty exactly when its first unit does not stop it; a quote does not. */
  lemma {:induction false} RunStarts(h: JsString, at: nat)
    requires at < |h|
    ensures at < EXTENDED.RunEnd(h, at) <==> !EXTENDED.Stops(h[at])
    ensures !EXTENDED.Stops(QUOTE)
  {
  }

  lemma SliceMatch(h: JsString, at: nat, s: JsString, i: nat, p: JsString)
    requires at + |s| <= |h| && h[at..at + |s|] == s && i + |p| <= |s|
    ensures LiteralAt(h, at + i, p) <==> LiteralAt(s, i, p)
  {
    assert forall k {:trigger p[k]} :: 0 <= k < |p| ==> h[at + i + k] == h[at..at + |s|][i + k];
  }

  /** What the extended pattern reads from a header, when it matches. */
  function Extended(h: JsString): Option<Option<JsString>> {
    var i := EXTENDED.Leftmost(h, 0);
    if i.None? then None else Some(DecodeURIComponent(EXTENDED.Capture(h, i.value)))
  }

  lemma ParsedByExtended(h: JsString)
    requires Extended(h).Some?
    ensures ParseContentDispositionFilename(Some(h)) == Extended(h).value
  {
  }

  /** A spoofed match captures a stretch of the fallback name too short to be the name. */
  lemma SpoofedCapture(s: JsString, tail: JsString, i: nat)
    requires forall u :: u in s ==> u != QUOTE
    requires tail == [] || EXTENDED.Stops(tail[0])
    requires i <= 22 + |s| && EXTENDED.MatchesAt(Header(s, tail), i)
    ensures |EXTENDED.Capture(Header(s, tail), i)| < |s|
  {
    KeyUnits();
    ExtendedInName(s, tail, i);
    var h := Header(s, tail);
    var r := EXTENDED.RunEnd(h, i + 17);
    if tail != [] {
      assert h[22 + |s| + 1] == tail[0];
    }
    assert r <= 22 + |s| + 1;
  }

  lemma {:induction false} LeftmostBound(p: Pattern, h: JsString, i: nat)
    requires i <= |h| && p.MatchesAt(h, i)
    ensures p.Leftmost(h, 0).Some? && p.Leftmost(h, 0).value <= i
  {
    var r := p.Leftmost(h, 0);
  }

  lemma {:induction false} SpoofedRead(f: JsString, tail: JsString)
    requires Spoofs(Safe(f))
    requires tail == [] || EXTENDED.Stops(tail[0])
    ensures Extended(Header(Safe(f), tail)).Some? && Extended(Header(Safe(f), tail)).value != Some(f)
  {
    SpoofedTooShort(f, Safe(f), tail);
  }

  lemma {:induction false} SpoofedTooShort(f: JsString, s: JsString, tail: JsString)
    requires Spoofs(s) && |s| <= |f| && forall u :: u in s ==> u != QUOTE
    requires tail == [] || EXTENDED.Stops(tail[0])
    ensures Extended(Header(s, tail)).Some? && Extended(Header(s, tail)).value != Some(f)
  {
    var h := Header(s, tail);
    var i := SpoofedMatch(s, tail);
    SpoofedCapture(s, tail, i);
    DecodeShrinks(EXTENDED.Capture(h, i));
  }

  lemma {:induction false} SpoofedMatch(s: JsString, tail: JsString) returns (i: nat)
    requires Spoofs(s) && forall u :: u in s ==> u != QUOTE
    ensures EXTENDED.Leftmost(Header(s, tail), 0) == Some(i) && i <= 22 + |s|
  {
    var h := Header(s, tail);
    var j :| 0 <= j < |s| && SpoofsAt(s, j);
    HeaderSize(s, tail);
    ExtendedInName(s, tail, 22 + j);
    LeftmostBound(EXTENDED, h, 22 + j);
    i := EXTENDED.Leftmost(h, 0).value;
  }

  lemma HeaderSize(s: JsString, tail: JsString)
    ensures |Header(s, tail)| == 23 + |s| + |tail|
  {
    KeyUnits();
  }

  lemma {:induction false} RunEndIs(p: Pattern, h: JsString, start: nat, run: JsString)
    requires start + |run| <= |h| && h[start..start + |run|] == run
    requires forall u :: u in run ==> !p.Stops(u)
    requires start + |run| < |h| ==> p.Stops(h[start + |run|])
    ensures p.RunEnd(h, start) == start + |run|
  {
    var r := p.RunEnd(h, start);
    assert forall k :: start <= k < start + |run| ==> h[k] == h[start..start + |run|][k - start];
  }

  /** Where a key is followed by a whole run, and nothing matches earlier, the search captures the run. */
  lemma {:induction false} KeyedRun(p: Pattern, h: JsString, at: nat, run: JsString, rest: JsString)
    requires at <= |h| && run != [] && h[at..] == p.key + run + rest
    requires forall u :: u in run ==> !p.Stops(u)
    requires if rest == [] then !p.quoted else p.Stops(rest[0])
    requires forall i: nat :: i < at ==> !p.MatchesAt(h, i)
    ensures p.Leftmost(h, 0) == Some(at) && p.Capture(h, at) == run
  {
    RunAfterKey(p, h, at, run, rest);
    LeftmostIs(p, h, at);
  }

  lemma RunAfterKey(p: Pattern, h: JsString, at: nat, run: JsString, rest: JsString)
    requires at <= |h| && run != [] && h[at..] == p.key + run + rest
    requires forall u :: u in run ==> !p.Stops(u)
    requires if rest == [] then !p.quoted else p.Stops(rest[0])
    ensures p.MatchesAt(h, at) && p.Capture(h, at) == run
  {
    var start := at + |p.key|;
    Tail(h, at, p.key, run, rest);
    KeyHere(h, at, p.key);
    RunEndIs(p, h, start, run);
  }

  lemma KeyHere(h: JsString, at: nat, key: JsString)
    requires at + |key| <= |h| && h[at..at + |key|] == key
    ensures LiteralAt(h, at, key)
  {
    SliceMatch(h, at, key, 0, key);
  }

  lemma Tail(h: JsString, at: nat, key: JsString, run: JsString, rest: JsString)
    requires at <= |h| && h[at..] == key + run + rest
    ensures |h| == at + |key| + |run| + |rest|
    ensures h[at..at + |key|] == key
    ensures h[at + |key|..at + |key| + |run|] == run
    ensures rest != [] ==> h[at + |key| + |run|] == rest[0]
  {
    var t := h[at..];
    assert t[..|key|] == key && t[|key|..|key| + |run|] == run;
    assert rest != [] ==> t[|key| + |run|] == rest[0];
  }

  lemma {:induction false} LeftmostIs(p: Pattern, h: JsString, at: nat)
    requires p.MatchesAt(h, at) && forall i: nat :: i < at ==> !p.MatchesAt(h, i)
    ensures p.Leftmost(h, 0) == Some(at)
  {
    var r := p.Leftmost(h, 0);
  }

  lemma NoExtendedMatch(s: JsString)
    requires forall u :: u in s ==> u != QUOTE
    requires !Spoofs(s)
    ensures EXTENDED.Leftmost(Header(s, []), 0).None?
  {
    KeyUnits();
    if EXTENDED.Leftmost(Header(s, []), 0).Some? {
      var i := EXTENDED.Leftmost(Header(s, []), 0).value;
      ExtendedInName(s, [], i);
    }
  }

  /** A name that is its own fallback is read back from the quoted parameter. */
  lemma {:induction false} QuotedMatch(f: JsString, h: JsString)
    requires f != [] && forall u :: u in f ==> u != QUOTE
    requires h == OPENING + f + [QUOTE]
    ensures QUOTED.Leftmost(h, 0) == Some(12) && QUOTED.Capture(h, 12) == f
  {
    KeyUnits();
    assert h[12..] == OPENING[12..] + f + [QUOTE];
    forall i: nat | i < 12 ensures !QUOTED.MatchesAt(h, i) {
      NothingBeforeName(QUOTED, h, i);
    }
    KeyedRun(QUOTED, h, 12, f, [QUOTE]);
  }

  /** The empty name is read back by the third pattern, as two quote marks that are then dropped. */
  lemma {:induction false} EmptyMatch(h: JsString)
    requires h == OPENING + [QUOTE]
    ensures QUOTED.Leftmost(h, 0).None?
    ensures BARE.Leftmost(h, 0) == Some(12) && BARE.Capture(h, 12) == [QUOTE, QUOTE]
  {
    KeyUnits();
    forall i: nat | i < 12 ensures !QUOTED.MatchesAt(h, i) && !BARE.MatchesAt(h, i) {
      NothingBeforeName(QUOTED, h, i);
      NothingBeforeName(BARE, h, i);
    }
    assert !QUOTED.MatchesAt(h, 12);
    var q := QUOTED.Leftmost(h, 0);
    assert q.None?;
    assert h[12..] == BARE.key + [QUOTE, QUOTE] + [] by {
      assert OPENING[12..] == BARE_KEY + [QUOTE];
    }
    KeyedRun(BARE, h, 12, [QUOTE, QUOTE], []);
  }

  /** Any other name is read back from the extended parameter. */
  lemma {:induction false} ExtendedMatch(s: JsString, e: JsString, h: JsString)
    requires (forall u :: u in s ==> u != QUOTE) && !Spoofs(s)
    requires e != [] && forall u :: u in e ==> !EXTENDED.Stops(u)
    requires h == Header(s, Ascii("; ") + EXT_KEY + e)
    ensures EXTENDED.Leftmost(h, 0) == Some(25 + |s|) && EXTENDED.Capture(h, 25 + |s|) == e
  {
    KeyUnits();
    var key := EXT_KEY;
    var tail := Ascii("; ") + key + e;
    var at := 25 + |s|;
    assert h[at - 2] == ';' as int && h[at - 1] == ' ' as int;
    assert h[at..] == key + e + [];
    forall i: nat | i < at ensures !EXTENDED.MatchesAt(h, i) {
      if i <= 22 + |s| {
        ExtendedInName(s, tail, i);
      } else {
        Mismatch(h, i, key, 0);
      }
    }
    KeyedRun(EXTENDED, h, at, e, []);
  }

  /** The parse of a header whose name is its own fallback. */
  lemma {:induction false} ShortRoundTrip(f: JsString, h: JsString)
    requires Safe(f) == f && h == OPENING + f + [QUOTE]
    ensures ParseContentDispositionFilename(Some(h)) == Some(f) <==> !Spoofs(f)
  {
    assert h == Header(f, []);
    if Spoofs(f) {
      SpoofedRead(f, []);
      ParsedByExtended(h);
    } else {
      NoExtendedMatch(f);
      if f == [] {
        assert h == OPENING + [QUOTE];
        EmptyMatch(h);
      } else {
        QuotedMatch(f, h);
      }
    }
  }

  /** The parse of a header that carries the extended parameter. */
  lemma {:induction false} LongRoundTrip(f: JsString, e: JsString, tail: JsString)
    requires f != [] && EncodeURIComponent(f) == Success(e)
    requires tail == Ascii("; ") + EXT_KEY + e
    ensures ParseContentDispositionFilename(Some(Header(Safe(f), tail))) == Some(f) <==> !Spoofs(Safe(f))
  {
    if Spoofs(Safe(f)) {
      assert EXTENDED.Stops(tail[0]);
      SpoofedRead(f, tail);
    } else {
      ReadBack(f, Safe(f), e, Header(Safe(f), tail));
    }
    ParsedByExtended(Header(Safe(f), tail));
  }

  lemma {:induction false} ReadBack(f: JsString, s: JsString, e: JsString, h: JsString)
    requires f != [] && EncodeURIComponent(f) == Success(e)
    requires (forall u :: u in s ==> u != QUOTE) && !Spoofs(s)
    requires h == Header(s, Ascii("; ") + EXT_KEY + e)
    ensures Extended(h) == Some(Some(f))
  {
    EncodedRuns(f, e);
    ExtendedMatch(s, e, h);
    DecodeInvertsEncode(f);
  }

  lemma {:induction false} EncodedRuns(f: JsString, e: JsString)
    requires f != [] && EncodeURIComponent(f) == Success(e)
    ensures e != [] && forall u :: u in e ==> !EXTENDED.Stops(u)
  {
    EncodedUnits(f);
    forall u | u in e ensures !EXTENDED.Stops(u) {
      RunUnit(u);
    }
  }

  lemma RunUnit(u: Unit)
    requires u == PERCENT || IsUnescaped(u)
    ensures !EXTENDED.Stops(u)
  {
  }

  lemma LongHeader(o: JsString, s: JsString, x: JsString, e: JsString)
    ensures o + s + Ascii("\"; ") + x + e == o + s + [QUOTE] + (Ascii("; ") + x + e)
  {
    assert Ascii("\"; ") == [QUOTE] + Ascii("; ");
    assert o + s + ([QUOTE] + Ascii("; ")) + x + e == o + s + [QUOTE] + (Ascii("; ") + x + e);
  }

  /** The header round trip, for every string: the printer throws exactly on lone surrogates, and the
      parser gives the name back exactly when the fallback does not spoof the extended key. */
  lemma {:induction false} HeaderRoundTrip(f: JsString)
    ensures FormatContentDisposition(f).Success? <==> WellFormed(f)
    ensures WellFormed(f) ==>
              (ParseContentDispositionFilename(Some(FormatContentDisposition(f).value)) == Some(f)
               <==> !Spoofs(Safe(f)))
  {
    DecodeInvertsEncode(f);
    if WellFormed(f) {
      var e := EncodeURIComponent(f).value;
      if Safe(f) == f {
        ShortRoundTrip(f, OPENING + f + [QUOTE]);
      } else {
        LongHeader(OPENING, Safe(f), EXT_KEY, e);
        LongRoundTrip(f, e, Ascii("; ") + EXT_KEY + e);
      }
    }
  }

  /** A concrete name that does not survive: the parser reads y out of it. */
  lemma SpoofedNameIsLost()
    ensures FormatContentDisposition(Ascii("filename*=UTF-8''y")).Success?
    ensures ParseContentDispositionFilename(
              Some(FormatContentDisposition(Ascii("filename*=UTF-8''y")).value))
            != Some(Ascii("filename*=UTF-8''y"))
  {
    var f := Ascii("filename*=UTF-8''y");
    AsciiIsWellFormed(f);
    SpoofAtFront(f);
    HeaderRoundTrip(f);
  }

  lemma {:induction false} SpoofAtFront(f: JsString)
    requires f == Ascii("filename*=UTF-8''y")
    ensures Safe(f) == f && Spoofs(f)
  {
    KeyUnits();
    StartsWithKey(f, EXT_KEY);
    assert SpoofsAt(f, 0);
    SafeAlready(f);
  }

  lemma StartsWithKey(f: JsString, key: JsString)
    requires |key| <= |f| && forall k :: 0 <= k < |key| ==> f[k] == key[k]
    ensures LiteralAt(f, 0, key)
  {
    assert f[..|key|] == key;
    KeyHere(f, 0, key);
  }

  lemma {:induction false} SafeAlready(f: JsString)
    requires forall k :: 0 <= k < |f| ==> IsPrintable(f[k]) && f[k] != QUOTE
    ensures Safe(f) == f
  {
  }

  lemma {:induction false} AsciiIsWellFormed(s: JsString)
    requires forall k :: 0 <= k < |s| ==> s[k] < 128
    ensures WellFormed(s)
    decreases |s|
  {
    if s != [] {
      AsciiIsWellFormed(s[1..]);
      assert First(s) == Some(s[0]);
    }
  }

  predicate IsPlain(u: Unit) {
    'a' as int <= u <= 'z' as int || '0' as int <= u <= '9' as int
    || u == '-' as int || u == '_' as int || u == '.' as int
  }

  /** Names of lower-case letters, digits, dashes, underscores and dots always survive. */
  lemma PlainNameRoundTrip(f: JsString)
    requires forall k :: 0 <= k < |f| ==> IsPlain(f[k])
    ensures FormatContentDisposition(f).Success?
    ensures ParseContentDispositionFilename(Some(FormatContentDisposition(f).value)) == Some(f)
  {
    KeyUnits();
    AsciiIsWellFormed(f);
    assert Safe(f) == f;
    forall i | 0 <= i < |f| ensures !SpoofsAt(f, i) {
      if i + 8 < |f| {
        Mismatch(f, i, EXT_KEY, 8);
      }
    }
    HeaderRoundTrip(f);
  }
}
