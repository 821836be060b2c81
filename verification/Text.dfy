/** Decimal numerals, splitting and joining, and string order, as JavaScript has them. */
module Text {
  import opened JsStrings

  // ---- decimal numerals

  function Digit(d: int): char
    requires 0 <= d < 10
  {
    '0' + d as char
  }

  predicate IsDigit(c: char) { '0' <= c <= '9' }

  predicate IsNumeral(s: string) { forall i | 0 <= i < |s| :: IsDigit(s[i]) }

  function Natural(n: nat): (s: string)
    ensures s != [] && IsNumeral(s)
  {
    if n < 10 then [Digit(n)] else Natural(n / 10) + [Digit(n % 10)]
  }

  /** String(n) of an integer. */
  function Decimal(n: int): string { if n < 0 then "-" + Natural(-n) else Natural(n) }

  function Value(s: string): nat
    requires IsNumeral(s)
  {
    if s == [] then 0 else 10 * Value(s[..|s| - 1]) + (s[|s| - 1] as int - '0' as int)
  }

  lemma {:induction false} ValueOfNatural(n: nat)
    ensures Value(Natural(n)) == n
  {
    if n >= 10 {
      ValueOfNatural(n / 10);
      assert Natural(n)[..|Natural(n)| - 1] == Natural(n / 10);
    }
  }

  /** Number(s) of a run of digits; the empty string reads as 0. Anything else is taken to be NaN. */
  function Number(s: string): Option<nat> { if IsNumeral(s) then Some(Value(s)) else None }

  /** String(n).padStart(2, "0"). */
  function Pad2(n: int): string {
    if |Decimal(n)| < 2 then "0" + Decimal(n) else Decimal(n)
  }

  lemma Pad2Value(n: int)
    requires 0 <= n < 100
    ensures |Pad2(n)| == 2 && IsNumeral(Pad2(n)) && Value(Pad2(n)) == n
  {
    if n < 10 {
      var s := Pad2(n);
      assert s[..1] == "0" && Value(s[..1]) == 10 * Value("0"[..0]) + 0;
    } else {
      assert |Natural(n / 10)| == 1;
      ValueOfNatural(n);
    }
  }

  /** Numerals of one length are determined by their values. */
  lemma {:induction false} NumeralIsValue(a: string, b: string)
    requires IsNumeral(a) && IsNumeral(b) && |a| == |b|
    ensures Value(a) == Value(b) ==> a == b
  {
    if a != [] && Value(a) == Value(b) {
      NumeralIsValue(a[..|a| - 1], b[..|b| - 1]);
      assert a == a[..|a| - 1] + [a[|a| - 1]] && b == b[..|b| - 1] + [b[|b| - 1]];
    }
  }

  lemma {:induction false} DecimalInjective(a: int, b: int)
    requires Decimal(a) == Decimal(b)
    ensures a == b
  {
    var m, n := if a < 0 then -a else a, if b < 0 then -b else b;
    ValueOfNatural(m);
    ValueOfNatural(n);
    assert IsDigit(Natural(m)[0]) && IsDigit(Natural(n)[0]);
    assert Decimal(a)[0] == '-' <==> a < 0;
    assert Decimal(b)[0] == '-' <==> b < 0;
    if a < 0 {
      assert Decimal(a)[1..] == Natural(m) && Decimal(b)[1..] == Natural(n);
    }
  }

  lemma {:induction false} DecimalEnds(n: int)
    ensures Decimal(n) != "" && IsDigit(Decimal(n)[|Decimal(n)| - 1])
  {
    var s := Natural(if n < 0 then -n else n);
    assert s[|s| - 1] == Decimal(n)[|Decimal(n)| - 1];
  }

  /** A month number written as two digits is that of a calendar month only if it is the same number. */
  lemma {:induction false} Pad2OfMonth(m: int, k: int)
    requires 0 <= m && 1 <= k <= 12 && Pad2(m) == Pad2(k)
    ensures m == k
  {
    Pad2Value(k);
    ThreeDigits(m);
    if m < 100 {
      Pad2Value(m);
    }
  }

  lemma {:induction false} ThreeDigits(m: nat)
    ensures m >= 100 ==> |Natural(m)| >= 3
  {
    if m >= 100 {
      assert |Natural(m)| == |Natural(m / 10)| + 1 && |Natural(m / 10)| == |Natural(m / 10 / 10)| + 1;
    }
  }

  /** Four digits spell a number from 1000 exactly when the first is no zero. */
  lemma {:induction false} NaturalLength(n: nat)
    ensures |Natural(n)| == 4 <==> 1000 <= n < 10000
  {
    if n >= 10 {
      assert |Natural(n)| == |Natural(n / 10)| + 1;
      if n >= 100 {
        assert |Natural(n / 10)| == |Natural(n / 10 / 10)| + 1;
        if n >= 1000 {
          assert |Natural(n / 10 / 10)| == |Natural(n / 10 / 10 / 10)| + 1;
          if n >= 10000 {
            assert |Natural(n / 10 / 10 / 10)| == |Natural(n / 10 / 10 / 10 / 10)| + 1;
          }
        }
      }
    }
  }

  // ---- splitting and joining at a one-character separator

  function Find(s: string, c: char): (r: nat)
    ensures r <= |s| && c !in s[..r] && (r < |s| ==> s[r] == c)
  {
    if s == [] || s[0] == c then 0 else 1 + Find(s[1..], c)
  }

  function Split(s: string, c: char): (r: seq<string>)
    ensures r != []
    decreases |s|
  {
    var i := Find(s, c);
    if i == |s| then [s] else [s[..i]] + Split(s[i + 1..], c)
  }

  function Join(parts: seq<string>, sep: string): string {
    if parts == [] then ""
    else if |parts| == 1 then parts[0]
    else parts[0] + sep + Join(parts[1..], sep)
  }

  /** Splitting undoes joining when no part holds the separator. */
  lemma {:induction false} SplitInvertsJoin(parts: seq<string>, c: char)
    requires parts != [] && forall i :: 0 <= i < |parts| ==> c !in parts[i]
    ensures Split(Join(parts, [c]), c) == parts
  {
    var s := Join(parts, [c]);
    if |parts| == 1 {
      FindIs(s, c, |s|);
    } else {
      SplitInvertsJoin(parts[1..], c);
      var i := |parts[0]|;
      assert s == parts[0] + [c] + Join(parts[1..], [c]);
      assert s[..i] == parts[0];
      FindIs(s, c, i);
      assert s[i + 1..] == Join(parts[1..], [c]);
    }
  }

  lemma {:induction false} FindIs(s: string, c: char, i: nat)
    requires i <= |s| && c !in s[..i] && (i < |s| ==> s[i] == c)
    ensures Find(s, c) == i
  {
    var r := Find(s, c);
    var before, after := s[..i], s[..r];
  }

  lemma NumeralHolds(s: string, c: char)
    requires IsNumeral(s) && !IsDigit(c)
    ensures c !in s
  {
  }

  /** Fields before and after a separator that one side does not hold are determined by the whole. */
  lemma FirstField(a: string, b: string, s: string, t: string, c: char)
    requires c !in a && c !in b && a + [c] + s == b + [c] + t
    ensures a == b && s == t
  {
    var u := a + [c] + s;
    assert u[..|a|] == a && u[|a|] == c && u[..|b|] == b && u[|b|] == c;
    FindIs(u, c, |a|);
    FindIs(u, c, |b|);
    assert u[|a| + 1..] == s && u[|b| + 1..] == t;
  }

  lemma LastField(a: string, b: string, s: string, t: string, c: char)
    requires c !in s && c !in t && a + [c] + s == b + [c] + t
    ensures a == b && s == t
  {
    var u := a + [c] + s;
    assert u[|a|] == c && u[|b|] == c && u[|a| + 1..] == s && u[|b| + 1..] == t;
    NoSeparatorAfter(u, c, |a|, |b|);
    NoSeparatorAfter(u, c, |b|, |a|);
    assert u[..|a|] == a && u[..|b|] == b;
  }

  lemma NoSeparatorAfter(u: string, c: char, i: nat, j: nat)
    requires i < |u| && j < |u| && u[j] == c && c !in u[i + 1..]
    ensures j <= i
  {
    forall k | i < k < |u| ensures u[k] != c {
      assert u[k] == u[i + 1..][k - i - 1];
    }
  }

  // ---- trimming

  predicate IsSpace(c: char) { IsWhiteSpace(c as int) }

  function Trim(s: string): (r: string)
    ensures forall c :: c in r ==> c in s
    ensures r == "" || (!IsSpace(r[0]) && !IsSpace(r[|r| - 1]))
    decreases |s|
  {
    if s == "" then ""
    else if IsSpace(s[0]) then Trim(s[1..])
    else if IsSpace(s[|s| - 1]) then Trim(s[..|s| - 1])
    else s
  }

  /** Trimming takes away white space at both ends and nothing else. */
  lemma {:induction false} TrimmedSpaces(s: string) returns (lead: string, trail: string)
    ensures s == lead + Trim(s) + trail
    ensures (forall i :: 0 <= i < |lead| ==> IsSpace(lead[i])) && forall i :: 0 <= i < |trail| ==> IsSpace(trail[i])
    decreases |s|
  {
    lead, trail := "", "";
    if s != "" && IsSpace(s[0]) {
      lead, trail := TrimmedSpaces(s[1..]);
      MoreInFront(s, [s[0]], lead, Trim(s), trail);
      lead := [s[0]] + lead;
    } else if s != "" && IsSpace(s[|s| - 1]) {
      var k := |s| - 1;
      lead, trail := TrimmedSpaces(s[..k]);
      MoreBehind(s, lead, Trim(s), trail, [s[k]]);
      trail := trail + [s[k]];
    }
  }

  lemma MoreInFront(s: string, c: string, lead: string, r: string, trail: string)
    requires |c| == 1 && c <= s && s[1..] == lead + r + trail
    ensures s == c + lead + r + trail
  {
    assert s == c + s[1..];
    assert c + (lead + r + trail) == c + lead + r + trail;
  }

  lemma MoreBehind(s: string, lead: string, r: string, trail: string, c: string)
    requires s != "" && c == [s[|s| - 1]] && s[..|s| - 1] == lead + r + trail
    ensures s == lead + r + (trail + c)
  {
    assert s == s[..|s| - 1] + c;
    assert lead + r + trail + c == lead + r + (trail + c);
  }

  // ---- order

  /** a < b of JavaScript strings. */
  predicate Less(a: string, b: string) {
    b != [] && (a == [] || a[0] < b[0] || (a[0] == b[0] && Less(a[1..], b[1..])))
  }

  lemma {:induction false} LessOfParts(a: string, b: string, c: string, d: string)
    requires |a| == |b|
    ensures Less(a + c, b + d) <==> Less(a, b) || (a == b && Less(c, d))
  {
    if a == [] {
      assert a + c == c && b + d == d;
    } else {
      LessOfParts(a[1..], b[1..], c, d);
      assert (a + c)[1..] == a[1..] + c && (b + d)[1..] == b[1..] + d;
      assert a == [a[0]] + a[1..] && b == [b[0]] + b[1..];
    }
  }

  /** Numerals of one length are ordered as strings the way their values are. */
  lemma {:induction false} NumeralOrder(a: string, b: string)
    requires IsNumeral(a) && IsNumeral(b) && |a| == |b|
    ensures Less(a, b) <==> Value(a) < Value(b)
  {
    if a != [] {
      var k := |a| - 1;
      NumeralOrder(a[..k], b[..k]);
      NumeralIsValue(a[..k], b[..k]);
      LessOfParts(a[..k], b[..k], [a[k]], [b[k]]);
      assert a == a[..k] + [a[k]] && b == b[..k] + [b[k]];
      assert Less([a[k]], [b[k]]) <==> a[k] < b[k];
    }
  }
}
