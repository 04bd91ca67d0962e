/**
 * The JavaScript string operations the CSV importer is built from: `trim`,
 * `split` on one character, removing every occurrence of a character,
 * `toLowerCase`, `includes`, `padStart(2, '0')`, `parseInt` on a run of
 * digits, number-to-string, and a signed decimal parser standing in for
 * `parseFloat`.
 */
module Text {
  import opened Seqs

  /** The characters `String.prototype.trim` removes (WhiteSpace and LineTerminator). */
  predicate IsJsWhitespace(c: char) {
    c == '\t' || c == '\n' || c == '\U{000B}' || c == '\U{000C}' || c == '\r' || c == ' '
    || c == '\U{00A0}' || c == '\U{1680}' || ('\U{2000}' <= c <= '\U{200A}')
    || c == '\U{2028}' || c == '\U{2029}' || c == '\U{202F}' || c == '\U{205F}' || c == '\U{3000}'
    || c == '\U{FEFF}'
  }

  function TrimStart(s: string): (r: string)
    ensures |r| <= |s| && r == s[|s| - |r|..]
    ensures r != [] ==> !IsJsWhitespace(r[0])
    ensures forall i :: 0 <= i < |s| - |r| ==> IsJsWhitespace(s[i])
  {
    if s != [] && IsJsWhitespace(s[0]) then TrimStart(s[1..]) else s
  }

  function TrimEnd(s: string): (r: string)
    ensures |r| <= |s| && r == s[..|r|]
    ensures r != [] ==> !IsJsWhitespace(r[|r| - 1])
    ensures forall i :: |r| <= i < |s| ==> IsJsWhitespace(s[i])
  {
    if s != [] && IsJsWhitespace(s[|s| - 1]) then TrimEnd(s[..|s| - 1]) else s
  }

  /**
   * `s.trim()`: the longest slice of s that neither starts nor ends with
   * whitespace, after dropping only whitespace on either side.
   */
  function Trim(s: string): (r: string)
    ensures |r| <= |s|
    ensures exists i, j :: 0 <= i <= j <= |s| && r == s[i..j] && TrimmedEnds(s, i, j)
    ensures r != [] ==> !IsJsWhitespace(r[0]) && !IsJsWhitespace(r[|r| - 1])
    ensures r == [] <==> forall i :: 0 <= i < |s| ==> IsJsWhitespace(s[i])
  {
    var t := TrimStart(s);
    var r := TrimEnd(t);
    TrimOf(s, t, r);
    r
  }

  /** Trimming the start and then the end gives the slice Trim promises. */
  lemma TrimOf(s: string, t: string, r: string)
    requires |t| <= |s| && t == s[|s| - |t|..]
    requires t != [] ==> !IsJsWhitespace(t[0])
    requires forall i :: 0 <= i < |s| - |t| ==> IsJsWhitespace(s[i])
    requires |r| <= |t| && r == t[..|r|]
    requires r != [] ==> !IsJsWhitespace(r[|r| - 1])
    requires forall i :: |r| <= i < |t| ==> IsJsWhitespace(t[i])
    ensures |r| <= |s|
    ensures exists i, j :: 0 <= i <= j <= |s| && r == s[i..j] && TrimmedEnds(s, i, j)
    ensures r != [] ==> !IsJsWhitespace(r[0]) && !IsJsWhitespace(r[|r| - 1])
    ensures r == [] <==> forall i :: 0 <= i < |s| ==> IsJsWhitespace(s[i])
  {
    assert r != [] ==> r[0] == t[0];
    TrimmedAway(s, t, r);
    TrimSlice(s, t, r);
    var i := |s| - |t|;
    assert r == s[i..i + |r|] && TrimmedEnds(s, i, i + |r|);
  }

  /** What trimming keeps is one slice of s, with only whitespace around it. */
  lemma TrimSlice(s: string, t: string, r: string)
    requires |t| <= |s| && t == s[|s| - |t|..]
    requires forall i :: 0 <= i < |s| - |t| ==> IsJsWhitespace(s[i])
    requires |r| <= |t| && r == t[..|r|]
    requires forall i :: |r| <= i < |t| ==> IsJsWhitespace(t[i])
    ensures var i := |s| - |t|; r == s[i..i + |r|] && TrimmedEnds(s, i, i + |r|)
  {
    var i := |s| - |t|;
    assert r == s[i..i + |r|];
    forall k | i + |r| <= k < |s| ensures IsJsWhitespace(s[k]) {
      assert s[k] == t[k - i];
    }
  }

  /** Only whitespace lies before position i and from position j on. */
  predicate TrimmedEnds(s: string, i: int, j: int)
    requires 0 <= i <= j <= |s|
  {
    (forall k :: 0 <= k < i ==> IsJsWhitespace(s[k])) && (forall k :: j <= k < |s| ==> IsJsWhitespace(s[k]))
  }

  lemma TrimmedAway(s: string, t: string, r: string)
    requires |t| <= |s| && t == s[|s| - |t|..]
    requires forall i :: 0 <= i < |s| - |t| ==> IsJsWhitespace(s[i])
    requires |r| <= |t| && forall i :: |r| <= i < |t| ==> IsJsWhitespace(t[i])
    ensures r == [] ==> forall i :: 0 <= i < |s| ==> IsJsWhitespace(s[i])
  {
    if r == [] {
      forall i | 0 <= i < |s| ensures IsJsWhitespace(s[i]) {
        if i >= |s| - |t| {
          assert s[i] == t[i - (|s| - |t|)];
        }
      }
    }
  }

  /** Trimming a trimmed string changes nothing. */
  lemma TrimIdempotent(s: string)
    ensures Trim(Trim(s)) == Trim(s)
  {
    var r := Trim(s);
    if r != [] {
      assert TrimStart(r) == r;
      assert TrimEnd(r) == r;
    }
  }

  /** `s.replace(/c/g, '')`: every occurrence of c removed, the rest kept in order. */
  function Without(s: string, c: char): (r: string)
    ensures c !in r
    ensures |r| <= |s|
    ensures c !in s ==> r == s
    ensures IsSubsequence(r, s)
    ensures forall x :: x != c ==> multiset(r)[x] == multiset(s)[x]
  {
    if s == [] then []
    else
      var p := Without(s[..|s| - 1], c);
      assert s == s[..|s| - 1] + [s[|s| - 1]];
      if s[|s| - 1] == c then p
      else
        assert (p + [s[|s| - 1]])[..|p|] == p;
        p + [s[|s| - 1]]
  }

  /** Removing a character adds no other. */
  lemma {:induction false} WithoutSubset(s: string, c: char)
    ensures forall x :: x in Without(s, c) ==> x in s
  {
    if s != [] {
      WithoutSubset(s[..|s| - 1], c);
      assert s == s[..|s| - 1] + [s[|s| - 1]];
    }
  }

  /** Number of occurrences of c in s. */
  function Count(s: string, c: char): nat {
    if s == [] then 0 else Count(s[..|s| - 1], c) + (if s[|s| - 1] == c then 1 else 0)
  }

  /** `s.split(sep)` for a one-character separator. */
  function Split(s: string, sep: char): (r: seq<string>)
    ensures |r| >= 1
  {
    if s == [] then [[]]
    else
      var p := Split(s[..|s| - 1], sep);
      var c := s[|s| - 1];
      if c == sep then p + [[]]
      else p[..|p| - 1] + [p[|p| - 1] + [c]]
  }

  /** `pieces.join(sep)`. */
  function Join(pieces: seq<string>, sep: char): string
    requires |pieces| >= 1
  {
    if |pieces| == 1 then pieces[0]
    else Join(pieces[..|pieces| - 1], sep) + [sep] + pieces[|pieces| - 1]
  }

  /**
   * Splitting loses nothing: joining the pieces with the separator gives the
   * string back, there is one piece more than separators, and no piece
   * contains the separator.
   */
  lemma SplitJoin(s: string, sep: char)
    ensures Join(Split(s, sep), sep) == s
    ensures |Split(s, sep)| == Count(s, sep) + 1
    ensures forall i :: 0 <= i < |Split(s, sep)| ==> sep !in Split(s, sep)[i]
  {
    JoinSplit(s, sep);
    SplitCount(s, sep);
    SplitPieces(s, sep);
  }

  lemma {:induction false} JoinSplit(s: string, sep: char)
    ensures Join(Split(s, sep), sep) == s
  {
    if s != [] {
      var s', c := s[..|s| - 1], s[|s| - 1];
      assert s == s' + [c];
      JoinSplit(s', sep);
      var p := Split(s', sep);
      var n := |p|;
      if c == sep {
        assert (p + [[]])[..n] == p;
      } else {
        var q := p[..n - 1] + [p[n - 1] + [c]];
        assert q[..n - 1] == p[..n - 1];
        if n > 1 {
          assert Join(q, sep) == Join(p[..n - 1], sep) + [sep] + (p[n - 1] + [c]);
        }
      }
    }
  }

  lemma {:induction false} SplitCount(s: string, sep: char)
    ensures |Split(s, sep)| == Count(s, sep) + 1
  {
    if s != [] {
      SplitCount(s[..|s| - 1], sep);
    }
  }

  lemma {:induction false} SplitPieces(s: string, sep: char)
    ensures forall i :: 0 <= i < |Split(s, sep)| ==> sep !in Split(s, sep)[i]
  {
    if s != [] {
      var s', c := s[..|s| - 1], s[|s| - 1];
      SplitPieces(s', sep);
      var p := Split(s', sep);
      var n := |p|;
      if c != sep {
        var q := p[..n - 1] + [p[n - 1] + [c]];
        forall i | 0 <= i < |q| ensures sep !in q[i] {
          if i < n - 1 {
            assert q[i] == p[i];
          }
        }
      }
    }
  }

  function LowerChar(c: char): char {
    if 'A' <= c <= 'Z' then (c as int + 32) as char else c
  }

  /** `s.toLowerCase()` on the ASCII letters. */
  function Lower(s: string): (r: string)
    ensures |r| == |s|
  {
    seq(|s|, i requires 0 <= i < |s| => LowerChar(s[i]))
  }

  /** No upper-case ASCII letter is left after lowering. */
  lemma LowerIdempotent(s: string)
    ensures Lower(Lower(s)) == Lower(s)
    ensures forall i :: 0 <= i < |s| ==> !('A' <= Lower(s)[i] <= 'Z')
  {
  }

  /** `s.includes(sub)`, searched from the left. */
  predicate Contains(s: string, sub: string)
    decreases |s|
  {
    sub <= s || (s != [] && Contains(s[1..], sub))
  }

  /** sub occurs in s starting at position i. */
  predicate OccursAt(s: string, sub: string, i: int) {
    0 <= i <= |s| - |sub| && s[i..i + |sub|] == sub
  }

  /** Contains finds exactly the positions where sub occurs. */
  lemma {:induction false} ContainsIff(s: string, sub: string)
    ensures Contains(s, sub) <==> exists i :: OccursAt(s, sub, i)
    decreases |s|
  {
    if sub <= s {
      assert OccursAt(s, sub, 0);
    } else if s != [] {
      ContainsIff(s[1..], sub);
      if Contains(s[1..], sub) {
        var i :| OccursAt(s[1..], sub, i);
        assert OccursAt(s, sub, i + 1);
      }
      if i :| OccursAt(s, sub, i) {
        assert i != 0;
        assert s[1..][i - 1..i - 1 + |sub|] == s[i..i + |sub|];
        assert OccursAt(s[1..], sub, i - 1);
      }
    }
  }

  /** A string lacking one of sub's characters does not contain sub. */
  lemma MissingChar(s: string, sub: string, c: char)
    requires c in sub && c !in s
    ensures !Contains(s, sub)
  {
    var k :| 0 <= k < |sub| && sub[k] == c;
    forall i | 0 <= i <= |s| - |sub| ensures !OccursAt(s, sub, i) {
      assert s[i + k] in s;
      assert s[i..i + |sub|][k] == s[i + k];
    }
    ContainsIff(s, sub);
  }

  /** A string contains every slice of itself. */
  lemma ContainsSlice(s: string, i: nat, j: nat)
    requires i <= j <= |s|
    ensures Contains(s, s[i..j])
  {
    ContainsIff(s, s[i..j]);
    assert OccursAt(s, s[i..j], i);
  }

  // ---------------------------------------------------------------------------
  // Digits and numbers

  predicate IsDigit(c: char) { '0' <= c <= '9' }

  predicate AllDigits(s: string) {
    forall i :: 0 <= i < |s| ==> IsDigit(s[i])
  }

  function DigitValue(c: char): nat
    requires IsDigit(c)
  {
    c as int - '0' as int
  }

  function DigitChar(d: nat): (c: char)
    requires d < 10
    ensures IsDigit(c) && DigitValue(c) == d
  {
    ('0' as int + d) as char
  }

  /** `parseInt(s, 10)` for a string of decimal digits. */
  function DigitsValue(s: string): nat
    requires AllDigits(s)
  {
    if s == [] then 0 else DigitsValue(s[..|s| - 1]) * 10 + DigitValue(s[|s| - 1])
  }

  /** A string of n digits denotes a number below 10^n. */
  lemma {:induction false} DigitsBound(s: string)
    requires AllDigits(s)
    ensures DigitsValue(s) < Pow10(|s|)
  {
    if s != [] {
      DigitsBound(s[..|s| - 1]);
    }
  }

  /** `String(n)` for a natural number: decimal, no leading zero. */
  function NatToString(n: nat): (r: string)
    ensures AllDigits(r) && r != []
    ensures |r| > 1 ==> r[0] != '0'
    ensures '/' !in r && '-' !in r
  {
    if n < 10 then [DigitChar(n)]
    else
      var p := NatToString(n / 10);
      p + [DigitChar(n % 10)]
  }

  /** Reading the digits of n back gives n. */
  lemma {:induction false} NatToStringRoundTrip(n: nat)
    ensures DigitsValue(NatToString(n)) == n
  {
    if n >= 10 {
      NatToStringRoundTrip(n / 10);
      var p := NatToString(n / 10);
      assert (p + [DigitChar(n % 10)])[..|p|] == p;
    }
  }

  /** A number has exactly four digits when it lies in 1000..9999. */
  lemma {:induction false} NatToStringLength(n: nat)
    ensures |NatToString(n)| == 4 <==> 1000 <= n <= 9999
    ensures n < 10 ==> |NatToString(n)| == 1
    ensures 10 <= n < 100 ==> |NatToString(n)| == 2
    ensures 100 <= n < 1000 ==> |NatToString(n)| == 3
    ensures n >= 10000 ==> |NatToString(n)| > 4
  {
    if n >= 10 {
      NatToStringLength(n / 10);
    }
  }

  /** `s.padStart(2, '0')`. */
  function PadStart2(s: string): (r: string)
    ensures |s| <= 2 ==> |r| == 2
    ensures AllDigits(s) ==> AllDigits(r) && DigitsValue(r) == DigitsValue(s)
  {
    if |s| == 0 then "00"
    else if |s| == 1 then
      assert AllDigits(s) ==> ("0" + s)[..1] == "0" && DigitsValue("0") == 0;
      "0" + s
    else s
  }

  function Pow10(k: nat): (r: nat)
    ensures r >= 1
  {
    if k == 0 then 1 else 10 * Pow10(k - 1)
  }

  /** Position of the first c in s, or |s| when there is none. */
  function IndexOf(s: string, c: char): (k: nat)
    ensures k <= |s|
    ensures k < |s| ==> s[k] == c
    ensures forall j :: 0 <= j < k ==> s[j] != c
  {
    if s == [] then 0 else if s[0] == c then 0 else 1 + IndexOf(s[1..], c)
  }

  /** Digits with an optional fractional part; at least one digit in all. */
  function ParseUnsigned(s: string): (r: Option<real>)
    ensures r.Some? ==> r.value >= 0.0
  {
    var k := IndexOf(s, '.');
    if k == |s| then
      if s != [] && AllDigits(s) then Some(DigitsValue(s) as real) else None
    else
      var whole, frac := s[..k], s[k + 1..];
      if AllDigits(whole) && AllDigits(frac) && |whole| + |frac| >= 1 then
        Some(DigitsValue(whole) as real + DigitsValue(frac) as real / Pow10(|frac|) as real)
      else None
  }

  /**
   * A signed decimal number (`-12.50`, `+3`, `.5`): the part of `parseFloat`
   * the importer relies on. Anything else is not a number (None).
   */
  function ParseDecimal(s: string): (r: Option<real>)
    ensures r.Some? && r.value < 0.0 ==> s != [] && s[0] == '-'
  {
    if s != [] && (s[0] == '-' || s[0] == '+') then
      match ParseUnsigned(s[1..])
      case None => None
      case Some(v) => Some(if s[0] == '-' then -v else v)
    else ParseUnsigned(s)
  }

  /** Whole numbers read back as themselves, with or without a minus sign. */
  lemma ParseDecimalOfNat(n: nat)
    ensures ParseDecimal(NatToString(n)) == Some(n as real)
    ensures ParseDecimal("-" + NatToString(n)) == Some(-(n as real))
  {
    var r := NatToString(n);
    NatToStringRoundTrip(n);
    assert IndexOf(r, '.') == |r| by {
      assert '.' !in r by {
        forall i | 0 <= i < |r| ensures r[i] != '.' {
          assert IsDigit(r[i]);
        }
      }
    }
    assert ("-" + r)[1..] == r;
    assert ("-" + r)[0] == '-';
  }

  /**
   * Amounts with cents read back exactly: the whole part, a point and two
   * cent digits, with or without a minus sign, parse to n hundredths.
   */
  lemma ParseDecimalOfCents(n: nat)
    ensures ParseDecimal(NatToString(n / 100) + "." + PadStart2(NatToString(n % 100))) == Some(n as real / 100.0)
    ensures ParseDecimal("-" + NatToString(n / 100) + "." + PadStart2(NatToString(n % 100))) == Some(-(n as real / 100.0))
  {
    var w, f := NatToString(n / 100), PadStart2(NatToString(n % 100));
    CentsUnsigned(n);
    assert IsDigit(w[0]);
    SignedParse(w, f, n as real / 100.0);
  }

  /** The unsigned rendering with cents reads back as n hundredths. */
  lemma CentsUnsigned(n: nat)
    ensures ParseUnsigned(NatToString(n / 100) + "." + PadStart2(NatToString(n % 100))) == Some(n as real / 100.0)
  {
    var w, c := NatToString(n / 100), NatToString(n % 100);
    var f := PadStart2(c);
    NatToStringRoundTrip(n / 100);
    NatToStringRoundTrip(n % 100);
    NatToStringLength(n % 100);
    NoDotInDigits(w);
    assert Pow10(|f|) == 100 by {
      assert |f| == 2 && Pow10(2) == 100;
    }
    ParseUnsignedOfParts(w, f, n / 100, n % 100, Pow10(|f|));
    Scaled(n % 100, Pow10(|f|), n % 100);
    CentsValue(n);
  }

  /** A fraction over a scale known to be 100 is a fraction over 100.0. */
  lemma Scaled(d: nat, p: nat, e: nat)
    requires p == 100 && d == e
    ensures d as real / p as real == e as real / 100.0
  {
  }

  /** n hundredths split into whole units and cents. */
  lemma CentsValue(n: nat)
    ensures (n / 100) as real + (n % 100) as real / 100.0 == n as real / 100.0
  {
    assert n == 100 * (n / 100) + n % 100;
    assert n as real == 100.0 * (n / 100) as real + (n % 100) as real;
  }

  /** `w.f` with w starting with a digit parses as its unsigned reading, and negated after a minus sign. */
  lemma SignedParse(w: string, f: string, v: real)
    requires w != [] && IsDigit(w[0]) && ParseUnsigned(w + "." + f) == Some(v)
    ensures ParseDecimal(w + "." + f) == Some(v) && ParseDecimal("-" + w + "." + f) == Some(-v)
  {
    var t := w + "." + f;
    assert t[0] == w[0];
    assert "-" + w + "." + f == "-" + t;
    assert ("-" + t)[0] == '-' && ("-" + t)[1..] == t;
  }

  /** Digits, a point and digits read as the whole part plus the fraction scaled down. */
  lemma ParseUnsignedOfParts(w: string, f: string, whole: nat, frac: nat, scale: nat)
    requires w != [] && AllDigits(w) && AllDigits(f) && '.' !in w
    requires DigitsValue(w) == whole && DigitsValue(f) == frac && Pow10(|f|) == scale
    ensures ParseUnsigned(w + "." + f) == Some(whole as real + frac as real / scale as real)
  {
    DotLayout(w, f);
    ParseUnsignedAt(w + "." + f, w, f, whole, frac, scale);
  }

  /** With the first point after w and f after it, the value is w plus f scaled down. */
  lemma ParseUnsignedAt(t: string, w: string, f: string, whole: nat, frac: nat, scale: nat)
    requires IndexOf(t, '.') == |w| < |t| && t[..|w|] == w && t[|w| + 1..] == f
    requires w != [] && AllDigits(w) && AllDigits(f)
    requires DigitsValue(w) == whole && DigitsValue(f) == frac && Pow10(|f|) == scale
    ensures ParseUnsigned(t) == Some(whole as real + frac as real / scale as real)
  {
    var k := IndexOf(t, '.');
    assert t[..k] == w && t[k + 1..] == f;
    assert k != |t| && AllDigits(t[..k]) && AllDigits(t[k + 1..]);
    assert ParseUnsigned(t).Some?;
    assert ParseUnsigned(t).value == DigitsValue(w) as real + DigitsValue(f) as real / Pow10(|f|) as real;
  }

  /** Where the point and the two parts of `w.f` sit. */
  lemma DotLayout(w: string, f: string)
    requires '.' !in w
    ensures var t := w + "." + f;
      IndexOf(t, '.') == |w| && t[..|w|] == w && t[|w| + 1..] == f
  {
    var t := w + "." + f;
    assert t[|w|] == '.';
    forall j | 0 <= j < |w| ensures t[j] != '.' {
      assert t[j] == w[j];
    }
    IndexOfFirst(t, '.', |w|);
    assert t[..|w|] == w;
    assert t[|w| + 1..] == f;
  }

  /** The first position holding c is where IndexOf stops. */
  lemma {:induction false} IndexOfFirst(s: string, c: char, k: nat)
    requires k < |s| && s[k] == c && forall j :: 0 <= j < k ==> s[j] != c
    ensures IndexOf(s, c) == k
    decreases k
  {
    if k > 0 {
      IndexOfFirst(s[1..], c, k - 1);
    }
  }

  lemma NoDotInDigits(s: string)
    requires AllDigits(s)
    ensures '.' !in s
  {
    forall i | 0 <= i < |s| ensures s[i] != '.' {
      assert IsDigit(s[i]);
    }
  }
}
