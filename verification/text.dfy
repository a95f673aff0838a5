/**
 * The JavaScript string operations the preprocessor relies on. A JavaScript
 * string is a sequence of UTF-16 code units, while a `char` here is a Unicode
 * scalar value, so a lone surrogate cannot be written and a character outside
 * the Basic Multilingual Plane is one `char` but two code units. The model
 * therefore matches JavaScript exactly only for text without such characters,
 * where each `char` is one code unit and offsets agree.
 */
module Text {
  import opened Wrappers

  /** WhiteSpace or LineTerminator in the sense of ECMA-262 (sections 12.2 and 12.3): what `trim` removes. */
  predicate IsJsSpace(c: char)
  {
    || c == '\t' || c == '\n' || c == '\U{000B}' || c == '\U{000C}' || c == '\r' || c == ' '
    || c == '\U{00A0}' || c == '\U{1680}' || ('\U{2000}' <= c <= '\U{200A}')
    || c == '\U{2028}' || c == '\U{2029}' || c == '\U{202F}' || c == '\U{205F}'
    || c == '\U{3000}' || c == '\U{FEFF}'
  }

  /** A LineTerminator of ECMA-262: the code units a regular-expression `.` does not match. */
  predicate IsLineTerminator(c: char)
  {
    c == '\n' || c == '\r' || c == '\U{2028}' || c == '\U{2029}'
  }

  /** Every character of `s` is in the class `p`. */
  predicate AllIn(s: string, p: char -> bool)
  {
    forall i :: 0 <= i < |s| ==> p(s[i])
  }

  predicate NoLineTerminator(s: string)
  {
    forall i :: 0 <= i < |s| ==> !IsLineTerminator(s[i])
  }

  lemma NoLineTerminatorConcat(a: string, b: string)
    ensures NoLineTerminator(a + b) <==> NoLineTerminator(a) && NoLineTerminator(b)
  {
    if NoLineTerminator(a) && NoLineTerminator(b) {
      forall i | 0 <= i < |a + b|
        ensures !IsLineTerminator((a + b)[i])
      {
        if i >= |a| {
          assert (a + b)[i] == b[i - |a|];
        }
      }
    }
    if NoLineTerminator(a + b) {
      forall i | 0 <= i < |a|
        ensures !IsLineTerminator(a[i])
      {
        assert (a + b)[i] == a[i];
      }
      forall i | 0 <= i < |b|
        ensures !IsLineTerminator(b[i])
      {
        assert (a + b)[|a| + i] == b[i];
      }
    }
  }

  /** Drops the leading characters of class `p`. */
  function StripStart(s: string, p: char -> bool): (r: string)
    ensures |r| <= |s| && r == s[|s| - |r|..]
    ensures AllIn(s[..|s| - |r|], p)
    ensures r == [] || !p(r[0])
  {
    if s != [] && p(s[0]) then StripStart(s[1..], p) else s
  }

  /** Drops the trailing characters of class `p`. */
  function StripEnd(s: string, p: char -> bool): (r: string)
    ensures |r| <= |s| && r == s[..|r|]
    ensures AllIn(s[|r|..], p)
    ensures r == [] || !p(r[|r| - 1])
  {
    if s != [] && p(s[|s| - 1]) then StripEnd(s[..|s| - 1], p) else s
  }

  /** `r` is the infix of `s` at `i` and only characters of class `p` surround it. */
  ghost predicate StrippedAt(s: string, i: nat, r: string, p: char -> bool)
  {
    && i + |r| <= |s|
    && r == s[i..i + |r|]
    && AllIn(s[..i], p)
    && AllIn(s[i + |r|..], p)
  }

  /** The infix left after dropping the characters of class `p` at both ends. */
  function Strip(s: string, p: char -> bool): (r: string)
    ensures exists i :: StrippedAt(s, i, r, p)
    ensures r == [] || (!p(r[0]) && !p(r[|r| - 1]))
  {
    var t := StripStart(s, p);
    var r := StripEnd(t, p);
    StrippedInSuffix(s, t, r, p);
    r
  }

  /** A prefix `r` of a suffix `t` of `s`, with only class `p` cut away, is stripped from `s`. */
  lemma StrippedInSuffix(s: string, t: string, r: string, p: char -> bool)
    requires |t| <= |s| && t == s[|s| - |t|..] && AllIn(s[..|s| - |t|], p)
    requires |r| <= |t| && r == t[..|r|] && AllIn(t[|r|..], p)
    ensures StrippedAt(s, |s| - |t|, r, p)
  {
    var i := |s| - |t|;
    assert s[i..i + |r|] == r;
    assert s[i + |r|..] == t[|r|..];
  }

  /** `r` is `s` with leading and trailing white space removed. */
  ghost predicate IsTrimOf(s: string, r: string)
  {
    exists i :: StrippedAt(s, i, r, IsJsSpace)
  }

  /** `String.prototype.trim`: the infix left after removing leading and trailing white space. */
  function Trim(s: string): (r: string)
    ensures IsTrimOf(s, r)
    ensures r == [] || (!IsJsSpace(r[0]) && !IsJsSpace(r[|r| - 1]))
  {
    Strip(s, IsJsSpace)
  }

  /** Stripping is idempotent: a stripped string has nothing left to remove. */
  lemma StripIdempotent(s: string, p: char -> bool)
    ensures Strip(Strip(s, p), p) == Strip(s, p)
  {
    var r := Strip(s, p);
    assert StripStart(r, p) == r;
    assert StripEnd(r, p) == r;
  }

  /** Trimming is idempotent: a trimmed string has nothing left to remove. */
  lemma TrimIdempotent(s: string)
    ensures Trim(Trim(s)) == Trim(s)
  {
    StripIdempotent(s, IsJsSpace);
  }

  function Clamp(i: int, len: nat): (r: nat)
    ensures r <= len
  {
    if i < 0 then 0 else if i > len then len else i
  }

  /** `String.prototype.substring`: both bounds clamped into the string, swapped when reversed. */
  function Substring(s: string, start: int, end: int): (r: string)
    ensures 0 <= start <= end <= |s| ==> r == s[start..end]
    ensures 0 <= end <= start <= |s| ==> r == s[end..start]
    ensures |r| <= |s|
  {
    var a := Clamp(start, |s|);
    var b := Clamp(end, |s|);
    if a <= b then s[a..b] else s[b..a]
  }

  predicate OccursAt(s: string, p: string, i: nat)
  {
    i + |p| <= |s| && s[i..i + |p|] == p
  }

  /** The second and fourth parts of a concatenation occur where they were placed. */
  lemma OccursInParts(a: string, b: string, c: string, d: string, e: string)
    ensures OccursAt(a + b + c + d + e, b, |a|)
    ensures OccursAt(a + b + c + d + e, d, |a| + |b| + |c|)
  {
    var s := a + b + c + d + e;
    assert s[|a|..|a| + |b|] == b;
    assert s[|a| + |b| + |c|..|a| + |b| + |c| + |d|] == d;
  }

  /** An occurrence keeps its place, shifted, behind a prefix. */
  lemma OccursAfter(a: string, s: string, p: string, m: nat)
    requires OccursAt(s, p, m)
    ensures OccursAt(a + s, p, |a| + m)
  {
    assert (a + s)[|a| + m..|a| + m + |p|] == s[m..m + |p|];
  }

  /** Where a concatenation occurs, its middle part occurs too. */
  lemma OccursWithin(s: string, a: string, b: string, c: string, m: nat)
    requires OccursAt(s, a + b + c, m)
    ensures OccursAt(s, b, m + |a|)
  {
    var w := s[m..m + |a + b + c|];
    assert w == a + b + c;
    forall t | 0 <= t < |b|
      ensures s[m + |a| + t] == b[t]
    {
      assert s[m + |a| + t] == w[|a| + t];
    }
    assert s[m + |a|..m + |a| + |b|] == b;
  }

  /** A part placed inside a bracketed concatenation occurs where it was placed. */
  lemma OccursInside(p: string, x: string, y: string, z: string, q: string)
    ensures OccursAt(p + (x + y + z) + q, y, |p| + |x|)
  {
    var s := p + (x + y + z) + q;
    assert s[|p| + |x|..|p| + |x| + |y|] == y;
  }

  /** The first position at or after `from` where `p` occurs in `s`. */
  function IndexOfFrom(s: string, p: string, from: nat): (r: Option<nat>)
    requires from <= |s|
    ensures r.Some? ==> from <= r.value && OccursAt(s, p, r.value)
    ensures r.Some? ==> forall k :: from <= k < r.value ==> !OccursAt(s, p, k)
    ensures r.None? ==> forall k :: from <= k <= |s| ==> !OccursAt(s, p, k)
    decreases |s| - from
  {
    if OccursAt(s, p, from) then Some(from)
    else if from == |s| then None
    else IndexOfFrom(s, p, from + 1)
  }

  /** `String.prototype.includes`. */
  function Includes(s: string, p: string): (b: bool)
    ensures b <==> exists k :: 0 <= k <= |s| && OccursAt(s, p, k)
  {
    IndexOfFrom(s, p, 0).Some?
  }

  /** `String.prototype.replace` with a string pattern: only the first occurrence is replaced. */
  function ReplaceFirst(s: string, p: string, rep: string): (r: string)
    ensures (forall k :: 0 <= k <= |s| ==> !OccursAt(s, p, k)) ==> r == s
    ensures forall i :: 0 <= i <= |s| && OccursAt(s, p, i) && (forall k :: 0 <= k < i ==> !OccursAt(s, p, k))
                     ==> r == s[..i] + rep + s[i + |p|..]
    ensures |rep| <= |p| ==> |r| <= |s|
  {
    match IndexOfFrom(s, p, 0)
    case None => s
    case Some(i) => s[..i] + rep + s[i + |p|..]
  }

  /** `String.prototype.replaceAll` with a one-character string pattern. */
  function ReplaceAllChar(s: string, c: char, rep: string): (r: string)
    ensures c !in s ==> r == s
    ensures |rep| >= 1 ==> |r| >= |s|
  {
    if s == [] then []
    else (if s[0] == c then rep else [s[0]]) + ReplaceAllChar(s[1..], c, rep)
  }

  /** `Array.prototype.join` over strings. */
  function Join(xs: seq<string>, sep: string): string
  {
    if |xs| == 0 then ""
    else if |xs| == 1 then xs[0]
    else xs[0] + sep + Join(xs[1..], sep)
  }

  /** Every element occurs in the joined text. */
  lemma {:induction false} JoinHolds(xs: seq<string>, sep: string, i: nat)
    requires i < |xs|
    ensures exists m :: 0 <= m <= |Join(xs, sep)| && OccursAt(Join(xs, sep), xs[i], m)
    decreases |xs|
  {
    var j := Join(xs, sep);
    if |xs| == 1 {
      assert j == xs[0] && j[0..|xs[0]|] == xs[0];
      assert OccursAt(j, xs[i], 0);
    } else if i == 0 {
      assert j == xs[0] + sep + Join(xs[1..], sep);
      assert j[0..|xs[0]|] == xs[0];
      assert OccursAt(j, xs[i], 0);
    } else {
      JoinHolds(xs[1..], sep, i - 1);
      var rest := Join(xs[1..], sep);
      var m :| 0 <= m <= |rest| && OccursAt(rest, xs[1..][i - 1], m);
      OccursAfter(xs[0] + sep, rest, xs[i], m);
      assert j == xs[0] + sep + rest;
      assert OccursAt(j, xs[i], |xs[0] + sep| + m);
    }
  }

  /** The concatenation of five parts, which starts with the first. */
  function Concat5(a: string, b: string, c: string, d: string, e: string): (s: string)
    ensures OccursAt(s, a, 0)
  {
    var s := a + b + c + d + e;
    assert s[0..|a|] == a;
    s
  }

  /** Every element of a joined list occurs in the joined text. */
  lemma JoinHoldsAll(xs: seq<string>, sep: string)
    ensures forall i :: 0 <= i < |xs| ==> Includes(Join(xs, sep), xs[i])
  {
    forall i | 0 <= i < |xs|
      ensures Includes(Join(xs, sep), xs[i])
    {
      JoinHolds(xs, sep, i);
    }
  }

  function DigitChar(d: nat): (c: char)
    requires d < 10
    ensures '0' <= c <= '9'
  {
    (48 + d) as char
  }

  function DigitValue(c: char): int
  {
    c as int - 48
  }

  /** The decimal numeral of `n`, as `String(n)` writes it: no sign, no leading zero. */
  function Decimal(n: nat): (r: string)
    ensures |r| >= 1
    ensures forall i :: 0 <= i < |r| ==> '0' <= r[i] <= '9'
    ensures r[0] == '0' ==> n == 0
  {
    if n < 10 then [DigitChar(n)] else Decimal(n / 10) + [DigitChar(n % 10)]
  }

  /** Reads a numeral of decimal digits back into a number. */
  function ParseDecimal(s: string): int
  {
    if s == [] then 0 else ParseDecimal(s[..|s| - 1]) * 10 + DigitValue(s[|s| - 1])
  }

  /** Reading the numeral back gives the number it was written from. */
  lemma {:induction false} DecimalRoundTrip(n: nat)
    ensures ParseDecimal(Decimal(n)) == n
  {
    var r := Decimal(n);
    if n >= 10 {
      DecimalRoundTrip(n / 10);
      assert r[..|r| - 1] == Decimal(n / 10);
    }
  }

  /** Distinct numbers have distinct numerals. */
  lemma DecimalInjective(a: nat, b: nat)
    requires a != b
    ensures Decimal(a) != Decimal(b)
  {
    DecimalRoundTrip(a);
    DecimalRoundTrip(b);
  }

  /** The string with every occurrence of `c` deleted. */
  function Without(s: string, c: char): (r: string)
    ensures c !in r
    ensures |r| <= |s|
  {
    if s == [] then [] else (if s[0] == c then [] else [s[0]]) + Without(s[1..], c)
  }

  lemma {:induction false} WithoutConcat(a: string, b: string, c: char)
    ensures Without(a + b, c) == Without(a, c) + Without(b, c)
  {
    if a != [] {
      assert (a + b)[1..] == a[1..] + b;
      WithoutConcat(a[1..], b, c);
    } else {
      assert a + b == b;
    }
  }
}
