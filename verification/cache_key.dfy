/**
 * The registry key built from a literal `src` and its `sizes`/`width`
 * hints, and the `OPTIMIZABLE` test that picks the kind of rewrite.
 */
module CacheKey {
  import opened Wrappers
  import opened Text
  import opened Markup

  /** The string `encodeURIComponent` receives for a hint token: its raw text, or "undefined" when it has none. */
  function HintText(t: Token): string
  {
    match t.kind
    case TextToken(raw) => raw
    case _ => "undefined"
  }

  /** The character that joins the query to the path: `&` when `src` already has a query. */
  function Separator(path: string): char
  {
    if '?' in path then '&' else '?'
  }

  /** One hint parameter, `param=<encoded value>&`, or nothing when the attribute is absent. */
  function Hint(param: string, value: Option<string>, encode: string -> string): string
  {
    match value
    case None => ""
    case Some(v) => param + "=" + encode(v) + "&"
  }

  const Marker: string := "enhanced"

  /** Everything the key adds after the trimmed `src`. */
  function KeySuffix(path: string, sizes: Option<string>, width: Option<string>, encode: string -> string): (r: string)
    ensures |r| > |Marker|
    ensures r[0] == Separator(path)
    ensures r[1..|r| - |Marker|] == Hint("imgSizes", sizes, encode) + Hint("imgWidth", width, encode)
    ensures r[|r| - |Marker|..] == Marker
  {
    var hints := Hint("imgSizes", sizes, encode) + Hint("imgWidth", width, encode);
    var r := [Separator(path)] + hints + Marker;
    assert r[1..|r| - |Marker|] == hints;
    r
  }

  /** The slices of a concatenation past its first part are slices of the second part. */
  lemma ConcatSlices(a: string, b: string, i: nat, j: nat)
    requires i <= j <= |b|
    ensures (a + b)[..|a|] == a && (a + b)[|a|..] == b
    ensures (a + b)[|a| + i..|a| + j] == b[i..j]
    ensures j == |b| ==> (a + b)[|a| + i..] == b[i..]
  {
  }

  /**
   * The key under which a literal `src` is resolved and registered: the
   * trimmed source `path`, the separator, the encoded `sizes` then `width`
   * hints when present, and the fixed marker.
   */
  function BuildKey(path: string, sizes: Option<string>, width: Option<string>, encode: string -> string): (key: string)
    ensures |key| > |path| + |Marker|
    ensures key[..|path|] == path
    ensures key[|path|] == (if '?' in path then '&' else '?')
    ensures key[|path| + 1..|key| - |Marker|] == Hint("imgSizes", sizes, encode) + Hint("imgWidth", width, encode)
    ensures key[|key| - |Marker|..] == Marker
  {
    var suffix := KeySuffix(path, sizes, width, encode);
    ConcatSlices(path, suffix, 1, |suffix| - |Marker|);
    ConcatSlices(path, suffix, |suffix| - |Marker|, |suffix|);
    path + suffix
  }

  /** A `sizes` hint follows the separator. */
  lemma KeySizesHint(path: string, v: string, width: Option<string>, encode: string -> string, key: string)
    requires key == BuildKey(path, Some(v), width, encode)
    ensures var hint := Hint("imgSizes", Some(v), encode);
            |path| + 1 + |hint| <= |key| && key[|path| + 1..|path| + 1 + |hint|] == hint
  {
    KeyParts(path, Some(v), width, encode);
    PartAt(key, path + [Separator(path)], Hint("imgSizes", Some(v), encode), Hint("imgWidth", width, encode) + Marker);
  }

  /** A `width` hint sits right before the marker. */
  lemma KeyWidthHint(path: string, sizes: Option<string>, v: string, encode: string -> string, key: string)
    requires key == BuildKey(path, sizes, Some(v), encode)
    ensures var hint := Hint("imgWidth", Some(v), encode);
            |hint| + |Marker| <= |key| && key[|key| - |Marker| - |hint|..|key| - |Marker|] == hint
  {
    KeyParts(path, sizes, Some(v), encode);
    PartAt(key, path + [Separator(path)] + Hint("imgSizes", sizes, encode), Hint("imgWidth", Some(v), encode), Marker);
  }

  /** The key is the path, the separator, the `sizes` hint, the `width` hint and the marker, in that order. */
  lemma KeyParts(path: string, sizes: Option<string>, width: Option<string>, encode: string -> string)
    ensures var front := path + [Separator(path)];
            var s := Hint("imgSizes", sizes, encode);
            var w := Hint("imgWidth", width, encode);
            && BuildKey(path, sizes, width, encode) == front + s + (w + Marker)
            && BuildKey(path, sizes, width, encode) == (front + s) + w + Marker
  {
    var s := Hint("imgSizes", sizes, encode);
    var w := Hint("imgWidth", width, encode);
    assert BuildKey(path, sizes, width, encode) == path + ([Separator(path)] + (s + w) + Marker);
    Regroup(path, [Separator(path)], s, w, Marker);
  }

  /** Two groupings of a five-part concatenation. */
  lemma Regroup(p: string, c: string, s: string, w: string, m: string)
    ensures p + (c + (s + w) + m) == (p + c) + s + (w + m)
    ensures p + (c + (s + w) + m) == ((p + c) + s) + w + m
  {
  }

  /** The middle part of a string cut in three. */
  lemma PartAt(x: string, a: string, b: string, c: string)
    requires x == a + b + c
    ensures |a| + |b| <= |x| && x[|a|..|a| + |b|] == b
    ensures |x| - |c| - |b| == |a|
  {
    assert x[|a|..|a| + |b|] == (a + b)[|a|..];
  }

  /** Without hints the key is the path, the separator and the marker. */
  lemma KeyNoHints(path: string, encode: string -> string)
    ensures BuildKey(path, None, None, encode) == path + [Separator(path)] + Marker
  {
    assert KeySuffix(path, None, None, encode) == [Separator(path)] + Marker;
  }

  /** A string cut at an `&` that neither left part contains is cut at the same place. */
  lemma AmpersandSplit(x: string, y: string, x2: string, y2: string)
    requires '&' !in x && '&' !in x2
    requires x + "&" + y == x2 + "&" + y2
    ensures x == x2 && y == y2
  {
    var s := x + "&" + y;
    assert forall k :: 0 <= k < |x| ==> s[k] == x[k];
    FirstOfUnique(s, '&', |x|);
    assert forall k :: 0 <= k < |x2| ==> s[k] == x2[k];
    FirstOfUnique(s, '&', |x2|);
    assert x == s[..|x|] && x2 == (x2 + "&" + y2)[..|x2|];
    assert y == s[|x| + 1..] && y2 == (x2 + "&" + y2)[|x2| + 1..];
  }

  /** Two present hints of one parameter agree exactly when their encoded values do. */
  lemma HintValueEqual(param: string, a: string, b: string, restA: string, restB: string, encode: string -> string)
    requires forall v :: '&' !in encode(v)
    requires Hint(param, Some(a), encode) + restA == Hint(param, Some(b), encode) + restB
    ensures encode(a) == encode(b) && restA == restB
  {
    var n := |param + "="|;
    var l := Hint(param, Some(a), encode) + restA;
    var r := Hint(param, Some(b), encode) + restB;
    assert l[n..] == encode(a) + "&" + restA;
    assert r[n..] == encode(b) + "&" + restB;
    AmpersandSplit(encode(a), restA, encode(b), restB);
  }

  /** The query starts with the `sizes` hint exactly when there is one: its fourth character is then `S`, not `W`. */
  lemma SizesShowInQuery(sizes: Option<string>, width: Option<string>, encode: string -> string)
    ensures var q := Hint("imgSizes", sizes, encode) + Hint("imgWidth", width, encode);
            sizes.Some? <==> |q| > 3 && q[3] == 'S'
  {
  }

  /**
   * The query the hints add determines the hints, for an encoder that is
   * injective and never emits `&` (`encodeURIComponent` is both).
   */
  lemma HintsDetermineQuery(s1: Option<string>, w1: Option<string>, s2: Option<string>, w2: Option<string>,
                            encode: string -> string)
    requires forall a, b :: encode(a) == encode(b) ==> a == b
    requires forall v :: '&' !in encode(v)
    requires Hint("imgSizes", s1, encode) + Hint("imgWidth", w1, encode)
          == Hint("imgSizes", s2, encode) + Hint("imgWidth", w2, encode)
    ensures s1 == s2 && w1 == w2
  {
    var wh1 := Hint("imgWidth", w1, encode);
    var wh2 := Hint("imgWidth", w2, encode);
    SizesShowInQuery(s1, w1, encode);
    SizesShowInQuery(s2, w2, encode);
    if s1.Some? {
      HintValueEqual("imgSizes", s1.value, s2.value, wh1, wh2, encode);
    } else {
      assert Hint("imgSizes", s1, encode) + wh1 == wh1;
      assert Hint("imgSizes", s2, encode) + wh2 == wh2;
    }
    assert wh1 == wh2;
    if w1.Some? && w2.Some? {
      assert wh1 + "" == wh2 + "";
      HintValueEqual("imgWidth", w1.value, w2.value, "", "", encode);
    }
  }

  /**
   * For one path, the key tells the hints apart: elements that share a `src`
   * but differ in `sizes` or `width` are resolved and registered separately.
   * Different paths can still meet in one key, as `a.jpg?imgWidth=5` with no
   * hints and `a.jpg` with width `5` do.
   */
  lemma HintsDistinguishKeys(path: string, s1: Option<string>, w1: Option<string>, s2: Option<string>,
                             w2: Option<string>, encode: string -> string)
    requires forall a, b :: encode(a) == encode(b) ==> a == b
    requires forall v :: '&' !in encode(v)
    ensures BuildKey(path, s1, w1, encode) == BuildKey(path, s2, w2, encode) <==> s1 == s2 && w1 == w2
  {
    var k1 := BuildKey(path, s1, w1, encode);
    var k2 := BuildKey(path, s2, w2, encode);
    if k1 == k2 {
      HintsDetermineQuery(s1, w1, s2, w2, encode);
    }
  }

  const Extensions: seq<string> := ["avif", "heif", "gif", "jpeg", "jpg", "png", "tiff", "webp"]

  /** The index of the first `c`, or the length when there is none. */
  function FirstOf(s: string, c: char): (q: nat)
    ensures q <= |s|
    ensures forall k :: 0 <= k < q ==> s[k] != c
    ensures q < |s| ==> s[q] == c
  {
    if s == [] || s[0] == c then 0 else 1 + FirstOf(s[1..], c)
  }

  /** Only the first `c` has no `c` before it. */
  lemma FirstOfUnique(s: string, c: char, q: nat)
    requires q <= |s|
    requires forall k :: 0 <= k < q ==> s[k] != c
    requires q < |s| ==> s[q] == c
    ensures q == FirstOf(s, c)
  {
  }

  /** The index of the first `?`, or the length when there is none. */
  function QueryStart(s: string): (q: nat)
    ensures q <= |s|
    ensures forall k :: 0 <= k < q ==> s[k] != '?'
    ensures q < |s| ==> s[q] == '?'
  {
    FirstOf(s, '?')
  }

  predicate EndsWithExtension(path: string, e: string)
  {
    |path| > |e| + 1 && path[|path| - |e| - 1..] == "." + e
  }

  predicate HasOptimizableExtension(path: string)
  {
    exists e :: e in Extensions && EndsWithExtension(path, e)
  }

  /**
   * `OPTIMIZABLE.test(s)`: the path before the first `?` is a non-empty stem,
   * a dot and one of the extensions (case-sensitively), and the query after
   * it has no line terminator, which the regular expression's `.` refuses.
   */
  predicate Optimizable(s: string)
    ensures Optimizable(s) ==> exists dot :: 0 < dot < QueryStart(s) && s[dot] == '.'
  {
    var q := QueryStart(s);
    StemBeforeDot(s, q);
    HasOptimizableExtension(s[..q]) && NoLineTerminator(s[q..])
  }

  /** An optimizable extension sits after a dot that follows a non-empty stem. */
  lemma StemBeforeDot(s: string, q: nat)
    requires q <= |s|
    ensures HasOptimizableExtension(s[..q]) ==> exists dot :: 0 < dot < q && s[dot] == '.'
  {
    if HasOptimizableExtension(s[..q]) {
      var e :| e in Extensions && EndsWithExtension(s[..q], e);
      DotBeforeExtension(s, q, e);
    }
  }

  /**
   * How `^[^?]+\.(avif|heif|gif|jpeg|jpg|png|tiff|webp)(\?.*)?$` matches `s`:
   * the dot at `dot`, the optional query group starting at `q`.
   */
  ghost predicate RegexMatchesAt(s: string, dot: nat, q: nat)
  {
    && 0 < dot < q <= |s|
    && (forall k :: 0 <= k < q ==> s[k] != '?')
    && s[dot] == '.'
    && s[dot + 1..q] in Extensions
    && (q < |s| ==> s[q] == '?' && forall k :: q < k < |s| ==> !IsLineTerminator(s[k]))
  }

  ghost predicate RegexMatches(s: string)
  {
    exists dot, q :: RegexMatchesAt(s, dot, q)
  }

  /** The query group can only start at the first `?`. */
  lemma QueryStartUnique(s: string, q: nat)
    requires q <= |s|
    requires forall k :: 0 <= k < q ==> s[k] != '?'
    requires q < |s| ==> s[q] == '?'
    ensures q == QueryStart(s)
  {
    FirstOfUnique(s, '?', q);
  }

  /** An extension at the end of the path sits right after a dot that is not the first character. */
  lemma DotBeforeExtension(s: string, q: nat, e: string)
    requires q <= |s| && EndsWithExtension(s[..q], e)
    ensures 0 < q - |e| - 1 && s[q - |e| - 1] == '.' && s[q - |e|..q] == e
  {
    var path := s[..q];
    assert s[q - |e| - 1..q] == path[|path| - |e| - 1..];
    assert s[q - |e| - 1..q][0] == '.';
    assert s[q - |e|..q] == s[q - |e| - 1..q][1..];
  }

  /** A dot after the first character ends the stem, and the rest of the path is its extension. */
  lemma ExtensionAfterDot(s: string, dot: nat, q: nat)
    requires 0 < dot < q <= |s| && s[dot] == '.'
    ensures EndsWithExtension(s[..q], s[dot + 1..q])
  {
    var path := s[..q];
    var e := s[dot + 1..q];
    assert path[|path| - |e| - 1..] == s[dot..q];
    assert s[dot..q] == "." + e;
  }

  /** Every string `Optimizable` accepts is matched by the regular expression. */
  lemma OptimizableMatches(s: string)
    requires Optimizable(s)
    ensures RegexMatches(s)
  {
    var q := QueryStart(s);
    var e :| e in Extensions && EndsWithExtension(s[..q], e);
    DotBeforeExtension(s, q, e);
    var dot := q - |e| - 1;
    forall k | q < k < |s|
      ensures !IsLineTerminator(s[k])
    {
      assert s[k] == s[q..][k - q];
    }
    assert RegexMatchesAt(s, dot, q);
  }

  /** Every match of the regular expression is accepted by `Optimizable`. */
  lemma MatchIsOptimizable(s: string, dot: nat, q: nat)
    requires RegexMatchesAt(s, dot, q)
    ensures Optimizable(s)
  {
    QueryStartUnique(s, q);
    ExtensionAfterDot(s, dot, q);
    assert HasOptimizableExtension(s[..q]);
    assert NoLineTerminator(s[q..]);
  }

  /** `Optimizable` agrees with the regular expression on every string. */
  lemma OptimizableIsRegex(s: string)
    ensures Optimizable(s) <==> RegexMatches(s)
  {
    if Optimizable(s) {
      OptimizableMatches(s);
    }
    if RegexMatches(s) {
      var dot: nat, q: nat :| RegexMatchesAt(s, dot, q);
      MatchIsOptimizable(s, dot, q);
    }
  }

  /** The first `?` of the key is that of the path: the hints never move the path's end. */
  lemma KeyPath(path: string, sizes: Option<string>, width: Option<string>, encode: string -> string)
    ensures var key := BuildKey(path, sizes, width, encode);
            QueryStart(key) == QueryStart(path) && key[..QueryStart(key)] == path[..QueryStart(path)]
  {
    var key := BuildKey(path, sizes, width, encode);
    var q := QueryStart(path);
    assert forall k :: 0 <= k < q ==> key[k] == path[k];
    QueryStartUnique(key, q);
  }

  /** The hint parameters carry no line terminator when the encoder emits none. */
  lemma HintNoLineTerminator(param: string, value: Option<string>, encode: string -> string)
    requires NoLineTerminator(param)
    requires forall v :: NoLineTerminator(encode(v))
    ensures NoLineTerminator(Hint(param, value, encode))
  {
    if value.Some? {
      var v := value.value;
      assert NoLineTerminator(encode(v));
      NoLineTerminatorConcat(param, "=");
      NoLineTerminatorConcat(param + "=", encode(v));
      NoLineTerminatorConcat(param + "=" + encode(v), "&");
    }
  }

  /** The fixed parts of the key are plain ASCII. */
  lemma FixedPartsNoLineTerminator()
    ensures NoLineTerminator("imgSizes") && NoLineTerminator("imgWidth") && NoLineTerminator(Marker)
  {
  }

  /** A string cut in three pieces, each free of line terminators, is free of them. */
  lemma PiecesNoLineTerminator(r: string, i: nat, j: nat)
    requires i <= j <= |r|
    requires NoLineTerminator(r[..i]) && NoLineTerminator(r[i..j]) && NoLineTerminator(r[j..])
    ensures NoLineTerminator(r)
  {
    forall k | 0 <= k < |r|
      ensures !IsLineTerminator(r[k])
    {
      if k < i {
        assert r[k] == r[..i][k];
      } else if k < j {
        assert r[k] == r[i..j][k - i];
      } else {
        assert r[k] == r[j..][k - j];
      }
    }
  }

  lemma KeySuffixNoLineTerminator(t: string, sizes: Option<string>, width: Option<string>, encode: string -> string)
    requires forall v :: NoLineTerminator(encode(v))
    ensures NoLineTerminator(KeySuffix(t, sizes, width, encode))
  {
    var sh := Hint("imgSizes", sizes, encode);
    var wh := Hint("imgWidth", width, encode);
    FixedPartsNoLineTerminator();
    HintNoLineTerminator("imgSizes", sizes, encode);
    HintNoLineTerminator("imgWidth", width, encode);
    NoLineTerminatorConcat(sh, wh);
    var r := KeySuffix(t, sizes, width, encode);
    assert NoLineTerminator(r[..1]) by {
      assert r[..1][0] == Separator(t);
    }
    PiecesNoLineTerminator(r, 1, |r| - |Marker|);
  }

  /**
   * Whether a key is optimizable depends on the trimmed `src` alone: the part
   * before its first `?` and the query it already carries, never on the hints, as
   * long as the encoder emits no line terminator (percent-encoding emits none).
   */
  lemma OptimizableIgnoresHints(t: string, sizes: Option<string>, width: Option<string>, encode: string -> string)
    requires forall v :: NoLineTerminator(encode(v))
    ensures var q := QueryStart(t);
            (Optimizable(BuildKey(t, sizes, width, encode)) <==> (HasOptimizableExtension(t[..q]) && NoLineTerminator(t[q..])))
  {
    var key := BuildKey(t, sizes, width, encode);
    var q := QueryStart(t);
    KeyPath(t, sizes, width, encode);
    var rest := KeySuffix(t, sizes, width, encode);
    assert key[q..] == t[q..] + rest;
    KeySuffixNoLineTerminator(t, sizes, width, encode);
    NoLineTerminatorConcat(t[q..], rest);
  }

  /** The regular expression accepts a JPEG path with the appended query. */
  lemma OptimizableJpeg()
    ensures Optimizable("./cat.jpg?enhanced")
  {
    var s := "./cat.jpg?enhanced";
    assert s[6..9] == "jpg";
    assert RegexMatchesAt(s, 5, 9);
    OptimizableIsRegex(s);
  }

  /** Extensions are matched case-sensitively: a path ending in an upper-case letter is never optimizable. */
  lemma UpperCaseExtensionNotOptimizable(s: string)
    requires QueryStart(s) > 0 && 'A' <= s[QueryStart(s) - 1] <= 'Z'
    ensures !Optimizable(s)
  {
    var q := QueryStart(s);
    var path := s[..q];
    forall e | e in Extensions
      ensures !EndsWithExtension(path, e)
    {
      assert e[|e| - 1] != path[q - 1];
    }
  }

  /** The stem before the dot must not be empty. */
  lemma NotOptimizableEmptyStem()
    ensures !Optimizable(".png?enhanced")
  {
    QueryStartUnique(".png?enhanced", 4);
    assert ".png?enhanced"[..4] == ".png";
  }
}
