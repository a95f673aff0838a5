/**
 * `parseObject`: the imagetools plugin generates its descriptor module as an
 * object literal with bare keys. Three textual rewrites turn it into JSON
 * before `JSON.parse` reads it: a quote after every `{`, a quote before every
 * `:`, and a quote after every comma that is followed by something other than
 * a space. The rewrites only ever insert `"`.
 */
module PseudoJson {
  import opened Text

  /** `replaceAll('{', '{"')`. */
  function QuoteAfterBraces(s: string): string
  {
    ReplaceAllChar(s, '{', "{\"")
  }

  /** `replaceAll(':', '":')`. */
  function QuoteBeforeColons(s: string): string
  {
    ReplaceAllChar(s, ':', "\":")
  }

  /**
   * `replaceAll(/,([^ ])/g, ',"$1')`: scanning left to right, a comma and the
   * non-space unit after it are consumed together, so in `,,x` only the first
   * comma gets a quote.
   */
  function QuoteAfterCommas(s: string): (r: string)
    ensures s != [] ==> r != [] && r[0] == s[0]
    decreases |s|
  {
    if |s| >= 2 && s[0] == ',' && s[1] != ' ' then [',', '"', s[1]] + QuoteAfterCommas(s[2..])
    else if s == [] then []
    else [s[0]] + QuoteAfterCommas(s[1..])
  }

  /** The text `parseObject` hands to `JSON.parse`. */
  function Normalize(s: string): (r: string)
    ensures |r| >= |s|
    ensures '{' !in s && ':' !in s && ',' !in s ==> r == s
  {
    var t := QuoteBeforeColons(QuoteAfterBraces(s));
    CommasOnlyLengthen(t);
    QuoteAfterCommas(t)
  }

  /** Quoting after commas never shortens the text, and leaves a text without commas alone. */
  lemma {:induction false} CommasOnlyLengthen(s: string)
    ensures |QuoteAfterCommas(s)| >= |s|
    ensures ',' !in s ==> QuoteAfterCommas(s) == s
    decreases |s|
  {
    if |s| >= 2 && s[0] == ',' && s[1] != ' ' {
      CommasOnlyLengthen(s[2..]);
    } else if s != [] {
      CommasOnlyLengthen(s[1..]);
    }
  }

  /** Every `c` not at the very end is followed by a quote. */
  ghost predicate QuotedAfterInner(s: string, c: char)
  {
    forall i :: 0 <= i < |s| - 1 && s[i] == c ==> s[i + 1] == '"'
  }

  /** Every `c` is immediately followed by a quote. */
  ghost predicate QuotedAfter(s: string, c: char)
  {
    forall i :: 0 <= i < |s| && s[i] == c ==> i + 1 < |s| && s[i + 1] == '"'
  }

  /** Every `c` not at the very start is immediately preceded by a quote. */
  ghost predicate QuotedBeforeInner(s: string, c: char)
  {
    forall i :: 0 < i < |s| && s[i] == c ==> s[i - 1] == '"'
  }

  /** Every `c` is immediately preceded by a quote. */
  ghost predicate QuotedBefore(s: string, c: char)
  {
    forall i :: 0 <= i < |s| && s[i] == c ==> 0 < i && s[i - 1] == '"'
  }

  lemma QuotedAfterConcat(a: string, b: string, c: char)
    requires QuotedAfterInner(a, c)
    requires |a| > 0 && a[|a| - 1] == c ==> |b| > 0 && b[0] == '"'
    requires QuotedAfter(b, c)
    ensures QuotedAfter(a + b, c)
  {
    var s := a + b;
    forall i | 0 <= i < |s| && s[i] == c
      ensures i + 1 < |s| && s[i + 1] == '"'
    {
      if i < |a| - 1 {
        assert s[i] == a[i] && s[i + 1] == a[i + 1];
      } else if i == |a| - 1 {
        assert s[i + 1] == b[0];
      } else {
        assert s[i] == b[i - |a|];
        assert s[i + 1] == b[i + 1 - |a|];
      }
    }
  }

  lemma QuotedBeforeConcat(a: string, b: string, c: char)
    requires QuotedBeforeInner(a, c)
    requires QuotedBeforeInner(b, c)
    requires |b| > 0 && b[0] == c ==> |a| > 0 && a[|a| - 1] == '"'
    ensures QuotedBeforeInner(a + b, c)
  {
    var s := a + b;
    forall i | 0 < i < |s| && s[i] == c
      ensures s[i - 1] == '"'
    {
      if i < |a| {
        assert s[i] == a[i] && s[i - 1] == a[i - 1];
      } else if i == |a| {
        assert s[i] == b[0];
      } else {
        assert s[i] == b[i - |a|];
        assert s[i - 1] == b[i - 1 - |a|];
      }
    }
  }

  /** A rewrite that replaces `c` by a text with the same quote-free content keeps the quote-free content. */
  lemma {:induction false} ReplaceAllCharOnlyAddsQuotes(s: string, c: char, rep: string)
    requires Without(rep, '"') == Without([c], '"')
    ensures Without(ReplaceAllChar(s, c, rep), '"') == Without(s, '"')
  {
    if s != [] {
      var head := if s[0] == c then rep else [s[0]];
      ReplaceAllCharOnlyAddsQuotes(s[1..], c, rep);
      WithoutConcat(head, ReplaceAllChar(s[1..], c, rep), '"');
      WithoutConcat([s[0]], s[1..], '"');
      assert [s[0]] + s[1..] == s;
    }
  }

  lemma {:induction false} QuoteAfterCommasOnlyAddsQuotes(s: string)
    ensures Without(QuoteAfterCommas(s), '"') == Without(s, '"')
    decreases |s|
  {
    if |s| >= 2 && s[0] == ',' && s[1] != ' ' {
      QuoteAfterCommasOnlyAddsQuotes(s[2..]);
      WithoutConcat([',', '"', s[1]], QuoteAfterCommas(s[2..]), '"');
      WithoutConcat([',', s[1]], s[2..], '"');
      assert [',', s[1]] + s[2..] == s;
      assert Without([',', '"', s[1]], '"') == Without([',', s[1]], '"');
    } else if s != [] {
      QuoteAfterCommasOnlyAddsQuotes(s[1..]);
      WithoutConcat([s[0]], QuoteAfterCommas(s[1..]), '"');
      WithoutConcat([s[0]], s[1..], '"');
      assert [s[0]] + s[1..] == s;
    }
  }

  /** The normalised text differs from its input only by inserted `"`. */
  lemma NormalizeOnlyAddsQuotes(s: string)
    ensures Without(Normalize(s), '"') == Without(s, '"')
  {
    assert Without("{\"", '"') == Without("{", '"');
    assert Without("\":", '"') == Without(":", '"');
    ReplaceAllCharOnlyAddsQuotes(s, '{', "{\"");
    ReplaceAllCharOnlyAddsQuotes(QuoteAfterBraces(s), ':', "\":");
    QuoteAfterCommasOnlyAddsQuotes(QuoteBeforeColons(QuoteAfterBraces(s)));
  }

  lemma {:induction false} BracesQuoted(s: string)
    ensures QuotedAfter(QuoteAfterBraces(s), '{')
  {
    if s != [] {
      var head := if s[0] == '{' then "{\"" else [s[0]];
      BracesQuoted(s[1..]);
      QuotedAfterConcat(head, QuoteAfterBraces(s[1..]), '{');
    }
  }

  lemma {:induction false} ColonsKeepBracesQuoted(s: string)
    requires QuotedAfter(s, '{')
    ensures QuotedAfter(QuoteBeforeColons(s), '{')
  {
    if s != [] {
      var t := s[1..];
      var head := if s[0] == ':' then "\":" else [s[0]];
      assert QuotedAfter(t, '{') by {
        forall i | 0 <= i < |t| && t[i] == '{'
          ensures i + 1 < |t| && t[i + 1] == '"'
        {
          assert s[i + 1] == t[i];
        }
      }
      ColonsKeepBracesQuoted(t);
      if s[0] == '{' {
        assert t[0] == '"';
        assert QuoteBeforeColons(t)[0] == '"';
      }
      QuotedAfterConcat(head, QuoteBeforeColons(t), '{');
    }
  }

  lemma {:induction false} CommasKeepBracesQuoted(s: string)
    requires QuotedAfter(s, '{')
    ensures QuotedAfter(QuoteAfterCommas(s), '{')
    decreases |s|
  {
    if |s| >= 2 && s[0] == ',' && s[1] != ' ' {
      var u := s[2..];
      assert QuotedAfter(u, '{') by {
        forall i | 0 <= i < |u| && u[i] == '{'
          ensures i + 1 < |u| && u[i + 1] == '"'
        {
          assert s[i + 2] == u[i];
        }
      }
      CommasKeepBracesQuoted(u);
      if s[1] == '{' {
        assert u[0] == s[2] == '"';
      }
      QuotedAfterConcat([',', '"', s[1]], QuoteAfterCommas(u), '{');
    } else if s != [] {
      var t := s[1..];
      assert QuotedAfter(t, '{') by {
        forall i | 0 <= i < |t| && t[i] == '{'
          ensures i + 1 < |t| && t[i + 1] == '"'
        {
          assert s[i + 1] == t[i];
        }
      }
      CommasKeepBracesQuoted(t);
      if s[0] == '{' {
        assert t[0] == '"';
      }
      QuotedAfterConcat([s[0]], QuoteAfterCommas(t), '{');
    }
  }

  lemma {:induction false} ColonsQuoted(s: string)
    ensures QuotedBefore(QuoteBeforeColons(s), ':')
  {
    if s != [] {
      var head := if s[0] == ':' then "\":" else [s[0]];
      var rest := QuoteBeforeColons(s[1..]);
      ColonsQuoted(s[1..]);
      QuotedBeforeConcat(head, rest, ':');
      assert QuoteBeforeColons(s) == head + rest;
    }
  }

  lemma {:induction false} CommasKeepColonsQuoted(s: string)
    requires QuotedBeforeInner(s, ':')
    ensures QuotedBeforeInner(QuoteAfterCommas(s), ':')
    decreases |s|
  {
    if |s| >= 2 && s[0] == ',' && s[1] != ' ' {
      var u := s[2..];
      assert QuotedBeforeInner(u, ':') by {
        forall i | 0 < i < |u| && u[i] == ':'
          ensures u[i - 1] == '"'
        {
          assert s[i + 2] == u[i] && s[i + 1] == u[i - 1];
        }
      }
      CommasKeepColonsQuoted(u);
      if u != [] && u[0] == ':' {
        assert s[2] == ':';
      }
      QuotedBeforeConcat([',', '"', s[1]], QuoteAfterCommas(u), ':');
    } else if s != [] {
      var t := s[1..];
      assert QuotedBeforeInner(t, ':') by {
        forall i | 0 < i < |t| && t[i] == ':'
          ensures t[i - 1] == '"'
        {
          assert s[i + 1] == t[i] && s[i] == t[i - 1];
        }
      }
      CommasKeepColonsQuoted(t);
      if t != [] && t[0] == ':' {
        assert s[1] == ':';
      }
      QuotedBeforeConcat([s[0]], QuoteAfterCommas(t), ':');
    }
  }

  /**
   * After normalisation every `{` is immediately followed by `"` and every
   * `:` immediately preceded by `"`, whatever the input.
   */
  lemma NormalizeQuotesKeys(s: string)
    ensures QuotedAfter(Normalize(s), '{')
    ensures QuotedBefore(Normalize(s), ':')
  {
    var braces := QuoteAfterBraces(s);
    var colons := QuoteBeforeColons(braces);
    BracesQuoted(s);
    ColonsKeepBracesQuoted(braces);
    CommasKeepBracesQuoted(colons);
    ColonsQuoted(braces);
    CommasKeepColonsQuoted(colons);
    var r := Normalize(s);
    if r != [] {
      assert colons != [] && r[0] == colons[0];
    }
  }
}
