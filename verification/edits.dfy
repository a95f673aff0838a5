/**
 * The edit buffer: the preprocessor's edits are ranges of the original text
 * with replacement text, kept in document order. Rendering splices each into
 * the original without the caller tracking offset drift.
 */
module Edits {
  import opened Wrappers
  import opened Errors
  import opened Text

  /** Replace `[start, end)` of the original text by `text`; an insertion when `start == end`. */
  datatype Edit = Edit(start: nat, end: nat, text: string)

  /** Edits in document order, each within the text, none overlapping the next. */
  ghost predicate Ordered(edits: seq<Edit>, len: nat)
  {
    && (forall i :: 0 <= i < |edits| ==> edits[i].start <= edits[i].end <= len)
    && (forall i :: 0 <= i < |edits| - 1 ==> edits[i].end <= edits[i + 1].start)
  }

  function LastEnd(edits: seq<Edit>): nat
  {
    if edits == [] then 0 else edits[|edits| - 1].end
  }

  /**
   * `s.update(start, end, text)` after `edits`, for a text of length `len`:
   * refused for an empty range, a range past the end, or one that starts
   * inside what an earlier edit already replaced (the edited chunk would
   * have to be split).
   */
  function Update(edits: seq<Edit>, len: nat, start: nat, end: nat, text: string): (r: Result<seq<Edit>, Error>)
    ensures r.Ok? <==> LastEnd(edits) <= start < end <= len
    ensures r.Ok? ==> r.value == edits + [Edit(start, end, text)]
    ensures r.Err? ==> r == Err(EditRejected(start, end))
    ensures Ordered(edits, len) && r.Ok? ==> Ordered(r.value, len)
  {
    if LastEnd(edits) <= start < end <= len then Ok(edits + [Edit(start, end, text)])
    else Err(EditRejected(start, end))
  }

  /** Some edit replaced a range that strictly contains `pos`. */
  predicate SplitsEdited(edits: seq<Edit>, pos: nat)
  {
    exists i :: 0 <= i < |edits| && edits[i].start < pos < edits[i].end
  }

  /** The position of the first edit starting at or after `pos`. */
  function InsertIndex(edits: seq<Edit>, pos: nat, from: nat): (k: nat)
    requires from <= |edits|
    requires forall i :: 0 <= i < from ==> edits[i].start < pos
    ensures from <= k <= |edits|
    ensures forall i :: 0 <= i < k ==> edits[i].start < pos
    ensures k < |edits| ==> pos <= edits[k].start
    decreases |edits| - from
  {
    if from == |edits| || pos <= edits[from].start then from
    else InsertIndex(edits, pos, from + 1)
  }

  /** Each edit ends before every later one starts. */
  lemma {:induction false} OrderedChain(edits: seq<Edit>, len: nat, i: nat, j: nat)
    requires Ordered(edits, len) && i < j < |edits|
    ensures edits[i].end <= edits[j].start
    decreases j - i
  {
    if i + 1 < j {
      OrderedChain(edits, len, i + 1, j);
    }
  }

  /**
   * `s.appendLeft(pos, text)` after `edits`: the insertion goes after every
   * edit that ends at or before `pos` and before every edit that starts at or
   * after it; refused when `pos` lies strictly inside an edited range.
   */
  function AppendLeft(edits: seq<Edit>, len: nat, pos: nat, text: string): (r: Result<seq<Edit>, Error>)
    requires Ordered(edits, len) && pos <= len
    ensures r.Err? <==> SplitsEdited(edits, pos)
    ensures r.Ok? ==> Ordered(r.value, len)
    ensures r.Ok? ==> exists k :: 0 <= k <= |edits| && r.value == edits[..k] + [Edit(pos, pos, text)] + edits[k..]
  {
    if SplitsEdited(edits, pos) then Err(EditRejected(pos, pos))
    else
      var k := InsertIndex(edits, pos, 0);
      var r := edits[..k] + [Edit(pos, pos, text)] + edits[k..];
      assert k > 0 ==> edits[k - 1].end <= pos;
      assert Ordered(r, len) by {
        forall i | 0 <= i < |r| - 1
          ensures r[i].end <= r[i + 1].start
        {
          if i < k - 1 {
            assert r[i] == edits[i] && r[i + 1] == edits[i + 1];
          } else if i == k - 1 {
            assert r[i] == edits[k - 1] && r[i + 1] == Edit(pos, pos, text);
          } else if i == k {
            assert r[i + 1] == edits[k];
          } else {
            assert r[i] == edits[i - 1] && r[i + 1] == edits[i];
          }
        }
      }
      Ok(r)
  }

  /** Render the text from `pos` on: unedited stretches verbatim, edited ranges replaced. */
  function ApplyFrom(content: string, edits: seq<Edit>, pos: nat): string
    requires Ordered(edits, |content|) && pos <= |content|
    requires edits != [] ==> pos <= edits[0].start
    decreases |edits|
  {
    if edits == [] then content[pos..]
    else content[pos..edits[0].start] + edits[0].text + ApplyFrom(content, edits[1..], edits[0].end)
  }

  /** `s.toString()`: the original text with every edit applied. */
  function Apply(content: string, edits: seq<Edit>): (r: string)
    requires Ordered(edits, |content|)
    ensures |r| == |content| + Growth(edits)
  {
    ApplyFromLength(content, edits, 0);
    ApplyFrom(content, edits, 0)
  }

  /** How much longer the edits make the text: each adds its text and removes its range. */
  function Growth(edits: seq<Edit>): int
  {
    if edits == [] then 0 else |edits[0].text| - (edits[0].end - edits[0].start) + Growth(edits[1..])
  }

  /** Rendering from `pos` gives the rest of the text, lengthened by the edits' growth. */
  lemma {:induction false} ApplyFromLength(content: string, edits: seq<Edit>, pos: nat)
    requires Ordered(edits, |content|) && pos <= |content|
    requires edits != [] ==> pos <= edits[0].start
    ensures |ApplyFrom(content, edits, pos)| == |content| - pos + Growth(edits)
    decreases |edits|
  {
    if edits != [] {
      OrderedTail(edits, |content|);
      if |edits| > 1 {
        assert edits[0].end <= edits[1].start;
      }
      ApplyFromLength(content, edits[1..], edits[0].end);
    }
  }

  /** One edit applied on its own. */
  function Splice(content: string, e: Edit): (r: string)
    requires e.start <= e.end <= |content|
    ensures |r| == |content| - (e.end - e.start) + |e.text|
    ensures r[..e.start] == content[..e.start]
  {
    content[..e.start] + e.text + content[e.end..]
  }

  /** The reference semantics: splice the edits one at a time, last first, so earlier offsets stay valid. */
  function SpliceBackwards(content: string, edits: seq<Edit>): string
    requires Ordered(edits, |content|)
    decreases |edits|
  {
    if edits == [] then content
    else
      var last := edits[|edits| - 1];
      var spliced := Splice(content, last);
      assert Ordered(edits[..|edits| - 1], |spliced|) by {
        forall i | 0 <= i < |edits| - 1
          ensures edits[i].end <= last.start
        {
          OrderedChain(edits, |content|, i, |edits| - 1);
        }
      }
      SpliceBackwards(spliced, edits[..|edits| - 1])
  }

  /** Every edit's text survives rendering: it occurs in the output, after whatever precedes it. */
  lemma {:induction false} ApplyFromHoldsText(content: string, edits: seq<Edit>, pos: nat, k: nat)
    requires Ordered(edits, |content|) && pos <= |content|
    requires edits != [] ==> pos <= edits[0].start
    requires k < |edits|
    ensures exists m :: 0 <= m <= |ApplyFrom(content, edits, pos)| && OccursAt(ApplyFrom(content, edits, pos), edits[k].text, m)
    decreases k
  {
    var pre := content[pos..edits[0].start];
    var rest := ApplyFrom(content, edits[1..], edits[0].end);
    var o := ApplyFrom(content, edits, pos);
    assert o == pre + edits[0].text + rest;
    if k == 0 {
      assert o[|pre|..|pre| + |edits[0].text|] == edits[0].text;
      assert OccursAt(o, edits[0].text, |pre|);
    } else {
      OrderedTail(edits, |content|);
      ApplyFromHoldsText(content, edits[1..], edits[0].end, k - 1);
      var m :| 0 <= m <= |rest| && OccursAt(rest, edits[1..][k - 1].text, m);
      OccursAfter(pre + edits[0].text, rest, edits[k].text, m);
      assert OccursAt(o, edits[k].text, |pre + edits[0].text| + m);
    }
  }

  /** `Apply` keeps every edit's text. */
  lemma ApplyHoldsText(content: string, edits: seq<Edit>, k: nat)
    requires Ordered(edits, |content|) && k < |edits|
    ensures exists m :: 0 <= m <= |Apply(content, edits)| && OccursAt(Apply(content, edits), edits[k].text, m)
  {
    ApplyFromHoldsText(content, edits, 0, k);
    assert Apply(content, edits) == ApplyFrom(content, edits, 0);
  }

  /** Dropping the first edit keeps the rest ordered. */
  lemma OrderedTail(edits: seq<Edit>, len: nat)
    requires Ordered(edits, len) && edits != []
    ensures Ordered(edits[1..], len)
  {
    var t := edits[1..];
    assert forall i :: 0 <= i < |t| ==> t[i] == edits[i + 1];
  }

  /** The edits before the last one stay ordered once the last is spliced in. */
  lemma SnocOrdered(content: string, edits: seq<Edit>, e: Edit)
    requires Ordered(edits + [e], |content|)
    requires e.start <= e.end <= |content|
    ensures Ordered(edits, |Splice(content, e)|)
    ensures forall i :: 0 <= i < |edits| ==> edits[i].end <= e.start
  {
    var all := edits + [e];
    forall i | 0 <= i < |edits|
      ensures edits[i].start <= edits[i].end <= e.start
    {
      assert edits[i] == all[i];
      OrderedChain(all, |content|, i, |edits|);
    }
    forall i | 0 <= i < |edits| - 1
      ensures edits[i].end <= edits[i + 1].start
    {
      assert edits[i] == all[i] && edits[i + 1] == all[i + 1];
    }
  }

  lemma SpliceSuffix(content: string, e: Edit, pos: nat)
    requires pos <= e.start <= e.end <= |content|
    ensures Splice(content, e)[pos..] == content[pos..e.start] + e.text + content[e.end..]
  {
  }

  lemma SpliceInfix(content: string, e: Edit, pos: nat, upto: nat)
    requires pos <= upto <= e.start <= e.end <= |content|
    ensures Splice(content, e)[pos..upto] == content[pos..upto]
  {
    var s := Splice(content, e);
    assert s[..e.start] == content[..e.start];
    assert s[pos..upto] == s[..e.start][pos..upto];
  }

  lemma {:induction false} ApplyFromSnoc(content: string, edits: seq<Edit>, e: Edit, pos: nat)
    requires Ordered(edits + [e], |content|) && pos <= |content|
    requires e.start <= e.end <= |content|
    requires pos <= (edits + [e])[0].start
    ensures Ordered(edits, |Splice(content, e)|)
    ensures ApplyFrom(content, edits + [e], pos) == ApplyFrom(Splice(content, e), edits, pos)
    decreases |edits|
  {
    var all := edits + [e];
    var s := Splice(content, e);
    SnocOrdered(content, edits, e);
    if edits == [] {
      assert all == [e];
      SpliceSuffix(content, e, pos);
    } else {
      var f := edits[0];
      assert all[0] == f;
      assert all[1..] == edits[1..] + [e];
      OrderedTail(all, |content|);
      ApplyFromSnoc(content, edits[1..], e, f.end);
      SpliceInfix(content, e, pos, f.start);
    }
  }

  /** Applying the edits at once is splicing them one by one from the last: disjoint edits do not disturb each other. */
  lemma {:induction false} ApplyIsSpliceBackwards(content: string, edits: seq<Edit>)
    requires Ordered(edits, |content|)
    ensures Apply(content, edits) == SpliceBackwards(content, edits)
    decreases |edits|
  {
    if edits != [] {
      var init := edits[..|edits| - 1];
      var last := edits[|edits| - 1];
      assert edits == init + [last];
      ApplyFromSnoc(content, init, last, 0);
      ApplyIsSpliceBackwards(Splice(content, last), init);
    }
  }
}
