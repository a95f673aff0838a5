/**
 * The pure template functions that write the replacement markup:
 * `attributes_to_markdown`, `img_to_picture` and `dynamic_img_to_picture`,
 * and the text that replaces only a `src` value.
 */
module Fragments {
  import opened Wrappers
  import opened Text
  import opened Markup
  import AssetRegistry

  /** One attribute as written back: any attribute called `src` reads the descriptor's source, every other is copied verbatim. */
  function AttributeText(content: string, a: Attribute, v: string): string
  {
    if a.name == "src" then "src={" + v + ".img.src}" else Substring(content, a.start, a.end)
  }

  /** One entry per attribute, in order. */
  function AttributeTexts(content: string, attrs: seq<Attribute>, v: string): (r: seq<string>)
    ensures |r| == |attrs|
    ensures forall i :: 0 <= i < |attrs| ==> r[i] == AttributeText(content, attrs[i], v)
  {
    if attrs == [] then [] else [AttributeText(content, attrs[0], v)] + AttributeTexts(content, attrs[1..], v)
  }

  /**
   * Every attribute named `src` is rewritten to the image's `src` field, and
   * every other attribute is copied verbatim from the document.
   */
  lemma SrcAlwaysRewritten(content: string, attrs: seq<Attribute>, v: string, i: nat)
    requires i < |attrs|
    ensures attrs[i].name == "src" ==> MarkupEntries(content, attrs, v)[i] == "src={" + v + ".img.src}"
    ensures attrs[i].name != "src" ==> MarkupEntries(content, attrs, v)[i] == Substring(content, attrs[i].start, attrs[i].end)
  {
    assert MarkupEntries(content, attrs, v)[i] == AttributeTexts(content, attrs, v)[i];
  }

  /** Some attribute, of any kind, has this name. */
  predicate HasAttributeNamed(attrs: seq<Attribute>, name: string)
  {
    exists i :: 0 <= i < |attrs| && attrs[i].name == name
  }

  /** The layout attributes added when the element gives neither `width` nor `height`. */
  function SizeTexts(v: string): seq<string>
  {
    ["imgWidth={" + v + ".img.w}", "imgHeight={" + v + ".img.h}"]
  }

  /**
   * The entries `attributes_to_markdown` joins: one per attribute, followed
   * by `imgWidth` and `imgHeight` exactly when no attribute is called
   * `width` or `height`.
   */
  function MarkupEntries(content: string, attrs: seq<Attribute>, v: string): (r: seq<string>)
    ensures |r| >= |attrs| && r[..|attrs|] == AttributeTexts(content, attrs, v)
    ensures |r| > |attrs| <==> !HasAttributeNamed(attrs, "width") && !HasAttributeNamed(attrs, "height")
    ensures |r| > |attrs| ==> r[|attrs|..] == SizeTexts(v)
  {
    var texts := AttributeTexts(content, attrs, v);
    if !HasAttributeNamed(attrs, "width") && !HasAttributeNamed(attrs, "height") then
      assert (texts + SizeTexts(v))[..|attrs|] == texts;
      texts + SizeTexts(v)
    else texts
  }

  /** `attributes_to_markdown(content, attributes, v)`. */
  function AttributesToMarkup(content: string, attrs: seq<Attribute>, v: string): (r: string)
    ensures forall i :: 0 <= i < |MarkupEntries(content, attrs, v)| ==> Includes(r, MarkupEntries(content, attrs, v)[i])
  {
    JoinHoldsAll(MarkupEntries(content, attrs, v), " ");
    Join(MarkupEntries(content, attrs, v), " ")
  }

  /** The first attribute called `sizes`, of any kind. */
  function SizesIndex(attrs: seq<Attribute>): Option<nat>
  {
    FindFirst(attrs, (a: Attribute) => a.name == "sizes")
  }

  /** The `sizes` text moved to the `<source>` and the attributes left for the inner `<img>`. */
  datatype SizesSplit = SizesSplit(sizes: string, rest: seq<Attribute>)

  /** The `findIndex`/`splice` step of `img_to_picture`. */
  function SplitSizes(content: string, attrs: seq<Attribute>): (r: SizesSplit)
    ensures SizesIndex(attrs).None? ==> r == SizesSplit("", attrs)
    ensures SizesIndex(attrs).Some? ==>
              var i := SizesIndex(attrs).value;
              && i < |attrs|
              && r.sizes == Substring(content, attrs[i].start, attrs[i].end)
              && |r.rest| == |attrs| - 1
  {
    match SizesIndex(attrs)
    case None => SizesSplit("", attrs)
    case Some(i) => SizesSplit(Substring(content, attrs[i].start, attrs[i].end), attrs[..i] + attrs[i + 1..])
  }

  /**
   * Only the first `sizes` attribute leaves the list: putting it back at its
   * position restores the original list, and nothing before it was called
   * `sizes`.
   */
  lemma SplitSizesRemovesFirstOnly(content: string, attrs: seq<Attribute>)
    requires SizesIndex(attrs).Some?
    ensures var i := SizesIndex(attrs).value;
            var rest := SplitSizes(content, attrs).rest;
            && i <= |rest|
            && rest[..i] + [attrs[i]] + rest[i..] == attrs
            && attrs[i].name == "sizes"
            && forall j :: 0 <= j < i ==> rest[j].name != "sizes"
  {
    var i := SizesIndex(attrs).value;
    RemoveAtRestores(attrs, i);
  }

  /** Removing the element at `i` and putting it back restores the list; the elements before `i` stay where they were. */
  lemma RemoveAtRestores<T>(xs: seq<T>, i: nat)
    requires i < |xs|
    ensures var rest := xs[..i] + xs[i + 1..];
            && rest[..i] + [xs[i]] + rest[i..] == xs
            && forall j :: 0 <= j < i ==> rest[j] == xs[j]
  {
    var rest := xs[..i] + xs[i + 1..];
    assert rest[..i] == xs[..i];
    assert rest[i..] == xs[i + 1..];
    assert xs == xs[..i] + [xs[i]] + xs[i + 1..];
  }

  /** Removing `sizes` never changes whether `width` or `height` is present, so the same layout attributes are synthesised. */
  lemma SplitSizesKeepsLayout(content: string, attrs: seq<Attribute>)
    ensures var rest := SplitSizes(content, attrs).rest;
            && (HasAttributeNamed(rest, "width") <==> HasAttributeNamed(attrs, "width"))
            && (HasAttributeNamed(rest, "height") <==> HasAttributeNamed(attrs, "height"))
  {
    if SizesIndex(attrs).Some? {
      var i := SizesIndex(attrs).value;
      var rest := SplitSizes(content, attrs).rest;
      assert forall j :: 0 <= j < i ==> rest[j] == attrs[j];
      assert forall j :: i <= j < |rest| ==> rest[j] == attrs[j + 1];
      forall name | name == "width" || name == "height"
        ensures HasAttributeNamed(rest, name) <==> HasAttributeNamed(attrs, name)
      {
        if HasAttributeNamed(attrs, name) {
          var j :| 0 <= j < |attrs| && attrs[j].name == name;
          assert j != i;
          if j < i {
            assert rest[j].name == name;
          } else {
            assert rest[j - 1].name == name;
          }
        }
      }
    }
  }

  /** The fixed pieces of the `<picture>` template, in document order. */
  const PictureOpen := "<picture>\n\t{#each Object.entries("
  const EachOpen := ".sources) as [format, srcset]}\n\t\t"
  const SourceOpen := "<source {srcset}"
  const SourceClose := " type={'image/' + format} />"
  const EachClose := "\n\t{/each}\n\t"
  const ImgOpen := "<img "
  const ImgClose := " />"
  const PictureClose := "\n</picture>"

  /** The fixed pieces of the `{#if}` fragment around a dynamic source. */
  const IfOpen := "{#if typeof "
  const IfTest := " === 'string'}\n\t"
  const ElseOpen := "\n{:else}\n\t"
  const IfClose := "\n{/if}"

  /** `img_to_picture(content, node, v)`. */
  function ImgToPicture(content: string, attrs: seq<Attribute>, v: string): (r: string)
    ensures OccursAt(r, PictureOpen + v + EachOpen, 0)
  {
    var split := SplitSizes(content, attrs);
    var head := PictureOpen + v + EachOpen;
    var source := SourceOpen + split.sizes + SourceClose;
    var img := ImgOpen + AttributesToMarkup(content, split.rest, v) + ImgClose;
    Concat5(head, source, EachClose, img, PictureClose)
  }

  /**
   * The picture moves the `sizes` text onto the `<source>`, right after
   * `{srcset}`, and renders the inner `<img>` from the remaining attributes.
   */
  lemma PictureMovesSizes(content: string, attrs: seq<Attribute>, v: string)
    ensures var split := SplitSizes(content, attrs);
            var picture := ImgToPicture(content, attrs, v);
            && (exists k :: OccursAt(picture, SourceOpen + split.sizes + SourceClose, k))
            && (exists k :: OccursAt(picture, ImgOpen + AttributesToMarkup(content, split.rest, v) + ImgClose, k))
  {
    var split := SplitSizes(content, attrs);
    var head := PictureOpen + v + EachOpen;
    var source := SourceOpen + split.sizes + SourceClose;
    var img := ImgOpen + AttributesToMarkup(content, split.rest, v) + ImgClose;
    OccursInParts(head, source, EachClose, img, PictureClose);
    assert OccursAt(ImgToPicture(content, attrs, v), source, |head|);
    assert OccursAt(ImgToPicture(content, attrs, v), img, |head| + |source| + |EachClose|);
  }

  /** `dynamic_img_to_picture(content, node, v)`: a plain `<img>` for a string, the picture otherwise. */
  function DynamicImgToPicture(content: string, attrs: seq<Attribute>, v: string): (r: string)
    ensures OccursAt(r, IfOpen + v + IfTest, 0)
  {
    var head := IfOpen + v + IfTest;
    var img := ImgOpen + AttributesToMarkup(content, attrs, v) + ImgClose;
    Concat5(head, img, ElseOpen, ImgToPicture(content, attrs, v), IfClose)
  }

  /**
   * The dynamic fragment holds a plain `<img>` built from all the attributes,
   * `sizes` included, and the whole `<picture>` of the same element.
   */
  lemma DynamicHoldsBothBranches(content: string, attrs: seq<Attribute>, v: string)
    ensures var fragment := DynamicImgToPicture(content, attrs, v);
            && (exists k :: OccursAt(fragment, ImgOpen + AttributesToMarkup(content, attrs, v) + ImgClose, k))
            && (exists k :: OccursAt(fragment, ImgToPicture(content, attrs, v), k))
  {
    var head := IfOpen + v + IfTest;
    var img := ImgOpen + AttributesToMarkup(content, attrs, v) + ImgClose;
    OccursInParts(head, img, ElseOpen, ImgToPicture(content, attrs, v), IfClose);
    assert OccursAt(DynamicImgToPicture(content, attrs, v), img, |head|);
    assert OccursAt(DynamicImgToPicture(content, attrs, v), ImgToPicture(content, attrs, v), |head| + |img| + |ElseOpen|);
  }

  /**
   * The string branch of the dynamic fragment is written before `sizes` is
   * spliced out: its entries keep the `sizes` text at its position, while
   * the picture's inner `<img>` has exactly that entry removed and the
   * `<source>` carries it.
   */
  lemma DynamicBranchesSplitSizes(content: string, attrs: seq<Attribute>, v: string)
    requires SizesIndex(attrs).Some?
    ensures var i := SizesIndex(attrs).value;
            var outer := MarkupEntries(content, attrs, v);
            var split := SplitSizes(content, attrs);
            && i < |attrs|
            && outer[i] == split.sizes
            && MarkupEntries(content, split.rest, v) == outer[..i] + outer[i + 1..]
  {
    var i := SizesIndex(attrs).value;
    var outer := MarkupEntries(content, attrs, v);
    var split := SplitSizes(content, attrs);
    var rest := split.rest;
    SplitSizesKeepsLayout(content, attrs);
    var inner := MarkupEntries(content, rest, v);
    assert outer[i] == AttributeText(content, attrs[i], v);
    assert |inner| == |outer| - 1;
    forall j | 0 <= j < |inner|
      ensures inner[j] == (outer[..i] + outer[i + 1..])[j]
    {
      if j < |rest| {
        if j < i {
          assert rest[j] == attrs[j];
        } else {
          assert rest[j] == attrs[j + 1];
        }
      } else {
        assert inner[j] == SizeTexts(v)[j - |rest|];
        assert outer[j + 1] == SizeTexts(v)[j + 1 - |attrs|];
      }
    }
  }

  /** What replaces a non-optimizable `src` value: the registered identifier in braces. */
  function SrcOnlyText(name: string): (r: string)
    ensures |r| == |name| + 2 && r[0] == '{' && r[|r| - 1] == '}'
    ensures r[1..|r| - 1] == name
  {
    "{" + name + "}"
  }

  /**
   * The replacement the template literal on that line produces as written:
   * it interpolates the whole registry entry, an object whose string
   * conversion is `[object Object]`, not its `name`.
   */
  function SrcOnlyTextAsWritten<D>(e: AssetRegistry.Entry<D>): (r: string)
    ensures |r| >= 2 && r[0] == '{' && r[|r| - 1] == '}'
    ensures '_' !in r
  {
    "{" + "[object Object]" + "}"
  }

  /**
   * As written, every entry yields the same text, and for no registered
   * identifier is it the braced identifier the code's comment expects.
   */
  lemma SrcOnlyTextAsWrittenLosesName<D>(e1: AssetRegistry.Entry<D>, e2: AssetRegistry.Entry<D>, n: nat)
    requires e1.name == AssetRegistry.AssetName(n)
    ensures SrcOnlyTextAsWritten(e1) == SrcOnlyTextAsWritten(e2)
    ensures SrcOnlyTextAsWritten(e1) != SrcOnlyText(e1.name)
  {
    var written := SrcOnlyTextAsWritten(e1);
    var intended := SrcOnlyText(e1.name);
    assert written[1] == '[';
    assert e1.name[..|AssetRegistry.AssetPrefix|] == AssetRegistry.AssetPrefix;
    assert e1.name[0] == AssetRegistry.AssetPrefix[0] == '_';
    assert intended[1] == '_';
  }
}
