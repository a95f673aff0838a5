/**
 * The `markup` hook of the `enhanced:img` preprocessor: the walk over the
 * template that rewrites every `<enhanced:img>` element, the registry it
 * threads from file to file, and the hoisting of the resolved descriptors.
 */
module Preprocessor {
  import opened Wrappers
  import opened Text
  import opened Errors
  import opened Markup
  import opened CacheKey
  import opened Resolver
  import opened AssetRegistry
  import opened Edits
  import opened Fragments
  import opened TemplateWalk

  /**
   * Everything the hook reaches outside this code: the bundler and the
   * image plugin, the truthiness of a descriptor, `JSON.stringify`,
   * `encodeURIComponent`, and the text that replaces a non-optimizable
   * `src` value given the registered entry. The code as written makes that
   * text `SrcOnlyTextAsWritten`; its comment intends `SrcOnlyText` of the
   * entry's name. `AsWritten` and `Corrected` pick one or the other.
   */
  datatype Env<!D> = Env(
    pipeline: Pipeline<D>,
    truthy: D -> bool,
    stringify: D -> string,
    encode: string -> string,
    srcText: Entry<D> -> string)

  /** The environment with the `src`-only replacement of the code as written. */
  ghost predicate AsWritten<D(!new)>(env: Env<D>)
  {
    forall e :: env.srcText(e) == SrcOnlyTextAsWritten(e)
  }

  /** The environment with the `src`-only replacement the code's comment describes. */
  ghost predicate Corrected<D(!new)>(env: Env<D>)
  {
    forall e: Entry<D> :: env.srcText(e) == SrcOnlyText(e.name)
  }

  /**
   * One call of the hook: the registry it leaves behind for later files, and
   * its outcome: no output (the file is left alone), the new text, or the
   * error it throws.
   */
  datatype Run<D> = Run(registry: Registry<D>, output: Result<Option<string>, Error>)

  const TargetTag: string := "enhanced:img"

  /** The text whose absence lets a file through untouched. */
  const FastPathMarker: string := "<enhanced:img"

  /** An element the walk rewrites. */
  predicate IsTarget(node: Node)
  {
    node.kind == "Element" && node.name == TargetTag
  }

  /** The variable of a dynamic `src={v}`: the text between the braces, trimmed. */
  function SrcVariable(content: string, src: Token): (v: string)
    ensures src.start + 2 <= src.end <= |content| ==> IsTrimOf(content[src.start + 1..src.end - 1], v)
    ensures v == [] || (!IsJsSpace(v[0]) && !IsJsSpace(v[|v| - 1]))
  {
    var inner := Substring(content, src.start + 1, src.end as int - 1);
    assert src.start + 2 <= src.end <= |content| ==> inner == content[src.start + 1..src.end - 1];
    Trim(inner)
  }

  /** A `sizes` or `width` hint as the key receives it. */
  function HintValue(t: Option<Token>): Option<string>
  {
    match t
    case None => None
    case Some(tok) => Some(HintText(tok))
  }

  /** The `src` token the walk hands to `update_element`, for a target element that has one. */
  function TargetSrc(node: Node): Option<Token>
  {
    if IsTarget(node) then GetAttrValue(node, "src") else None
  }

  /** The registry key for an element whose literal `src` is `raw`. */
  function ImageKey(node: Node, raw: string, encode: string -> string): (key: string)
    ensures |key| > |Trim(raw)| && key[..|Trim(raw)|] == Trim(raw)
  {
    var path := Trim(raw);
    var sizes := HintValue(GetAttrValue(node, "sizes"));
    var width := HintValue(GetAttrValue(node, "width"));
    var key := BuildKey(path, sizes, width, encode);
    key
  }

  /** The key of a node the walk would look up: a target element with a literal `src`. */
  function ImageKeyOf(node: Node, encode: string -> string): Option<string>
  {
    match TargetSrc(node)
    case Some(Token(TextToken(raw), _, _)) => Some(ImageKey(node, raw, encode))
    case _ => None
  }

  /** A key whose resolution yields a descriptor worth registering. */
  predicate Obtainable<D>(env: Env<D>, importer: Option<string>, key: string)
  {
    match Resolve(env.pipeline, key, importer)
    case Ok(Some(d)) => env.truthy(d)
    case _ => false
  }

  /**
   * The rewrite for the registered entry `details`: the whole element
   * becomes a `<picture>` named after it when the key names an optimizable
   * format; otherwise only the `src` value is replaced, by `srcText(details)`.
   */
  function Rewrite<D>(content: string, edits: seq<Edit>, node: Node, src: Token, details: Entry<D>, key: string,
                      srcText: Entry<D> -> string): (r: Result<seq<Edit>, Error>)
    ensures r.Ok? ==> exists e :: r.value == edits + [e]
    ensures r.Ok? && Optimizable(key) ==>
              r.value == edits + [Edit(node.start, node.end, ImgToPicture(content, node.attributes, details.name))]
    ensures r.Ok? && !Optimizable(key) ==> r.value == edits + [Edit(src.start, src.end, srcText(details))]
    ensures Ordered(edits, |content|) && r.Ok? ==> Ordered(r.value, |content|)
  {
    if Optimizable(key) then Update(edits, |content|, node.start, node.end, ImgToPicture(content, node.attributes, details.name))
    else Update(edits, |content|, src.start, src.end, srcText(details))
  }

  /** A registered image: the registry that holds it and its entry, `details`. */
  datatype Found<D> = Found(registry: Registry<D>, details: Entry<D>)

  /**
   * `images.get(url)`, and on a miss `resolve` followed by `images.set`:
   * nothing when the key does not resolve to a truthy descriptor, the error
   * `resolve` throws, or the entry for the key with the registry holding it.
   */
  function FindOrRegister<D>(env: Env<D>, importer: Option<string>, reg: Registry<D>, key: string): (r: Result<Option<Found<D>>, Error>)
    ensures key in Keys(reg) ==> r.Ok? && r.value.Some? && r.value.value.registry == reg
    ensures key !in Keys(reg) ==> (r == Ok(None) <==> !Obtainable(env, importer, key) && Resolve(env.pipeline, key, importer).Ok?)
    ensures key !in Keys(reg) ==> (r.Err? <==> Resolve(env.pipeline, key, importer).Err?)
    ensures key !in Keys(reg) && r.Err? ==> r.error == Resolve(env.pipeline, key, importer).error
    ensures r.Ok? && r.value.Some? ==>
              var f := r.value.value;
              && |reg| <= |f.registry| <= |reg| + 1 && f.registry[..|reg|] == reg
              && (Valid(reg) ==> Valid(f.registry))
              && f.details.key == key
              && exists i :: 0 <= i < |f.registry| && f.registry[i] == f.details
    ensures r.Ok? && r.value.Some? && key !in Keys(reg) ==>
              r.value.value.registry == reg + [Entry(key, AssetName(|reg|), Resolve(env.pipeline, key, importer).value.value)]
  {
    match Lookup(reg, key)
    case Some(i) => Ok(Some(Found(reg, reg[i])))
    case None =>
      match Resolve(env.pipeline, key, importer)
      case Err(e) => Err(e)
      case Ok(None) => Ok(None)
      case Ok(Some(image)) =>
        if !env.truthy(image) then Ok(None)
        else
          var next := Register(reg, key, image);
          assert next[|reg|].key == key by { assert Keys(next)[|reg|] == key; }
          assert next == reg + [Entry(key, AssetName(|reg|), image)];
          Ok(Some(Found(next, next[|reg|])))
  }

  /** The rewrite for `src={v}`: the whole element becomes the fragment that picks `<img>` or `<picture>` at run time. */
  function DynamicRewrite(content: string, edits: seq<Edit>, node: Node, src: Token): (r: Result<seq<Edit>, Error>)
    ensures r.Ok? ==> r.value == edits + [Edit(node.start, node.end, DynamicImgToPicture(content, node.attributes, SrcVariable(content, src)))]
    ensures Ordered(edits, |content|) && r.Ok? ==> Ordered(r.value, |content|)
  {
    Update(edits, |content|, node.start, node.end, DynamicImgToPicture(content, node.attributes, SrcVariable(content, src)))
  }

  /** The dynamic-`src` half of `update_element`: the registry is passed through untouched. */
  function DynamicStep<D>(content: string, reg: Registry<D>, edits: seq<Edit>, node: Node, src: Token): (r: Step<D>)
    ensures r.registry == reg && Advances(reg, edits, |content|, r)
  {
    var rewrite := DynamicRewrite(content, edits, node, src);
    assert reg[..|reg|] == reg;
    Step(reg, rewrite)
  }

  /** The literal-`src` half of `update_element`, for the key built from the element. */
  function LiteralRewrite<D>(env: Env<D>, content: string, importer: Option<string>, reg: Registry<D>,
                             edits: seq<Edit>, node: Node, src: Token, key: string): (r: Step<D>)
    ensures |reg| <= |r.registry| <= |reg| + 1 && r.registry[..|reg|] == reg
    ensures r.registry != reg ==> key !in Keys(reg) && Obtainable(env, importer, key)
    ensures Keys(r.registry) == Keys(reg) || Keys(r.registry) == Keys(reg) + [key]
    ensures Advances(reg, edits, |content|, r)
  {
    match FindOrRegister(env, importer, reg, key)
    case Err(e) => Step(reg, Err(e))
    case Ok(None) => Step(reg, Ok(edits))
    case Ok(Some(found)) => Step(found.registry, Rewrite(content, edits, node, src, found.details, key, env.srcText))
  }

  /** `update_element(node, src_attribute)`. */
  function UpdateElement<D>(env: Env<D>, content: string, importer: Option<string>, reg: Registry<D>,
                            edits: seq<Edit>, node: Node, src: Token): (r: Step<D>)
    ensures Advances(reg, edits, |content|, r)
  {
    match src.kind
    case MustacheTag => DynamicStep(content, reg, edits, node, src)
    case AttributeShorthand => Step(reg, Err(SrcNotText))
    case TextToken(raw) => LiteralRewrite(env, content, importer, reg, edits, node, src, ImageKey(node, raw, env.encode))
  }

  /** `enter(node)`: a target element with a `src` is handed to `update_element`; every other node is passed over. */
  function EnterNode<D>(env: Env<D>, content: string, importer: Option<string>, reg: Registry<D>,
                        edits: seq<Edit>, node: Node): (r: Step<D>)
    ensures Advances(reg, edits, |content|, r)
    ensures TargetSrc(node).None? ==> r == Step(reg, Ok(edits))
  {
    match TargetSrc(node)
    case None => Step(reg, Ok(edits))
    case Some(src) => UpdateElement(env, content, importer, reg, edits, node, src)
  }

  /** The visitor the hook gives the walker for one file. */
  function Enter<D(!new)>(env: Env<D>, content: string, importer: Option<string>): (enter: Visitor<D>)
    ensures Extends(enter) && KeepsOrder(enter, |content|)
  {
    var enter := (reg: Registry<D>, edits: seq<Edit>, node: Node) => EnterNode(env, content, importer, reg, edits, node);
    assert Extends(enter) && KeepsOrder(enter, |content|) by {
      forall reg: Registry<D>, edits: seq<Edit>, node: Node
        ensures && |enter(reg, edits, node).registry| >= |reg|
                && enter(reg, edits, node).registry[..|reg|] == reg
                && (Valid(reg) ==> Valid(enter(reg, edits, node).registry))
                && (Ordered(edits, |content|) && enter(reg, edits, node).edits.Ok? ==>
                      Ordered(enter(reg, edits, node).edits.value, |content|))
      {
        assert enter(reg, edits, node) == EnterNode(env, content, importer, reg, edits, node);
      }
    }
    enter
  }

  /** The component may not place its instance script past the end of its text. */
  predicate WellPlaced(doc: Document, content: string)
  {
    doc.instance.Some? ==> doc.instance.value <= |content|
  }

  /**
   * The text the hook returns once the walk is done with `edits` and the
   * registry holds `count` entries whose declarations read `hoisted`. It
   * fails only when the instance script starts strictly inside an
   * overwritten range, and whenever anything is registered the
   * declarations occur in the output.
   */
  function Hoist(content: string, instance: Option<nat>, edits: seq<Edit>, hoisted: string, count: nat): (r: Result<Option<string>, Error>)
    requires Ordered(edits, |content|) && (instance.Some? ==> instance.value <= |content|)
    ensures count == 0 ==> r == Ok(Some(Apply(content, edits)))
    ensures r.Err? <==> count > 0 && instance.Some? && SplitsEdited(edits, instance.value)
    ensures r.Ok? ==> r.value.Some?
    ensures r.Ok? && count > 0 ==> exists m :: 0 <= m <= |r.value.value| && OccursAt(r.value.value, hoisted, m)
  {
    if count == 0 then Ok(Some(Apply(content, edits)))
    else match instance
      case Some(p) =>
        (match AppendLeft(edits, |content|, p, hoisted)
         case Err(e) => Err(e)
         case Ok(withConsts) =>
           InsertionKept(content, edits, withConsts, Edit(p, p, hoisted));
           Ok(Some(Apply(content, withConsts))))
      case None =>
        ScriptKeepsBody(Apply(content, edits), hoisted);
        Ok(Some(Apply(content, edits) + "<script>" + hoisted + "</script>"))
  }

  /** An edit placed among ordered edits keeps its text in the rendered output. */
  lemma InsertionKept(content: string, edits: seq<Edit>, withIt: seq<Edit>, e: Edit)
    requires Ordered(withIt, |content|)
    requires exists k :: 0 <= k <= |edits| && withIt == edits[..k] + [e] + edits[k..]
    ensures exists m :: 0 <= m <= |Apply(content, withIt)| && OccursAt(Apply(content, withIt), e.text, m)
  {
    var k :| 0 <= k <= |edits| && withIt == edits[..k] + [e] + edits[k..];
    assert withIt[k] == e;
    ApplyHoldsText(content, withIt, k);
  }

  /** A script appended at the end holds its body. */
  lemma ScriptKeepsBody(body: string, hoisted: string)
    ensures var o := body + "<script>" + hoisted + "</script>";
            exists m :: 0 <= m <= |o| && OccursAt(o, hoisted, m)
  {
    var o := body + "<script>" + hoisted + "</script>";
    assert o[|body + "<script>"|..|body + "<script>"| + |hoisted|] == hoisted;
    assert OccursAt(o, hoisted, |body + "<script>"|);
  }

  /**
   * `markup({ content, filename })` with the registry left by earlier calls:
   * files without `<enhanced:img` are passed over; otherwise the walk runs
   * and, when the registry holds anything, every declaration is hoisted,
   * into the instance script when there is one and into a new script at the
   * end otherwise.
   */
  function ProcessMarkup<D(!new)>(env: Env<D>, reg: Registry<D>, doc: Document, content: string, importer: Option<string>): (r: Run<D>)
    requires WellPlaced(doc, content)
    ensures |r.registry| >= |reg| && r.registry[..|reg|] == reg
    ensures Valid(reg) ==> Valid(r.registry)
    ensures r.registry == Walk(Enter(env, content, importer), reg, [], doc.nodes).registry || r.registry == reg
  {
    if !Includes(content, FastPathMarker) then Run(reg, Ok(None))
    else
      var enter := Enter(env, content, importer);
      var step := Walk(enter, reg, [], doc.nodes);
      WalkKeepsOrder(enter, |content|, reg, [], doc.nodes);
      match step.edits
      case Err(e) => Run(step.registry, Err(e))
      case Ok(edits) => Run(step.registry, Hoist(content, doc.instance, edits, HoistText(step.registry, env.stringify), |step.registry|))
  }

  /** A run over several components in turn, each seeing the registry the previous one left. */
  datatype SourceFile = SourceFile(doc: Document, content: string, importer: Option<string>)

  /** The hook called on each file in order, for one `image(opts)` instance. */
  function ProcessFiles<D(!new)>(env: Env<D>, reg: Registry<D>, files: seq<SourceFile>): (r: Registry<D>)
    requires forall i :: 0 <= i < |files| ==> WellPlaced(files[i].doc, files[i].content)
    ensures |r| >= |reg| && r[..|reg|] == reg
    ensures Valid(reg) ==> Valid(r)
    decreases |files|
  {
    if files == [] then reg
    else
      var f := files[0];
      var next := ProcessMarkup(env, reg, f.doc, f.content, f.importer).registry;
      var r := ProcessFiles(env, next, files[1..]);
      assert r[..|reg|] == r[..|next|][..|reg|];
      r
  }

  // Properties of one element.

  /** A key already registered, in this file or an earlier one, is rewritten without calling `resolve` again. */
  lemma CachedKeyNeedsNoResolve<D>(env1: Env<D>, env2: Env<D>, content: string, importer1: Option<string>,
                                   importer2: Option<string>, reg: Registry<D>, edits: seq<Edit>, node: Node, src: Token)
    requires env1.encode == env2.encode && env1.srcText == env2.srcText
    requires src.kind.TextToken? && ImageKey(node, src.kind.raw, env1.encode) in Keys(reg)
    ensures UpdateElement(env1, content, importer1, reg, edits, node, src)
         == UpdateElement(env2, content, importer2, reg, edits, node, src)
    ensures UpdateElement(env1, content, importer1, reg, edits, node, src).registry == reg
  {
    var key := ImageKey(node, src.kind.raw, env1.encode);
    assert UpdateElement(env1, content, importer1, reg, edits, node, src)
        == LiteralRewrite(env1, content, importer1, reg, edits, node, src, key);
    assert UpdateElement(env2, content, importer2, reg, edits, node, src)
        == LiteralRewrite(env2, content, importer2, reg, edits, node, src, key);
    assert FindOrRegister(env1, importer1, reg, key) == FindOrRegister(env2, importer2, reg, key);
  }

  /**
   * A key not yet registered is resolved: an error from `resolve` stops the
   * element with the registry as it was, a missing or falsy descriptor
   * leaves both registry and edits alone, and a descriptor is registered
   * under the next identifier.
   */
  lemma UncachedKeyOutcomes<D>(env: Env<D>, content: string, importer: Option<string>, reg: Registry<D>,
                               edits: seq<Edit>, node: Node, src: Token)
    requires src.kind.TextToken? && ImageKey(node, src.kind.raw, env.encode) !in Keys(reg)
    ensures var key := ImageKey(node, src.kind.raw, env.encode);
            var step := UpdateElement(env, content, importer, reg, edits, node, src);
            && (Resolve(env.pipeline, key, importer).Err? ==>
                  step == Step(reg, Err(Resolve(env.pipeline, key, importer).error)))
            && (Resolve(env.pipeline, key, importer).Ok? && !Obtainable(env, importer, key) ==>
                  step == Step(reg, Ok(edits)))
            && (Obtainable(env, importer, key) ==>
                  step.registry == reg + [Entry(key, AssetName(|reg|), Resolve(env.pipeline, key, importer).value.value)])
  {
    var key := ImageKey(node, src.kind.raw, env.encode);
    assert UpdateElement(env, content, importer, reg, edits, node, src)
        == LiteralRewrite(env, content, importer, reg, edits, node, src, key);
  }

  /**
   * A non-optimizable key replaces only the `src` value. As written, the
   * replacement is `{[object Object]}` whatever the entry; corrected, it is
   * the entry's identifier in braces.
   */
  lemma SrcOnlyRewriteTexts<D(!new)>(env: Env<D>, content: string, edits: seq<Edit>, node: Node, src: Token,
                               details: Entry<D>, key: string)
    requires !Optimizable(key)
    ensures var r := Rewrite(content, edits, node, src, details, key, env.srcText);
            && (AsWritten(env) && r.Ok? ==> r.value == edits + [Edit(src.start, src.end, "{[object Object]}")])
            && (Corrected(env) && r.Ok? ==> r.value == edits + [Edit(src.start, src.end, "{" + details.name + "}")])
  {
    if AsWritten(env) {
      assert env.srcText(details) == SrcOnlyTextAsWritten(details) == "{[object Object]}";
    }
    if Corrected(env) {
      assert env.srcText(details) == SrcOnlyText(details.name);
    }
  }

  /**
   * A non-optimizable key already registered at position `i` keeps the
   * registry and writes the replacement text of entry `i` over the `src`
   * value; corrected, that text is `{___ASSET___<i>}`.
   */
  lemma RegisteredSrcOnlyText<D(!new)>(env: Env<D>, content: string, importer: Option<string>, reg: Registry<D>,
                                 edits: seq<Edit>, node: Node, src: Token, key: string, i: nat)
    requires Valid(reg) && i < |reg| && reg[i].key == key && !Optimizable(key)
    ensures var step := LiteralRewrite(env, content, importer, reg, edits, node, src, key);
            && step.registry == reg
            && (step.edits.Ok? ==> step.edits.value == edits + [Edit(src.start, src.end, env.srcText(reg[i]))])
            && (Corrected(env) && step.edits.Ok? ==>
                  step.edits.value == edits + [Edit(src.start, src.end, "{" + AssetName(i) + "}")])
  {
    var j := Lookup(reg, key);
    assert Keys(reg)[i] == key;
    assert j.Some? && reg[j.value].key == key;
    assert j.value == i;
  }

  /** A dynamic `src` neither reads nor extends the registry: the rewrite depends only on the text and the element. */
  lemma DynamicSrcIgnoresRegistry<D>(env1: Env<D>, env2: Env<D>, content: string, importer1: Option<string>,
                                     importer2: Option<string>, reg1: Registry<D>, reg2: Registry<D>,
                                     edits: seq<Edit>, node: Node, src: Token)
    requires src.kind.MustacheTag?
    ensures UpdateElement(env1, content, importer1, reg1, edits, node, src).registry == reg1
    ensures UpdateElement(env1, content, importer1, reg1, edits, node, src).edits
         == UpdateElement(env2, content, importer2, reg2, edits, node, src).edits
  {
  }

  /**
   * The `sizes` and `width` hints only extend the query, so whether the
   * element becomes a `<picture>` depends on the trimmed `src` alone, as
   * long as the encoder never emits a line terminator.
   */
  lemma RewriteKindFollowsSrc(node: Node, raw: string, encode: string -> string)
    requires forall v :: NoLineTerminator(encode(v))
    ensures Optimizable(ImageKey(node, raw, encode)) <==> Optimizable(Trim(raw))
  {
    OptimizableIgnoresHints(Trim(raw), HintValue(GetAttrValue(node, "sizes")), HintValue(GetAttrValue(node, "width")), encode);
  }

  /**
   * The `sizes` value, as `get_attr_value` finds it, follows the separator
   * in the key as `imgSizes=<encoded raw text>&`; a value that is not text
   * has no raw text and is encoded as `undefined`.
   */
  lemma KeyCarriesSizes(node: Node, raw: string, encode: string -> string, sizes: Token)
    requires GetAttrValue(node, "sizes") == Some(sizes)
    ensures var t := Trim(raw);
            var key := ImageKey(node, raw, encode);
            var hint := Hint("imgSizes", Some(HintText(sizes)), encode);
            |t| + 1 + |hint| <= |key| && key[|t| + 1..|t| + 1 + |hint|] == hint
  {
    var width := HintValue(GetAttrValue(node, "width"));
    KeySizesHint(Trim(raw), HintText(sizes), width, encode, ImageKey(node, raw, encode));
  }

  /** The `width` value follows in the same way, as `imgWidth=<encoded raw text>&`, right before the marker. */
  lemma KeyCarriesWidth(node: Node, raw: string, encode: string -> string, width: Token)
    requires GetAttrValue(node, "width") == Some(width)
    ensures var key := ImageKey(node, raw, encode);
            var hint := Hint("imgWidth", Some(HintText(width)), encode);
            |hint| + |Marker| <= |key| && key[|key| - |Marker| - |hint|..|key| - |Marker|] == hint
  {
    var sizes := HintValue(GetAttrValue(node, "sizes"));
    KeyWidthHint(Trim(raw), sizes, HintText(width), encode, ImageKey(node, raw, encode));
  }

  /** Without either attribute the key is the trimmed `src`, the separator and the marker. */
  lemma KeyWithoutHints(node: Node, raw: string, encode: string -> string)
    requires GetAttrValue(node, "sizes").None? && GetAttrValue(node, "width").None?
    ensures ImageKey(node, raw, encode) == Trim(raw) + [Separator(Trim(raw))] + Marker
  {
    KeyNoHints(Trim(raw), encode);
  }

  /**
   * Two elements with the same trimmed `src` share a key exactly when their
   * `sizes` and `width` hints agree, so differing hints mean separate
   * resolutions and separate declarations.
   */
  lemma SameSrcSharesKeyIffSameHints(node1: Node, raw1: string, node2: Node, raw2: string, encode: string -> string)
    requires forall a, b :: encode(a) == encode(b) ==> a == b
    requires forall v :: '&' !in encode(v)
    requires Trim(raw1) == Trim(raw2)
    ensures ImageKey(node1, raw1, encode) == ImageKey(node2, raw2, encode)
        <==> && HintValue(GetAttrValue(node1, "sizes")) == HintValue(GetAttrValue(node2, "sizes"))
             && HintValue(GetAttrValue(node1, "width")) == HintValue(GetAttrValue(node2, "width"))
  {
    HintsDistinguishKeys(Trim(raw1), HintValue(GetAttrValue(node1, "sizes")), HintValue(GetAttrValue(node1, "width")),
                         HintValue(GetAttrValue(node2, "sizes")), HintValue(GetAttrValue(node2, "width")), encode);
  }

  // Properties of the walk.

  /** One element registers its key when that key resolves to a truthy descriptor and the rewrite succeeds. */
  lemma ElementRegistersImage<D>(env: Env<D>, content: string, importer: Option<string>, reg: Registry<D>,
                                 edits: seq<Edit>, node: Node, src: Token)
    requires TargetSrc(node) == Some(src) && ImageKeyOf(node, env.encode).Some?
    requires Obtainable(env, importer, ImageKeyOf(node, env.encode).value)
    requires UpdateElement(env, content, importer, reg, edits, node, src).edits.Ok?
    ensures ImageKeyOf(node, env.encode).value in Keys(UpdateElement(env, content, importer, reg, edits, node, src).registry)
  {
    var key := ImageKeyOf(node, env.encode).value;
    var step := UpdateElement(env, content, importer, reg, edits, node, src);
    var found := FindOrRegister(env, importer, reg, key);
    assert found.Ok? && found.value.Some?;
    var j :| 0 <= j < |step.registry| && step.registry[j].key == key;
    assert Keys(step.registry)[j] == key;
  }

  /** The only key one element can add is its own, and only when it resolves to a truthy descriptor. */
  lemma ElementAddsOnlyItsImage<D>(env: Env<D>, content: string, importer: Option<string>, reg: Registry<D>,
                                   edits: seq<Edit>, node: Node, src: Token, key: string)
    requires TargetSrc(node) == Some(src)
    requires key in Keys(UpdateElement(env, content, importer, reg, edits, node, src).registry) && key !in Keys(reg)
    ensures ImageKeyOf(node, env.encode) == Some(key) && Obtainable(env, importer, key)
  {
    var step := UpdateElement(env, content, importer, reg, edits, node, src);
    assert step.registry != reg;
    var k := ImageKey(node, src.kind.raw, env.encode);
    assert step == LiteralRewrite(env, content, importer, reg, edits, node, src, k);
    KeyAddedIsOwnKey(Keys(reg), Keys(step.registry), k, key);
    assert ImageKeyOf(node, env.encode) == Some(k);
  }

  /** A key list grown by one key gains only that key. */
  lemma KeyAddedIsOwnKey(before: seq<string>, after: seq<string>, k: string, key: string)
    requires after == before || after == before + [k]
    requires key in after && key !in before
    ensures key == k
  {
  }

  /** The key a node contributes: that of a target element with a literal `src` that resolves to a truthy descriptor. */
  function Wanted<D>(env: Env<D>, importer: Option<string>): Node -> Option<string>
  {
    node => match ImageKeyOf(node, env.encode)
      case Some(key) => if Obtainable(env, importer, key) then Some(key) else None
      case None => None
  }

  /** The hook's visitor registers exactly the keys `Wanted` names. */
  lemma EnterRegistersWanted<D(!new)>(env: Env<D>, content: string, importer: Option<string>)
    ensures Registers(Enter(env, content, importer), Wanted(env, importer))
    ensures AddsOnly(Enter(env, content, importer), Wanted(env, importer))
  {
    var enter := Enter(env, content, importer);
    var want := Wanted(env, importer);
    forall reg: Registry<D>, edits: seq<Edit>, node: Node
      ensures enter(reg, edits, node).edits.Ok? && want(node).Some? ==> want(node).value in Keys(enter(reg, edits, node).registry)
    {
      if enter(reg, edits, node).edits.Ok? && want(node).Some? {
        ElementRegistersImage(env, content, importer, reg, edits, node, TargetSrc(node).value);
      }
    }
    forall reg: Registry<D>, edits: seq<Edit>, node: Node, key: string
      ensures key in Keys(enter(reg, edits, node).registry) && key !in Keys(reg) ==> want(node) == Some(key)
    {
      if key in Keys(enter(reg, edits, node).registry) && key !in Keys(reg) {
        assert TargetSrc(node).Some?;
        ElementAddsOnlyItsImage(env, content, importer, reg, edits, node, TargetSrc(node).value, key);
      }
    }
  }

  /**
   * A walk that completes has registered the key of every target element
   * with a literal `src` that resolves to a truthy descriptor.
   */
  lemma WalkRegistersEveryImage<D(!new)>(env: Env<D>, content: string, importer: Option<string>,
                                         reg: Registry<D>, edits: seq<Edit>, nodes: seq<Node>, i: nat)
    requires Walk(Enter(env, content, importer), reg, edits, nodes).edits.Ok?
    requires i < |nodes| && ImageKeyOf(nodes[i], env.encode).Some?
    requires Obtainable(env, importer, ImageKeyOf(nodes[i], env.encode).value)
    ensures ImageKeyOf(nodes[i], env.encode).value in Keys(Walk(Enter(env, content, importer), reg, edits, nodes).registry)
  {
    EnterRegistersWanted(env, content, importer);
    assert Wanted(env, importer)(nodes[i]) == ImageKeyOf(nodes[i], env.encode);
    WalkRegisters(Enter(env, content, importer), Wanted(env, importer), reg, edits, nodes, i);
  }

  /**
   * Every key the walk adds, whether or not it completes, is the key of some
   * target element with a literal `src` that resolves to a truthy descriptor.
   */
  lemma WalkRegistersOnlyImages<D(!new)>(env: Env<D>, content: string, importer: Option<string>,
                                         reg: Registry<D>, edits: seq<Edit>, nodes: seq<Node>, key: string)
    requires key in Keys(Walk(Enter(env, content, importer), reg, edits, nodes).registry) && key !in Keys(reg)
    ensures exists i :: 0 <= i < |nodes| && ImageKeyOf(nodes[i], env.encode) == Some(key) && Obtainable(env, importer, key)
  {
    EnterRegistersWanted(env, content, importer);
    WalkAddsOnly(Enter(env, content, importer), Wanted(env, importer), reg, edits, nodes, key);
    var i :| 0 <= i < |nodes| && Wanted(env, importer)(nodes[i]) == Some(key);
    assert ImageKeyOf(nodes[i], env.encode) == Some(key);
  }

  /**
   * Images are registered, and so named `___ASSET___<n>`, in
   * document order: a key first added by node `i` is the image key of that
   * node, and it sits in the registry before a key first added by a later
   * node `j`.
   */
  lemma ImagesRegisteredInDocumentOrder<D(!new)>(env: Env<D>, content: string, importer: Option<string>,
                                                 reg: Registry<D>, edits: seq<Edit>, nodes: seq<Node>,
                                                 i: nat, j: nat, k1: string, k2: string)
    requires Valid(reg) && i < j
    requires FirstAddedBy(Enter(env, content, importer), reg, edits, nodes, i, k1)
    requires FirstAddedBy(Enter(env, content, importer), reg, edits, nodes, j, k2)
    ensures ImageKeyOf(nodes[i], env.encode) == Some(k1) && ImageKeyOf(nodes[j], env.encode) == Some(k2)
    ensures var r := Walk(Enter(env, content, importer), reg, edits, nodes).registry;
            && (exists p, q :: 0 <= p < q < |r| && r[p].key == k1 && r[q].key == k2)
            && (forall p, q :: 0 <= p < |r| && 0 <= q < |r| && r[p].key == k1 && r[q].key == k2 ==> p < q)
  {
    var enter := Enter(env, content, importer);
    var want := Wanted(env, importer);
    EnterRegistersWanted(env, content, importer);
    AddedByOwnNode(enter, want, reg, edits, nodes, i, k1);
    AddedByOwnNode(enter, want, reg, edits, nodes, j, k2);
    assert ImageKeyOf(nodes[i], env.encode) == Some(k1);
    assert ImageKeyOf(nodes[j], env.encode) == Some(k2);
    WalkRegistersInOrder(enter, reg, edits, nodes, i, j, k1, k2);
  }

  /** A template with no target element carrying a `src` is walked without any edit or registration. */
  lemma WalkWithoutTargets<D(!new)>(env: Env<D>, content: string, importer: Option<string>,
                                    reg: Registry<D>, edits: seq<Edit>, nodes: seq<Node>)
    requires forall i :: 0 <= i < |nodes| ==> TargetSrc(nodes[i]).None?
    ensures Walk(Enter(env, content, importer), reg, edits, nodes) == Step(reg, Ok(edits))
  {
    var enter := Enter(env, content, importer);
    forall i | 0 <= i < |nodes|
      ensures Inert(enter, nodes[i])
    {
      forall reg': Registry<D>, edits': seq<Edit>
        ensures enter(reg', edits', nodes[i]) == Step(reg', Ok(edits'))
      {
        assert enter(reg', edits', nodes[i]) == EnterNode(env, content, importer, reg', edits', nodes[i]);
      }
    }
    WalkInert(enter, reg, edits, nodes);
  }

  // Properties of one call of the hook.

  /** Without `<enhanced:img` anywhere in the text the hook returns nothing and registers nothing, whatever the parser would report. */
  lemma FastPathLeavesFileAlone<D(!new)>(env: Env<D>, reg: Registry<D>, doc: Document, content: string, importer: Option<string>)
    requires WellPlaced(doc, content)
    requires forall k :: 0 <= k <= |content| ==> !OccursAt(content, FastPathMarker, k)
    ensures ProcessMarkup(env, reg, doc, content, importer) == Run(reg, Ok(None))
  {
  }

  /** The text with no edits applied is the text. */
  lemma ApplyNothing(content: string)
    ensures Apply(content, []) == content
  {
    assert content[0..] == content;
  }

  /** The text with one insertion applied. */
  lemma ApplyInsertion(content: string, p: nat, text: string)
    requires p <= |content|
    ensures Ordered([Edit(p, p, text)], |content|)
    ensures Apply(content, [Edit(p, p, text)]) == content[..p] + text + content[p..]
  {
    var e := Edit(p, p, text);
    assert [e][1..] == [];
    assert ApplyFrom(content, [e], 0) == content[0..p] + text + ApplyFrom(content, [], p);
    assert content[0..p] == content[..p];
  }

  /**
   * For the first file of a run, a template without target elements comes
   * back unchanged: untouched when it does not mention `<enhanced:img`, and
   * with exactly its own text when it does.
   */
  lemma NoImagesNoChange<D(!new)>(env: Env<D>, doc: Document, content: string, importer: Option<string>)
    requires WellPlaced(doc, content)
    requires forall i :: 0 <= i < |doc.nodes| ==> TargetSrc(doc.nodes[i]).None?
    ensures ProcessMarkup(env, [], doc, content, importer)
            == Run([], if Includes(content, FastPathMarker) then Ok(Some(content)) else Ok(None))
  {
    WalkWithoutTargets(env, content, importer, [], [], doc.nodes);
    ApplyNothing(content);
  }

  /**
   * The registry outlives the file: a later file that mentions
   * `<enhanced:img` but has no target element still receives every
   * declaration registered so far, in its instance script or in a new one.
   */
  lemma EarlierImagesHoistedAgain<D(!new)>(env: Env<D>, reg: Registry<D>, doc: Document, content: string, importer: Option<string>)
    requires WellPlaced(doc, content) && reg != []
    requires Includes(content, FastPathMarker)
    requires forall i :: 0 <= i < |doc.nodes| ==> TargetSrc(doc.nodes[i]).None?
    ensures doc.instance.None? ==>
              ProcessMarkup(env, reg, doc, content, importer)
              == Run(reg, Ok(Some(content + "<script>" + HoistText(reg, env.stringify) + "</script>")))
    ensures doc.instance.Some? ==>
              var p := doc.instance.value;
              ProcessMarkup(env, reg, doc, content, importer)
              == Run(reg, Ok(Some(content[..p] + HoistText(reg, env.stringify) + content[p..])))
  {
    WalkWithoutTargets(env, content, importer, reg, [], doc.nodes);
    ApplyNothing(content);
    if doc.instance.Some? {
      var p := doc.instance.value;
      var hoisted := HoistText(reg, env.stringify);
      var r := AppendLeft([], |content|, p, hoisted);
      assert !SplitsEdited([], p);
      var k :| 0 <= k <= 0 && r.value == [][..k] + [Edit(p, p, hoisted)] + [][k..];
      assert r.value == [Edit(p, p, hoisted)];
      ApplyInsertion(content, p, hoisted);
    }
  }

  /** Each declaration sits inside a script built from the whole registry. */
  lemma ScriptHoldsDeclaration<D>(body: string, reg: Registry<D>, stringify: D -> string, i: nat)
    requires i < |reg|
    ensures var o := body + "<script>" + HoistText(reg, stringify) + "</script>";
            exists k :: 0 <= k <= |o| && OccursAt(o, Declaration(reg[i], stringify), k)
  {
    HoistTextAt(reg, i, stringify);
    var before := HoistText(reg[..i], stringify);
    OccursInside(body + "<script>", before, Declaration(reg[i], stringify), HoistText(reg[i + 1..], stringify), "</script>");
    assert OccursAt(body + "<script>" + HoistText(reg, stringify) + "</script>", Declaration(reg[i], stringify),
                    |body + "<script>"| + |before|);
  }

  /** The end of a concatenation is its last part. */
  lemma EndsWith(body: string, tail: string)
    ensures |body + tail| >= |tail| && (body + tail)[|body + tail| - |tail|..] == tail
  {
  }

  /**
   * Without an instance script, a non-empty registry is hoisted into one
   * new script at the very end of the output, holding every registered
   * declaration.
   */
  lemma HoistedScriptHoldsEveryDeclaration<D>(content: string, edits: seq<Edit>, reg: Registry<D>,
                                              stringify: D -> string, i: nat)
    requires Ordered(edits, |content|) && i < |reg|
    ensures Hoist(content, None, edits, HoistText(reg, stringify), |reg|).Ok?
    ensures Hoist(content, None, edits, HoistText(reg, stringify), |reg|).value.Some?
    ensures var o := Hoist(content, None, edits, HoistText(reg, stringify), |reg|).value.value;
            var tail := "<script>" + HoistText(reg, stringify) + "</script>";
            && |o| >= |tail| && o[|o| - |tail|..] == tail
            && exists k :: 0 <= k <= |o| && OccursAt(o, Declaration(reg[i], stringify), k)
  {
    var body := Apply(content, edits);
    var hoisted := HoistText(reg, stringify);
    var o := body + "<script>" + hoisted + "</script>";
    assert Hoist(content, None, edits, hoisted, |reg|) == Ok(Some(o));
    var tail := "<script>" + hoisted + "</script>";
    assert o == body + tail;
    EndsWith(body, tail);
    ScriptHoldsDeclaration(body, reg, stringify, i);
  }

  /**
   * With an instance script at `p`, hoisting inserts the declarations at
   * `p` among the walk's edits; it fails exactly when `p` lies strictly
   * inside a range the walk overwrote.
   */
  lemma HoistIntoInstanceScript(content: string, p: nat, edits: seq<Edit>, hoisted: string, n: nat)
    requires Ordered(edits, |content|) && p <= |content| && n > 0
    ensures Hoist(content, Some(p), edits, hoisted, n).Ok? <==> !SplitsEdited(edits, p)
    ensures !SplitsEdited(edits, p) ==>
              Hoist(content, Some(p), edits, hoisted, n) == Ok(Some(Apply(content, AppendLeft(edits, |content|, p, hoisted).value)))
  {
  }

  /**
   * With an instance script whose start the walk did not overwrite, every
   * registered declaration occurs in the output, alongside the walk's
   * rewrites.
   */
  lemma HoistedInstanceScriptHoldsEveryDeclaration<D>(content: string, p: nat, edits: seq<Edit>, reg: Registry<D>,
                                                      stringify: D -> string, i: nat)
    requires Ordered(edits, |content|) && p <= |content| && i < |reg|
    requires !SplitsEdited(edits, p)
    ensures Hoist(content, Some(p), edits, HoistText(reg, stringify), |reg|).Ok?
    ensures var o := Hoist(content, Some(p), edits, HoistText(reg, stringify), |reg|).value.value;
            exists k :: 0 <= k <= |o| && OccursAt(o, Declaration(reg[i], stringify), k)
  {
    var hoisted := HoistText(reg, stringify);
    var o := Hoist(content, Some(p), edits, hoisted, |reg|).value.value;
    var m :| 0 <= m <= |o| && OccursAt(o, hoisted, m);
    HoistTextAt(reg, i, stringify);
    var before := HoistText(reg[..i], stringify);
    OccursWithin(o, before, Declaration(reg[i], stringify), HoistText(reg[i + 1..], stringify), m);
    assert OccursAt(o, Declaration(reg[i], stringify), m + |before|);
  }

  /** Across files, every registered image keeps a distinct identifier: the registry stays valid from the first file to the last. */
  lemma NamesUniqueAcrossFiles<D(!new)>(env: Env<D>, files: seq<SourceFile>)
    requires forall i :: 0 <= i < |files| ==> WellPlaced(files[i].doc, files[i].content)
    ensures var r := ProcessFiles(env, [], files);
            forall i, j :: 0 <= i < j < |r| ==> r[i].name != r[j].name && r[i].key != r[j].key
  {
    var r := ProcessFiles(env, [], files);
    ValidNamesUnique(r);
  }
}
