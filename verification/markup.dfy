/**
 * The already-parsed template records the preprocessor walks, and the
 * attribute reader `get_attr_value`. Positions are offsets into the
 * component's source text.
 */
module Markup {
  import opened Wrappers

  /** The kind of one token of an attribute value. */
  datatype TokenKind =
      /** Literal text; `raw` is the text as written. */
    | TextToken(raw: string)
      /** `{expression}`. */
    | MustacheTag
      /** The `{name}` shorthand, which carries no raw text. */
    | AttributeShorthand

  datatype Token = Token(kind: TokenKind, start: nat, end: nat)

  /**
   * One entry of an element's attribute list. `kind` is the parser's node
   * type ("Attribute", "Spread", "Binding", "EventHandler", ...); a directive
   * such as `bind:width` has kind "Binding" and name "width"; a spread has no
   * name and is given the empty one. A valueless attribute has no tokens.
   */
  datatype Attribute = Attribute(kind: string, name: string, start: nat, end: nat, value: seq<Token>)

  /** A template node: its parser type ("Element", "InlineComponent", ...), tag name, range and attributes. */
  datatype Node = Node(kind: string, name: string, start: nat, end: nat, attributes: seq<Attribute>)

  /**
   * A parsed component: its template nodes in the order a depth-first walk
   * enters them, and where the content of the instance `<script>` starts, if
   * the component has one.
   */
  datatype Document = Document(nodes: seq<Node>, instance: Option<nat>)

  /** The first index at or after `from` whose attribute satisfies `p`: `Array.prototype.findIndex`. */
  function FindFrom(attrs: seq<Attribute>, p: Attribute -> bool, from: nat): (r: Option<nat>)
    requires from <= |attrs|
    ensures r.Some? ==> from <= r.value < |attrs| && p(attrs[r.value])
    ensures r.Some? ==> forall j :: from <= j < r.value ==> !p(attrs[j])
    ensures r.None? ==> forall j :: from <= j < |attrs| ==> !p(attrs[j])
    decreases |attrs| - from
  {
    if from == |attrs| then None
    else if p(attrs[from]) then Some(from)
    else FindFrom(attrs, p, from + 1)
  }

  function FindFirst(attrs: seq<Attribute>, p: Attribute -> bool): (r: Option<nat>)
    ensures r.Some? ==> r.value < |attrs| && p(attrs[r.value])
    ensures r.Some? ==> forall j :: 0 <= j < r.value ==> !p(attrs[j])
    ensures r.None? ==> forall j :: 0 <= j < |attrs| ==> !p(attrs[j])
  {
    FindFrom(attrs, p, 0)
  }

  /** A plain attribute (not a directive or spread) with the given name. */
  predicate IsNamedAttribute(a: Attribute, name: string)
  {
    a.kind == "Attribute" && a.name == name
  }

  /** `i` is the first plain attribute called `name`. */
  predicate IsFirstNamed(attrs: seq<Attribute>, name: string, i: int)
  {
    && 0 <= i < |attrs|
    && IsNamedAttribute(attrs[i], name)
    && forall j :: 0 <= j < i ==> !IsNamedAttribute(attrs[j], name)
  }

  /**
   * `get_attr_value`: the first value token of the first plain attribute
   * called `name`. Absent when no such attribute exists, and also when that
   * first one has no value, even if a later one has.
   */
  function GetAttrValue(node: Node, name: string): (r: Option<Token>)
    ensures r.Some? ==> exists i :: IsFirstNamed(node.attributes, name, i)
                                    && |node.attributes[i].value| > 0
                                    && r.value == node.attributes[i].value[0]
    ensures forall i :: IsFirstNamed(node.attributes, name, i) && |node.attributes[i].value| > 0
                        ==> r == Some(node.attributes[i].value[0])
    ensures (forall i :: 0 <= i < |node.attributes| ==> !IsNamedAttribute(node.attributes[i], name)) ==> r.None?
  {
    match FindFirst(node.attributes, a => IsNamedAttribute(a, name))
    case None => None
    case Some(i) =>
      assert IsFirstNamed(node.attributes, name, i);
      if |node.attributes[i].value| == 0 then None else Some(node.attributes[i].value[0])
  }
}
