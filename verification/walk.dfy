/**
 * The template walk, `asyncWalk` with an `enter` visitor: the visitor is
 * called on every node in the order a depth-first walk enters them, with
 * the registry and the edits so far, and the first error it reports ends
 * the walk.
 */
module TemplateWalk {
  import opened Wrappers
  import opened Errors
  import opened Markup
  import opened AssetRegistry
  import opened Edits

  /** The state after some nodes: the registry, and the edits so far or the error that stopped the walk. */
  datatype Step<D> = Step(registry: Registry<D>, edits: Result<seq<Edit>, Error>)

  /** `enter(node)`, given the state it runs in. */
  type Visitor<!D> = (Registry<D>, seq<Edit>, Node) -> Step<D>

  /**
   * The step `r`, taken from `reg` and `edits` over a text of length `len`,
   * only appends to the registry, keeps it valid and keeps the edits in
   * document order.
   */
  ghost predicate Advances<D>(reg: Registry<D>, edits: seq<Edit>, len: nat, r: Step<D>)
  {
    && |r.registry| >= |reg| && r.registry[..|reg|] == reg
    && (Valid(reg) ==> Valid(r.registry))
    && (Ordered(edits, len) && r.edits.Ok? ==> Ordered(r.edits.value, len))
  }

  /** The visitor only appends to the registry and keeps it valid. */
  ghost predicate Extends<D(!new)>(enter: Visitor<D>)
  {
    forall reg: Registry<D>, edits: seq<Edit>, node: Node ::
      && |enter(reg, edits, node).registry| >= |reg|
      && enter(reg, edits, node).registry[..|reg|] == reg
      && (Valid(reg) ==> Valid(enter(reg, edits, node).registry))
  }

  /** The visitor keeps the edits of a text of length `len` in document order. */
  ghost predicate KeepsOrder<D(!new)>(enter: Visitor<D>, len: nat)
  {
    forall reg: Registry<D>, edits: seq<Edit>, node: Node ::
      Ordered(edits, len) && enter(reg, edits, node).edits.Ok? ==> Ordered(enter(reg, edits, node).edits.value, len)
  }

  /** A node the visitor passes over: no edit, no registration. */
  ghost predicate Inert<D(!new)>(enter: Visitor<D>, node: Node)
  {
    forall reg: Registry<D>, edits: seq<Edit> :: enter(reg, edits, node) == Step(reg, Ok(edits))
  }

  /** The visitor registers the key `want` names for a node whenever it succeeds on that node. */
  ghost predicate Registers<D(!new)>(enter: Visitor<D>, want: Node -> Option<string>)
  {
    forall reg: Registry<D>, edits: seq<Edit>, node: Node ::
      enter(reg, edits, node).edits.Ok? && want(node).Some? ==> want(node).value in Keys(enter(reg, edits, node).registry)
  }

  /** The only key the visitor adds for a node is the one `want` names for it. */
  ghost predicate AddsOnly<D(!new)>(enter: Visitor<D>, want: Node -> Option<string>)
  {
    forall reg: Registry<D>, edits: seq<Edit>, node: Node, key: string ::
      key in Keys(enter(reg, edits, node).registry) && key !in Keys(reg) ==> want(node) == Some(key)
  }

  /** `asyncWalk(ast.html, { enter })` over the nodes in walk order. */
  function Walk<D(!new)>(enter: Visitor<D>, reg: Registry<D>, edits: seq<Edit>, nodes: seq<Node>): (r: Step<D>)
    ensures Extends(enter) ==> |r.registry| >= |reg| && r.registry[..|reg|] == reg
    ensures Extends(enter) && Valid(reg) ==> Valid(r.registry)
    decreases |nodes|
  {
    if nodes == [] then Step(reg, Ok(edits))
    else
      var step := enter(reg, edits, nodes[0]);
      match step.edits
      case Err(_) => step
      case Ok(next) =>
        var r := Walk(enter, step.registry, next, nodes[1..]);
        assert Extends(enter) ==> r.registry[..|reg|] == r.registry[..|step.registry|][..|reg|];
        r
  }

  /** A visitor that keeps the edits in order makes the whole walk keep them in order. */
  lemma {:induction false} WalkKeepsOrder<D(!new)>(enter: Visitor<D>, len: nat, reg: Registry<D>, edits: seq<Edit>, nodes: seq<Node>)
    requires KeepsOrder(enter, len) && Ordered(edits, len)
    ensures Walk(enter, reg, edits, nodes).edits.Ok? ==> Ordered(Walk(enter, reg, edits, nodes).edits.value, len)
    decreases |nodes|
  {
    if nodes != [] {
      var step := enter(reg, edits, nodes[0]);
      if step.edits.Ok? {
        WalkKeepsOrder(enter, len, step.registry, step.edits.value, nodes[1..]);
      }
    }
  }

  /** Nodes the visitor passes over leave the state as it was. */
  lemma {:induction false} WalkInert<D(!new)>(enter: Visitor<D>, reg: Registry<D>, edits: seq<Edit>, nodes: seq<Node>)
    requires forall i :: 0 <= i < |nodes| ==> Inert(enter, nodes[i])
    ensures Walk(enter, reg, edits, nodes) == Step(reg, Ok(edits))
    decreases |nodes|
  {
    if nodes != [] {
      assert Inert(enter, nodes[0]);
      assert enter(reg, edits, nodes[0]) == Step(reg, Ok(edits));
      WalkInert(enter, reg, edits, nodes[1..]);
    }
  }

  /** A walk that completes holds the key of every node its visitor registers. */
  lemma {:induction false} WalkRegisters<D(!new)>(enter: Visitor<D>, want: Node -> Option<string>, reg: Registry<D>,
                                            edits: seq<Edit>, nodes: seq<Node>, i: nat)
    requires Extends(enter) && Registers(enter, want)
    requires Walk(enter, reg, edits, nodes).edits.Ok?
    requires i < |nodes| && want(nodes[i]).Some?
    ensures want(nodes[i]).value in Keys(Walk(enter, reg, edits, nodes).registry)
    decreases |nodes|
  {
    var step := enter(reg, edits, nodes[0]);
    assert step.edits.Ok?;
    var r := Walk(enter, reg, edits, nodes);
    if i == 0 {
      KeysOfPrefix(step.registry, r.registry, want(nodes[0]).value);
    } else {
      assert nodes[1..][i - 1] == nodes[i];
      WalkRegisters(enter, want, step.registry, step.edits.value, nodes[1..], i - 1);
    }
  }

  /** Every key a walk adds, complete or not, is the one its visitor names for some node. */
  lemma {:induction false} WalkAddsOnly<D(!new)>(enter: Visitor<D>, want: Node -> Option<string>, reg: Registry<D>,
                                           edits: seq<Edit>, nodes: seq<Node>, key: string)
    requires AddsOnly(enter, want)
    requires key in Keys(Walk(enter, reg, edits, nodes).registry) && key !in Keys(reg)
    ensures exists i :: 0 <= i < |nodes| && want(nodes[i]) == Some(key)
    decreases |nodes|
  {
    assert nodes != [];
    var step := enter(reg, edits, nodes[0]);
    if key in Keys(step.registry) {
      assert want(nodes[0]) == Some(key);
    } else {
      assert step.edits.Ok?;
      WalkAddsOnly(enter, want, step.registry, step.edits.value, nodes[1..], key);
      var i :| 0 <= i < |nodes[1..]| && want(nodes[1..][i]) == Some(key);
      assert nodes[i + 1] == nodes[1..][i];
    }
  }

  /** Walking a list is walking its first `i` nodes, then, unless that stopped with an error, the rest. */
  lemma {:induction false} WalkSplit<D(!new)>(enter: Visitor<D>, reg: Registry<D>, edits: seq<Edit>, nodes: seq<Node>, i: nat)
    requires i <= |nodes|
    ensures var w := Walk(enter, reg, edits, nodes[..i]);
            Walk(enter, reg, edits, nodes)
            == (if w.edits.Err? then w else Walk(enter, w.registry, w.edits.value, nodes[i..]))
    decreases i
  {
    if i == 0 {
      assert nodes[..0] == [] && nodes[0..] == nodes;
    } else {
      var step := enter(reg, edits, nodes[0]);
      assert nodes[..i][0] == nodes[0];
      assert nodes[..i][1..] == nodes[1..][..i - 1];
      if step.edits.Ok? {
        WalkSplit(enter, step.registry, step.edits.value, nodes[1..], i - 1);
        assert nodes[1..][i - 1..] == nodes[i..];
      }
    }
  }

  /** The walk of the first `i + 1` nodes is the visitor's step on node `i` after the walk of the first `i`. */
  lemma WalkSnoc<D(!new)>(enter: Visitor<D>, reg: Registry<D>, edits: seq<Edit>, nodes: seq<Node>, i: nat)
    requires i < |nodes|
    ensures var w := Walk(enter, reg, edits, nodes[..i]);
            Walk(enter, reg, edits, nodes[..i + 1])
            == (if w.edits.Err? then w else enter(w.registry, w.edits.value, nodes[i]))
  {
    WalkSplit(enter, reg, edits, nodes[..i + 1], i);
    assert nodes[..i + 1][..i] == nodes[..i];
    assert nodes[..i + 1][i..] == [nodes[i]];
  }

  /** The registry after the first `i` nodes is a prefix of the registry after the whole walk. */
  lemma WalkExtendsPrefix<D(!new)>(enter: Visitor<D>, reg: Registry<D>, edits: seq<Edit>, nodes: seq<Node>, i: nat)
    requires Extends(enter) && i <= |nodes|
    ensures var a := Walk(enter, reg, edits, nodes[..i]).registry;
            var r := Walk(enter, reg, edits, nodes).registry;
            |a| <= |r| && r[..|a|] == a
  {
    WalkSplit(enter, reg, edits, nodes, i);
  }

  /** The key `key` is new in the registry after node `i`: absent before it, present after it. */
  ghost predicate FirstAddedBy<D(!new)>(enter: Visitor<D>, reg: Registry<D>, edits: seq<Edit>, nodes: seq<Node>, i: nat, key: string)
  {
    && i < |nodes|
    && key !in Keys(Walk(enter, reg, edits, nodes[..i]).registry)
    && key in Keys(Walk(enter, reg, edits, nodes[..i + 1]).registry)
  }

  /** A key first added at node `i` is the key the visitor names for that node. */
  lemma AddedByOwnNode<D(!new)>(enter: Visitor<D>, want: Node -> Option<string>, reg: Registry<D>,
                                edits: seq<Edit>, nodes: seq<Node>, i: nat, key: string)
    requires AddsOnly(enter, want) && FirstAddedBy(enter, reg, edits, nodes, i, key)
    ensures want(nodes[i]) == Some(key)
  {
    WalkSnoc(enter, reg, edits, nodes, i);
  }

  /**
   * A key new after node `i` sits, in the registry after the whole walk, at
   * a position `p` at or past the registry's length before node `i` and
   * before its length after it.
   */
  lemma AddedAt<D(!new)>(enter: Visitor<D>, reg: Registry<D>, edits: seq<Edit>, nodes: seq<Node>, i: nat, key: string)
      returns (p: nat)
    requires Extends(enter) && FirstAddedBy(enter, reg, edits, nodes, i, key)
    ensures var r := Walk(enter, reg, edits, nodes).registry;
            && |Walk(enter, reg, edits, nodes[..i]).registry| <= p < |Walk(enter, reg, edits, nodes[..i + 1]).registry| <= |r|
            && r[p].key == key
  {
    var before := Walk(enter, reg, edits, nodes[..i]).registry;
    var after := Walk(enter, reg, edits, nodes[..i + 1]).registry;
    WalkExtendsPrefix(enter, reg, edits, nodes[..i + 1], i);
    assert nodes[..i + 1][..i] == nodes[..i];
    p :| 0 <= p < |after| && Keys(after)[p] == key;
    assert forall t :: 0 <= t < |before| ==> after[t].key == Keys(before)[t];
    assert |before| <= p;
    WalkExtendsPrefix(enter, reg, edits, nodes, i + 1);
    assert Walk(enter, reg, edits, nodes).registry[p] == after[p];
  }

  /** The registry only grows along the walk. */
  lemma PrefixRegistryGrows<D(!new)>(enter: Visitor<D>, reg: Registry<D>, edits: seq<Edit>, nodes: seq<Node>, m: nat, n: nat)
    requires Extends(enter) && m <= n <= |nodes|
    ensures |Walk(enter, reg, edits, nodes[..m]).registry| <= |Walk(enter, reg, edits, nodes[..n]).registry|
  {
    WalkExtendsPrefix(enter, reg, edits, nodes[..n], m);
    assert nodes[..n][..m] == nodes[..m];
  }

  /**
   * Keys enter the registry in walk order: a key first added at node `i`
   * sits before a key first added at a later node `j`, and, the registry
   * being valid, at no other position.
   */
  lemma WalkRegistersInOrder<D(!new)>(enter: Visitor<D>, reg: Registry<D>, edits: seq<Edit>, nodes: seq<Node>,
                                      i: nat, j: nat, k1: string, k2: string)
    requires Extends(enter) && Valid(reg) && i < j
    requires FirstAddedBy(enter, reg, edits, nodes, i, k1) && FirstAddedBy(enter, reg, edits, nodes, j, k2)
    ensures var r := Walk(enter, reg, edits, nodes).registry;
            && (exists p, q :: 0 <= p < q < |r| && r[p].key == k1 && r[q].key == k2)
            && (forall p, q :: 0 <= p < |r| && 0 <= q < |r| && r[p].key == k1 && r[q].key == k2 ==> p < q)
  {
    var p1 := AddedAt(enter, reg, edits, nodes, i, k1);
    var q1 := AddedAt(enter, reg, edits, nodes, j, k2);
    PrefixRegistryGrows(enter, reg, edits, nodes, i + 1, j);
    KeysInOrder(Walk(enter, reg, edits, nodes).registry, p1, q1, k1, k2);
  }

  /** In a valid registry, a key seen before another is before it wherever they are. */
  lemma KeysInOrder<D>(r: Registry<D>, p1: nat, q1: nat, k1: string, k2: string)
    requires Valid(r) && p1 < q1 < |r| && r[p1].key == k1 && r[q1].key == k2
    ensures && (exists p, q :: 0 <= p < q < |r| && r[p].key == k1 && r[q].key == k2)
            && (forall p, q :: 0 <= p < |r| && 0 <= q < |r| && r[p].key == k1 && r[q].key == k2 ==> p < q)
  {
  }
}
