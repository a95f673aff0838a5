/**
 * The `images` map: resolved keys in insertion order, each with the
 * generated identifier `___ASSET___<n>` and its descriptor, and the text of
 * the hoisted `const` declarations built from it.
 */
module AssetRegistry {
  import opened Wrappers
  import opened Text

  datatype Entry<D> = Entry(key: string, name: string, image: D)

  /** A JavaScript `Map` iterates in insertion order, so a sequence holds it. */
  type Registry<D> = seq<Entry<D>>

  const AssetPrefix: string := "___ASSET___"

  /** `ASSET_PREFIX + images.size` for a registry of `n` entries. */
  function AssetName(n: nat): (r: string)
    ensures |r| > |AssetPrefix| && r[..|AssetPrefix|] == AssetPrefix
    ensures r[|AssetPrefix|..] == Decimal(n)
  {
    AssetPrefix + Decimal(n)
  }

  /** Distinct positions get distinct identifiers. */
  lemma AssetNamesDistinct(i: nat, j: nat)
    requires i != j
    ensures AssetName(i) != AssetName(j)
  {
    DecimalInjective(i, j);
  }

  function Keys<D>(reg: Registry<D>): (ks: seq<string>)
    ensures |ks| == |reg|
    ensures forall i :: 0 <= i < |reg| ==> ks[i] == reg[i].key
  {
    seq(|reg|, i requires 0 <= i < |reg| => reg[i].key)
  }

  /** Keys of a registry stay keys of any registry that extends it. */
  lemma KeysOfPrefix<D>(reg: Registry<D>, r: Registry<D>, key: string)
    requires |r| >= |reg| && r[..|reg|] == reg && key in Keys(reg)
    ensures key in Keys(r)
  {
    var i :| 0 <= i < |reg| && Keys(reg)[i] == key;
    assert r[i] == reg[i];
    assert Keys(r)[i] == key;
  }

  /**
   * What the registry always satisfies: the entry at position `n` is named
   * `___ASSET___<n>`, and no key is registered twice.
   */
  ghost predicate Valid<D>(reg: Registry<D>)
  {
    && (forall i :: 0 <= i < |reg| ==> reg[i].name == AssetName(i))
    && (forall i, j :: 0 <= i < j < |reg| ==> reg[i].key != reg[j].key)
  }

  /** Identifiers of a valid registry are unique. */
  lemma ValidNamesUnique<D>(reg: Registry<D>)
    requires Valid(reg)
    ensures forall i, j :: 0 <= i < j < |reg| ==> reg[i].name != reg[j].name
  {
    forall i, j | 0 <= i < j < |reg|
      ensures reg[i].name != reg[j].name
    {
      AssetNamesDistinct(i, j);
    }
  }

  function LookupFrom<D>(reg: Registry<D>, key: string, from: nat): (r: Option<nat>)
    requires from <= |reg|
    ensures r.Some? ==> from <= r.value < |reg| && reg[r.value].key == key
    ensures r.None? ==> forall i :: from <= i < |reg| ==> reg[i].key != key
    decreases |reg| - from
  {
    if from == |reg| then None
    else if reg[from].key == key then Some(from)
    else LookupFrom(reg, key, from + 1)
  }

  /** `images.get(url)`: the position of the entry for `key`, if it is registered. */
  function Lookup<D>(reg: Registry<D>, key: string): (r: Option<nat>)
    ensures r.Some? ==> r.value < |reg| && reg[r.value].key == key
    ensures r.None? <==> key !in Keys(reg)
  {
    LookupFrom(reg, key, 0)
  }

  /** `images.set(url, { name: ASSET_PREFIX + images.size, image })` for a key not yet registered. */
  function Register<D>(reg: Registry<D>, key: string, image: D): (r: Registry<D>)
    requires key !in Keys(reg)
    ensures Valid(reg) ==> Valid(r)
    ensures Keys(r) == Keys(reg) + [key]
    ensures r[..|reg|] == reg
    ensures r[|reg|].name == AssetName(|reg|) && r[|reg|].image == image
  {
    var r := reg + [Entry(key, AssetName(|reg|), image)];
    assert Keys(r) == Keys(reg) + [key];
    r
  }

  /** One hoisted declaration, `const <name> = <JSON.stringify(image)>;`. */
  function Declaration<D>(e: Entry<D>, stringify: D -> string): (r: string)
    ensures OccursAt(r, e.name, 6) && r[|r| - 1] == ';'
  {
    var r := "const " + e.name + " = " + stringify(e.image) + ";";
    assert r[6..6 + |e.name|] == e.name;
    r
  }

  /** The declarations of every entry, in insertion order. */
  function HoistText<D>(reg: Registry<D>, stringify: D -> string): (r: string)
    ensures r == [] <==> reg == []
  {
    if reg == [] then "" else Declaration(reg[0], stringify) + HoistText(reg[1..], stringify)
  }

  /** The hoisted text of a registry that grew is the old text followed by the new entries' text. */
  lemma {:induction false} HoistTextConcat<D>(reg: Registry<D>, more: Registry<D>, stringify: D -> string)
    ensures HoistText(reg + more, stringify) == HoistText(reg, stringify) + HoistText(more, stringify)
  {
    if reg == [] {
      assert reg + more == more;
    } else {
      assert (reg + more)[1..] == reg[1..] + more;
      HoistTextConcat(reg[1..], more, stringify);
    }
  }

  /** The declaration of entry `i` sits between those of the entries before it and those after it. */
  lemma {:induction false} HoistTextAt<D>(reg: Registry<D>, i: nat, stringify: D -> string)
    requires i < |reg|
    ensures HoistText(reg, stringify)
         == HoistText(reg[..i], stringify) + Declaration(reg[i], stringify) + HoistText(reg[i + 1..], stringify)
  {
    var tail := [reg[i]] + reg[i + 1..];
    assert reg == reg[..i] + tail;
    HoistTextConcat(reg[..i], tail, stringify);
    assert tail[1..] == reg[i + 1..];
    assert HoistText(tail, stringify) == Declaration(reg[i], stringify) + HoistText(reg[i + 1..], stringify);
  }
}
