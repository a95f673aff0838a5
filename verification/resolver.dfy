/**
 * `resolve`: asks the bundler to resolve a key, asks the imagetools plugin's
 * `load` hook for the generated module, and parses the descriptor out of it.
 * The bundler, the hook and `JSON.parse` are oracles; descriptors are opaque.
 */
module Resolver {
  import opened Wrappers
  import opened Text
  import opened Errors
  import PseudoJson

  /** What the `load` hook returns: nothing, a string, or an object with a `code` field. */
  datatype LoadResult = NoModule | Source(text: string) | Module(code: string)

  /**
   * The build-time collaborators. `resolveId` is the bundler's `resolve`
   * reduced to the id of its answer; `load` is the plugin's hook, absent when
   * the plugin has none, an object hook reduced to its handler; `parseJson`
   * is `JSON.parse`, failing with a message.
   */
  datatype Pipeline<D> = Pipeline(
    resolveId: (string, Option<string>) -> Option<string>,
    load: Option<string -> LoadResult>,
    parseJson: string -> Result<D, string>)

  /** The code of a load result, or nothing when the result is falsy (absent or the empty string). */
  function ModuleCode(m: LoadResult): (r: Option<string>)
    ensures r.None? <==> m.NoModule? || m == Source("")
    ensures m.Module? ==> r == Some(m.code)
    ensures m.Source? && m.text != "" ==> r == Some(m.text)
  {
    match m
    case NoModule => None
    case Source(text) => if text == "" then None else Some(text)
    case Module(code) => Some(code)
  }

  const ExportDefault: string := "export default"

  /** `code.replace('export default', '').replace(/;$/, '')`: the first `export default` and one final `;` go. */
  function StripModule(code: string): (r: string)
    ensures |r| <= |code|
    ensures !Includes(code, ExportDefault) && (code == [] || code[|code| - 1] != ';') ==> r == code
  {
    var body := ReplaceFirst(code, ExportDefault, "");
    if body != [] && body[|body| - 1] == ';' then body[..|body| - 1] else body
  }

  /** Stripping a generated `export default <object>;` module yields the object text. */
  lemma StripModuleRoundTrip(x: string)
    ensures StripModule(ExportDefault + x + ";") == x
  {
    var code := ExportDefault + x + ";";
    assert OccursAt(code, ExportDefault, 0);
    assert code[|ExportDefault|..] == x + ";";
    var body := ReplaceFirst(code, ExportDefault, "");
    assert body == x + ";";
    assert body[..|body| - 1] == x;
  }

  /** `parseObject`: normalise the pseudo-JSON, then parse it strictly. */
  function ParseObject<D>(p: Pipeline<D>, text: string): (r: Result<D, Error>)
    ensures r.Err? ==> r.error.MalformedDescriptor?
    ensures p.parseJson(PseudoJson.Normalize(text)).Ok? ==> r == Ok(p.parseJson(PseudoJson.Normalize(text)).value)
  {
    match p.parseJson(PseudoJson.Normalize(text))
    case Ok(d) => Ok(d)
    case Err(reason) => Err(MalformedDescriptor(reason))
  }

  /** The id `resolve` continues with: present and non-empty. */
  function ResolvedId<D>(p: Pipeline<D>, url: string, importer: Option<string>): Option<string>
  {
    match p.resolveId(url, importer)
    case Some(id) => if id == "" then None else Some(id)
    case None => None
  }

  /**
   * `resolve(opts, url, importer)`: absent when the bundler resolves nothing;
   * an error when the plugin has no `load` hook or the hook returns nothing;
   * otherwise the parsed descriptor. A string and a `{ code }` result are
   * treated alike.
   */
  function Resolve<D>(p: Pipeline<D>, url: string, importer: Option<string>): (r: Result<Option<D>, Error>)
    ensures ResolvedId(p, url, importer).None? <==> r == Ok(None)
    ensures ResolvedId(p, url, importer).Some? && p.load.None? ==> r == Err(MissingLoadMethod)
    ensures ResolvedId(p, url, importer).Some? && p.load.Some?
            && ModuleCode(p.load.value(ResolvedId(p, url, importer).value)).None?
            ==> r == Err(CouldNotLoad(ResolvedId(p, url, importer).value))
    ensures ResolvedId(p, url, importer).Some? && p.load.Some?
            && ModuleCode(p.load.value(ResolvedId(p, url, importer).value)).Some?
            ==> var code := ModuleCode(p.load.value(ResolvedId(p, url, importer).value)).value;
                (r.Ok? <==> ParseObject(p, StripModule(code)).Ok?)
                && (r.Ok? ==> r.value == Some(ParseObject(p, StripModule(code)).value))
                && (r.Err? ==> r.error.MalformedDescriptor?)
  {
    match ResolvedId(p, url, importer)
    case None => Ok(None)
    case Some(id) =>
      if p.load.None? then Err(MissingLoadMethod)
      else match ModuleCode(p.load.value(id))
        case None => Err(CouldNotLoad(id))
        case Some(code) =>
          match ParseObject(p, StripModule(code))
          case Ok(d) => Ok(Some(d))
          case Err(e) => Err(e)
  }

  /** A hook that returns the module as a string and one that returns `{ code }` with the same text resolve alike. */
  lemma SourceAndModuleAlike<D>(p: Pipeline<D>, q: Pipeline<D>, url: string, importer: Option<string>, id: string, code: string)
    requires p.resolveId == q.resolveId && p.parseJson == q.parseJson
    requires ResolvedId(p, url, importer) == Some(id)
    requires p.load.Some? && q.load.Some?
    requires p.load.value(id) == Source(code) && q.load.value(id) == Module(code)
    requires code != ""
    ensures Resolve(p, url, importer) == Resolve(q, url, importer)
  {
  }
}
