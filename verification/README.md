# enhanced:img preprocessor, modelled in Dafny

This project models the `markup` hook of the `enhanced:img` Svelte
preprocessor (`packages/enhanced-img/src/preprocessor.js`). The hook takes
one component's source text. If the text holds an `<enhanced:img>` element,
it visits each such element in document order and does one of two things:

- A literal `src` becomes a cache key. The key is looked up in a registry.
  On a miss, the asset pipeline resolves the key, and a resolved descriptor
  is registered under the next `___ASSET___<n>` identifier.
- A `{expression}` `src` is rewritten into a run-time `{#if}` fragment
  without asking the pipeline.

An element with an optimizable key becomes a `<picture>`. Any other element
only has its `src` value replaced. At the end, one `const` per registered
descriptor is hoisted into the instance script, or into a new `<script>`
appended to the end.

The model is purely functional:

- **Registry.** An ordered sequence of (key, identifier, descriptor)
  entries. It is threaded into and out of every call, because the code
  creates one `images` map per `image(opts)` and keeps it across files.
- **Edit buffer.** A list of `(start, end, text)` edits over the original
  text, with an `Apply` that splices them in.
- **Walk.** A fold over the parsed nodes in visit order. It stops at the
  first error. Registrations made before that error are kept.
- **Outside calls.** Bundler resolution, the imagetools `load` hook,
  `JSON.parse`, `JSON.stringify`, `encodeURIComponent` and JavaScript
  truthiness are function-valued parameters (`Resolver.Pipeline`,
  `Preprocessor.Env`).
- **Replacement text.** The text that replaces a non-optimizable `src` is
  also a parameter, `Env.srcText`, applied to the registered entry.
  `Preprocessor.AsWritten` fixes it to what the code produces
  (`{[object Object]}`), and `Preprocessor.Corrected` fixes it to what the
  code's comment intends (`{identifier}`). See "## Findings".

Modules, in dependency order:

| module | file | contents |
|---|---|---|
| `Wrappers` | wrappers.dfy | `Option`, `Result` |
| `Errors` | errors.dfy | the errors a call can throw |
| `Text` | text.dfy | JavaScript string operations: `trim`, `substring`, `includes`, `join`, decimal rendering |
| `Markup` | markup.dfy | parsed nodes, attributes and value tokens; `get_attr_value` |
| `CacheKey` | cache_key.dfy | the cache key and the `OPTIMIZABLE` test |
| `PseudoJson` | pseudo_json.dfy | the quoting rewrite inside `parseObject` |
| `Resolver` | resolver.dfy | `resolve` and `parseObject` |
| `AssetRegistry` | registry.dfy | registry entries, identifiers, hoisted declarations |
| `Edits` | edits.dfy | `update`, `appendLeft` and applying edits |
| `TemplateWalk` | walk.dfy | the walk and generic facts about it |
| `Fragments` | fragments.dfy | `attributes_to_markdown`, `img_to_picture`, `dynamic_img_to_picture` |
| `Preprocessor` | preprocessor.dfy | `update_element`, the visitor, hoisting, `markup`, a sequence of files |

## Model

All source cells refer to `packages/enhanced-img/src/preprocessor.js`.

| member | source | states |
|---|---|---|
| Text.Trim | packages/enhanced-img/src/preprocessor.js:48 | The result is an infix of the input with only ECMAScript white space or line terminators on either side, and it neither starts nor ends with one. |
| Text.TrimIdempotent | packages/enhanced-img/src/preprocessor.js:41-43 | Trimming a trimmed string changes nothing. |
| Text.Substring | packages/enhanced-img/src/preprocessor.js:41-42 | In-range bounds give the slice between them. Swapped bounds give the slice between them the other way round. |
| Text.Includes | packages/enhanced-img/src/preprocessor.js:26 | True exactly when the pattern occurs at some position of the text. |
| Preprocessor.FastPathLeavesFileAlone | packages/enhanced-img/src/preprocessor.js:26-28 | Text without `<enhanced:img` gives no output and the registry comes back unchanged, whatever the parsed nodes are. |
| Markup.FindFirst | packages/enhanced-img/src/preprocessor.js:159-161 | The index found satisfies the test and no earlier index does. No index means no element satisfies it. |
| Markup.GetAttrValue | packages/enhanced-img/src/preprocessor.js:158-166 | Gives the first value token of the first plain attribute with that name. Gives nothing when there is no such attribute or it has no value. |
| Preprocessor.KeyCarriesSizes | packages/enhanced-img/src/preprocessor.js:50-59 | When `get_attr_value` finds a `sizes` token, the key holds `imgSizes=` followed by the encoded raw text and `&` right after the separator. A value that is not text has no raw text, so `undefined` is encoded. |
| Preprocessor.KeyCarriesWidth | packages/enhanced-img/src/preprocessor.js:50-59 | When `get_attr_value` finds a `width` token, the key holds `imgWidth=` followed by the encoded raw text and `&` right before `enhanced`. A value that is not text gives encoded `undefined`. |
| Preprocessor.ImageKey | packages/enhanced-img/src/preprocessor.js:48-59 | The key begins with the trimmed `src` and is longer than it, so the path it names is the one written in the element. `KeyCarriesSizes`, `KeyCarriesWidth` and `KeyWithoutHints` place the hints and the marker after it. |
| Preprocessor.KeyWithoutHints | packages/enhanced-img/src/preprocessor.js:48-59 | Without `sizes` and `width`, the key is the trimmed `src`, then the separator, then `enhanced`. |
| CacheKey.HintsDistinguishKeys | packages/enhanced-img/src/preprocessor.js:48-59 | For one path and an injective encoder that never emits `&`, two keys are equal exactly when their `sizes` hints and their `width` hints are equal. |
| Preprocessor.SameSrcSharesKeyIffSameHints | packages/enhanced-img/src/preprocessor.js:48-61 | Under the same encoder conditions, two elements with the same trimmed `src` share a key, and so one registry entry, exactly when their `sizes` and `width` values agree. |
| CacheKey.BuildKey | packages/enhanced-img/src/preprocessor.js:48-59 | The key is the path, then `&` if the path already has a `?` and `?` otherwise, then the `imgSizes` hint, then the `imgWidth` hint, then `enhanced`. |
| CacheKey.KeySuffix | packages/enhanced-img/src/preprocessor.js:52-59 | The text added to the path starts with the separator, ends with `enhanced`, and holds exactly the two hints between them. |
| CacheKey.KeyPath | packages/enhanced-img/src/preprocessor.js:48-59 | The key's text before its first `?` equals the path's text before its first `?`. |
| CacheKey.Optimizable | packages/enhanced-img/src/preprocessor.js:71 | A key that passes the test has a `.` inside its part before the first `?`, with at least one character before that dot. `OptimizableIsRegex` equates the test with the regular expression on line 8. |
| CacheKey.OptimizableIsRegex | packages/enhanced-img/src/preprocessor.js:8 | The extension test used by the model holds exactly when the string matches a direct transcription of the `OPTIMIZABLE` regular expression. |
| CacheKey.OptimizableJpeg | packages/enhanced-img/src/preprocessor.js:8 | `./cat.jpg?enhanced` is optimizable. |
| CacheKey.UpperCaseExtensionNotOptimizable | packages/enhanced-img/src/preprocessor.js:8 | Matching is case-sensitive: an extension ending in an upper-case letter is never optimizable. |
| CacheKey.NotOptimizableEmptyStem | packages/enhanced-img/src/preprocessor.js:8 | `.png?enhanced` is not optimizable: the stem before the dot must be non-empty. |
| CacheKey.OptimizableIgnoresHints | packages/enhanced-img/src/preprocessor.js:52-71 | If the encoder never emits a line terminator, the key is optimizable exactly when the path's part before its first `?` has an optimizable extension and the rest of the path has no line terminator. The hints never matter. |
| Preprocessor.RewriteKindFollowsSrc | packages/enhanced-img/src/preprocessor.js:48-71 | The choice between a whole-element and a `src`-only rewrite depends only on the trimmed `src`, never on `sizes` or `width`. |
| AssetRegistry.AssetName | packages/enhanced-img/src/preprocessor.js:67 | The n-th identifier is `___ASSET___` followed by the decimal digits of n. |
| AssetRegistry.AssetNamesDistinct | packages/enhanced-img/src/preprocessor.js:67 | Different counts give different identifiers. |
| AssetRegistry.Lookup | packages/enhanced-img/src/preprocessor.js:61 | A hit points at an entry with that key. A miss happens exactly when no entry has the key. |
| AssetRegistry.Register | packages/enhanced-img/src/preprocessor.js:67-68 | Appends one entry named after the registry's current size. The keys grow by exactly the new key, earlier entries stay unchanged, and validity is kept. |
| AssetRegistry.ValidNamesUnique | packages/enhanced-img/src/preprocessor.js:67-68 | In a valid registry, no two entries share an identifier. |
| Preprocessor.FindOrRegister | packages/enhanced-img/src/preprocessor.js:61-69 | A hit returns the registry unchanged with the stored identifier. A miss returns `resolve`'s error, or nothing when the descriptor is absent or falsy, or the registry extended by exactly `(key, ___ASSET___<size>, descriptor)`. |
| Preprocessor.CachedKeyNeedsNoResolve | packages/enhanced-img/src/preprocessor.js:61-62 | A key already registered gives the same result under any pipeline and importer, so nothing is resolved, and the registry is unchanged. |
| Preprocessor.UncachedKeyOutcomes | packages/enhanced-img/src/preprocessor.js:62-68 | For a new key: a `resolve` error aborts the element with the registry as it was. An absent or falsy descriptor leaves the registry and the edits alone. A descriptor is appended under the next identifier. |
| Preprocessor.Rewrite | packages/enhanced-img/src/preprocessor.js:71-76 | An optimizable key replaces the node range `[node.start, node.end)` with the `<picture>` fragment built from the entry's identifier. Any other key replaces only `[src.start, src.end)`, with the environment's replacement text for the registered entry. |
| Preprocessor.SrcOnlyRewriteTexts | packages/enhanced-img/src/preprocessor.js:73-76 | For a non-optimizable key, the `src` value becomes `{[object Object]}` in the environment as written, and `{identifier}` in the corrected one. |
| Preprocessor.RegisteredSrcOnlyText | packages/enhanced-img/src/preprocessor.js:61-76 | A key already registered at position i leaves the registry unchanged and replaces `src` with the replacement text of entry i. In the corrected environment, that is `{___ASSET___<i>}`. |
| Preprocessor.SrcVariable | packages/enhanced-img/src/preprocessor.js:41-43 | The variable name is the text strictly between the braces with its surrounding white space trimmed. It neither starts nor ends with white space. |
| Preprocessor.DynamicRewrite | packages/enhanced-img/src/preprocessor.js:40-46 | A dynamic `src` replaces the whole node range with the `{#if}` fragment built from the braced variable name. |
| Preprocessor.DynamicSrcIgnoresRegistry | packages/enhanced-img/src/preprocessor.js:40-46 | A dynamic `src` leaves the registry unchanged, and its edits do not depend on the registry, the pipeline or the importer. |
| Preprocessor.LiteralRewrite | packages/enhanced-img/src/preprocessor.js:48-76 | The registry changes only for a new, obtainable key. Its keys then grow by exactly that key, and at most one entry is added. |
| Preprocessor.UpdateElement | packages/enhanced-img/src/preprocessor.js:38-77 | The step only appends to the registry, keeps it valid and keeps the edits in document order. |
| Preprocessor.EnterNode | packages/enhanced-img/src/preprocessor.js:85-94 | The same, for any node. Elements other than `enhanced:img`, and those without a `src` value, leave the registry and the edits exactly as they were. |
| Preprocessor.Enter | packages/enhanced-img/src/preprocessor.js:81-95 | The visitor given to the walk only extends the registry and keeps every edit list in order. |
| TemplateWalk.Walk | packages/enhanced-img/src/preprocessor.js:81-95 | The registry at the end of a walk extends the one at the start and stays valid. |
| TemplateWalk.WalkKeepsOrder | packages/enhanced-img/src/preprocessor.js:81-95 | A successful walk returns edits in document order. |
| TemplateWalk.WalkInert | packages/enhanced-img/src/preprocessor.js:85-94 | A walk over nodes its visitor ignores changes nothing. |
| TemplateWalk.WalkRegisters | packages/enhanced-img/src/preprocessor.js:81-95 | In a successful walk, every node whose image the visitor registers has its key in the final registry. |
| TemplateWalk.WalkAddsOnly | packages/enhanced-img/src/preprocessor.js:81-95 | Every key the walk adds is the wanted key of some node. |
| TemplateWalk.AddedByOwnNode | packages/enhanced-img/src/preprocessor.js:81-95 | A key that is absent before node i and present after it is the key the visitor wants for node i. |
| TemplateWalk.WalkRegistersInOrder | packages/enhanced-img/src/preprocessor.js:81-95 | A key first added at node i sits in the final registry before a key first added at a later node j, wherever each appears. |
| Preprocessor.ElementRegistersImage | packages/enhanced-img/src/preprocessor.js:61-69 | If an element's descriptor is obtainable and its step succeeds, its key is registered afterwards. |
| Preprocessor.ElementAddsOnlyItsImage | packages/enhanced-img/src/preprocessor.js:61-69 | An element only ever adds its own key, and only when that key's descriptor is obtainable. |
| Preprocessor.EnterRegistersWanted | packages/enhanced-img/src/preprocessor.js:85-94 | Whenever the visitor's step succeeds on a target whose descriptor is obtainable, that target's key is registered. The only key the visitor adds for a node is that node's own. |
| Preprocessor.WalkRegistersEveryImage | packages/enhanced-img/src/preprocessor.js:81-95 | After a successful walk, each target element whose descriptor is obtainable has its key registered. |
| Preprocessor.WalkRegistersOnlyImages | packages/enhanced-img/src/preprocessor.js:81-95 | Each new key in the registry belongs to some target element and names an obtainable descriptor. |
| Preprocessor.ImagesRegisteredInDocumentOrder | packages/enhanced-img/src/preprocessor.js:61-95 | Identifiers follow document order: keys first added at nodes i < j are those nodes' image keys, and the first sits before the second in the registry. |
| Preprocessor.WalkWithoutTargets | packages/enhanced-img/src/preprocessor.js:86-92 | Without a target element that has a `src` value, the walk produces no edits and registers nothing. |
| Preprocessor.ProcessMarkup | packages/enhanced-img/src/preprocessor.js:25-115 | One `markup` call extends and keeps valid the registry it is given. The registry afterwards is the walk's, or the incoming one on the fast path. |
| Preprocessor.ProcessFiles | packages/enhanced-img/src/preprocessor.js:22 | Across a sequence of files, the one registry only ever grows and stays valid. |
| Preprocessor.NamesUniqueAcrossFiles | packages/enhanced-img/src/preprocessor.js:22-68 | Starting from an empty registry, all entries across all files have distinct identifiers and distinct keys. |
| Preprocessor.NoImagesNoChange | packages/enhanced-img/src/preprocessor.js:26-114 | With an empty registry and no target element, a file without `<enhanced:img` gives no output, and a file that mentions it gives back exactly its own text. |
| Preprocessor.EarlierImagesHoistedAgain | packages/enhanced-img/src/preprocessor.js:98-108 | When an earlier file left entries, a later file that mentions the tag but has no target element still gets every earlier declaration. They go at the start of its instance script, or into a `<script>` at the end. |
| Preprocessor.HoistedScriptHoldsEveryDeclaration | packages/enhanced-img/src/preprocessor.js:98-107 | Without an instance script, the output ends with one `<script>` holding the declarations, and it contains every entry's declaration. |
| Preprocessor.Hoist | packages/enhanced-img/src/preprocessor.js:97-112 | With nothing registered, the output is the edited text with nothing inserted or appended. Hoisting fails exactly when something is registered, there is an instance script, and its start lies strictly inside a range the walk overwrote. Otherwise there is output, and when something is registered it contains the declarations. |
| Preprocessor.HoistIntoInstanceScript | packages/enhanced-img/src/preprocessor.js:102-104 | With an instance script and a non-empty registry, hoisting succeeds exactly when the script's start is not inside an overwritten range. The output is then the original text with the walk's edits and the declarations inserted at the script's start. |
| Preprocessor.HoistedInstanceScriptHoldsEveryDeclaration | packages/enhanced-img/src/preprocessor.js:97-104 | With an instance script whose start the walk did not overwrite, every entry's declaration occurs in the output, alongside the walk's rewrites. |
| Edits.ApplyHoldsText | packages/enhanced-img/src/preprocessor.js:104-112 | Rendering ordered edits keeps every edit's text: it occurs somewhere in the output. |
| AssetRegistry.HoistText | packages/enhanced-img/src/preprocessor.js:99-101 | The hoisted text is empty exactly when nothing is registered. `HoistTextAt` places each entry's declaration in it. |
| AssetRegistry.Declaration | packages/enhanced-img/src/preprocessor.js:100 | A declaration names its entry's identifier right after `const ` and ends with `;`. |
| AssetRegistry.HoistTextConcat | packages/enhanced-img/src/preprocessor.js:99-102 | The hoisted text of a grown registry is the old text followed by the new entries' text, so declarations follow registration order. |
| AssetRegistry.HoistTextAt | packages/enhanced-img/src/preprocessor.js:99-102 | Entry i's declaration sits between the declarations of the entries before it and those after it. |
| Edits.Update | packages/enhanced-img/src/preprocessor.js:72-75 | An overwrite is accepted exactly for a non-empty, in-bounds range that starts at or after the end of the last edit. It then appends that edit. Otherwise it is rejected with that range. |
| Edits.AppendLeft | packages/enhanced-img/src/preprocessor.js:105 | An insertion is refused exactly when it falls strictly inside an overwritten range. Otherwise it is placed among the edits in position order, and the order is kept. |
| Edits.Apply | packages/enhanced-img/src/preprocessor.js:112 | The output is as long as the original plus, for each edit, the length of its text minus the length of the range it covers. `ApplyIsSpliceBackwards` relates it to splicing the edits in one by one. |
| Edits.ApplyIsSpliceBackwards | packages/enhanced-img/src/preprocessor.js:112 | Applying ordered edits front to back equals splicing them into the original one by one from the last. |
| Preprocessor.ApplyInsertion | packages/enhanced-img/src/preprocessor.js:105 | A lone insertion at p gives the text before p, then the inserted text, then the rest. |
| Resolver.Resolve | packages/enhanced-img/src/preprocessor.js:128-145 | No resolved id gives "absent" and no error. A resolved id with no `load` hook fails with a missing-load error. A falsy module fails with could-not-load for that id. Otherwise the result is the parse of the stripped module text. |
| Resolver.ModuleCode | packages/enhanced-img/src/preprocessor.js:140-143 | A string and a `{code}` module give their text. A missing module or an empty string counts as falsy. |
| Resolver.SourceAndModuleAlike | packages/enhanced-img/src/preprocessor.js:143 | A non-empty string module and a `{code}` module with the same text resolve to the same result. |
| Resolver.StripModule | packages/enhanced-img/src/preprocessor.js:144 | Stripping never lengthens the module text, and text with no `export default` and no final `;` comes back unchanged. `StripModuleRoundTrip` gives back X from `export default X;`. |
| Resolver.StripModuleRoundTrip | packages/enhanced-img/src/preprocessor.js:144 | Stripping `export default` and the final `;` from `export default X;` gives back X. |
| Resolver.ParseObject | packages/enhanced-img/src/preprocessor.js:150-152 | The JSON parser is applied to the normalised text. Its only failure is a malformed-descriptor error. |
| PseudoJson.Normalize | packages/enhanced-img/src/preprocessor.js:151 | The normalised text is never shorter than the input, and text with no `{`, `:` or `,` comes back unchanged. `NormalizeOnlyAddsQuotes` states that only quotes are added. |
| PseudoJson.NormalizeOnlyAddsQuotes | packages/enhanced-img/src/preprocessor.js:151 | Deleting every `"` from the normalised text and from the input gives the same string. |
| PseudoJson.NormalizeQuotesKeys | packages/enhanced-img/src/preprocessor.js:151 | In the normalised text, every `{` is followed by `"` and every `:` is preceded by `"`. |
| Fragments.AttributeTexts | packages/enhanced-img/src/preprocessor.js:174-179 | One entry per attribute, in order. |
| Fragments.SrcAlwaysRewritten | packages/enhanced-img/src/preprocessor.js:175-178 | An attribute named `src` always becomes `src={V.img.src}`. Every other attribute is copied verbatim from the document. |
| Fragments.AttributesToMarkup | packages/enhanced-img/src/preprocessor.js:173-193 | Every entry occurs in the space-joined text: the attribute texts, then `imgWidth` and `imgHeight` when the element has no `width` or `height`. `MarkupEntries` states which entries there are. |
| Fragments.MarkupEntries | packages/enhanced-img/src/preprocessor.js:181-192 | The attribute entries come first. `imgWidth={V.img.w}` and `imgHeight={V.img.h}` follow exactly when no attribute is named `width` or `height`. |
| Fragments.SplitSizes | packages/enhanced-img/src/preprocessor.js:203-208 | Without `sizes`, nothing is moved. Otherwise the first `sizes` attribute's verbatim text is taken, and one attribute fewer remains. |
| Fragments.SplitSizesRemovesFirstOnly | packages/enhanced-img/src/preprocessor.js:203-207 | Only the first `sizes` attribute is removed: putting it back at its index restores the list, and nothing before it is named `sizes`. |
| Fragments.SplitSizesKeepsLayout | packages/enhanced-img/src/preprocessor.js:181-189 | Removing `sizes` never changes whether `width` or `height` is present. |
| Fragments.ImgToPicture | packages/enhanced-img/src/preprocessor.js:200-216 | The fragment opens with `<picture>` and the `{#each}` loop over the identifier's `sources`. `PictureMovesSizes` states where `sizes` goes. |
| Fragments.PictureMovesSizes | packages/enhanced-img/src/preprocessor.js:210-215 | The picture holds `<source {srcset}` followed at once by the `sizes` text, and an `<img>` built from the remaining attributes. |
| Fragments.DynamicImgToPicture | packages/enhanced-img/src/preprocessor.js:224-230 | The fragment opens with `{#if typeof V === 'string'}` for the variable V. `DynamicHoldsBothBranches` and `DynamicBranchesSplitSizes` state what its two branches hold. |
| Fragments.DynamicHoldsBothBranches | packages/enhanced-img/src/preprocessor.js:224-230 | The dynamic fragment holds an `<img>` built from all attributes and the element's whole `<picture>`. |
| Fragments.DynamicBranchesSplitSizes | packages/enhanced-img/src/preprocessor.js:224-230 | The plain branch keeps the `sizes` text at its position. The picture's inner `<img>` has the same entries with that one removed. |
| Fragments.SrcOnlyText | packages/enhanced-img/src/preprocessor.js:74 | The replacement for a non-optimizable `src` is the identifier in braces. |
| Fragments.SrcOnlyTextAsWritten | packages/enhanced-img/src/preprocessor.js:75 | The text as written is wrapped in braces and holds no `_`, so no `___ASSET___` identifier can appear in it. `SrcOnlyTextAsWrittenLosesName` compares it with the identifier. |
| Fragments.SrcOnlyTextAsWrittenLosesName | packages/enhanced-img/src/preprocessor.js:75 | The text as written is the same for every entry, and for every registered identifier `___ASSET___<n>` it differs from that identifier in braces. |

## Left out

- Markup parsing (`svelte-parse-markup`) is not part of this model. The input is the parsed nodes in the walk's visit order. Each node has a type, name, range, attributes and value tokens, plus the position of the instance script's content.
- `asyncWalk` and `await` are not modelled. The walk is a sequential fold because each element is awaited before the next.
  - The `images.get(url) ||` re-check on line 67 only matters when two resolutions interleave. The model always takes the new identifier.
  - Concurrent `markup` calls that share one map are not modelled.
- `MagicString` internals are not modelled, and neither is `generateMap`, so no source maps. Edits are a list of ranges over the original text. Every refusal is collapsed into one `EditRejected` error:
  - an empty range;
  - an out-of-bounds range;
  - an overwrite that does not follow the earlier edits;
  - an insertion inside an overwritten range.

  The walk issues overwrites in document order, so out-of-order edits that `MagicString` would accept are not modelled.
- `JSON.parse`, `JSON.stringify`, `encodeURIComponent` and JavaScript truthiness are oracles. Descriptors stay opaque.
- The bundler's `resolve` and the imagetools `load` hook are oracles too. This includes the object-hook `handler` and the `this` it is called with, which are only seen through `load`'s result.
- `filename` only serves as the importer passed to `resolve`. Its use by the parser is not modelled.
- The registry's lifetime follows the code: one map per `image(opts)`, kept across files. The consequence is modelled in `EarlierImagesHoistedAgain`.
- A file with the tag but no images returns the unchanged text, not "no output". This also follows the code.
- `Preprocessor.ProcessMarkup`: the contract only relates the registry to the walk's. The output text is stated by the lemmas about the fast path and hoisting, not by this member.
- `Preprocessor.HoistedScriptHoldsEveryDeclaration`: stated about the hoisting step for any edit list, not about the full `markup` output.
- The `svelte-4` migration tool is not part of this model. It is command-line plumbing.
- Text is a sequence of Unicode scalar values, while JavaScript strings and the parser's offsets count UTF-16 code units. The model agrees with the code only for components without characters outside the Basic Multilingual Plane (surrogate pairs). For other text, `start`/`end` offsets would not index the content as they do in the code.

## Findings

| source | as written | input that shows it | evidently intended | confidence | as-written member | corrected member |
|---|---|---|---|---|---|---|
| packages/enhanced-img/src/preprocessor.js:75 | The `src` value is replaced by `{${details}}`. This interpolates the whole `{ name, image }` record, which renders as `{[object Object]}`. | `<enhanced:img src="./foo.svg" />` with any descriptor | `{___ASSET___0}`, the registered identifier in braces, as the comment on line 74 says | not executed | Fragments.SrcOnlyTextAsWrittenLosesName, with the driver run under `Preprocessor.AsWritten` (`Preprocessor.SrcOnlyRewriteTexts`) | Fragments.SrcOnlyText, with the driver run under `Preprocessor.Corrected` |
