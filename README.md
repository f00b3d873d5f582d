# rollup-plugin-add-userscript-header, modelled in Dafny

This project models the Rollup output plugin that puts a userscript metadata block
(`// ==UserScript==` … `// ==/UserScript==`) at the top of every generated chunk.
The model follows `src/plugin.ts` and the `Array.prototype.dedupe` helper in
`src/extension/array.extension.ts`. It covers these steps:

- The repository helpers `getRepo` and `getActualUrl`.
- `getMetadata`, which starts from package.json's `userscriptMetadata` and fills in
  defaults for `grant`, six top-level fields, `downloadURL` and `updateURL`.
- The `Identifier` visitor, which appends grant tokens to `meta.grant`.
- `Program.exit`. It seeds `"none"`, takes the override grants from the plugin options
  and deletes them there, then runs `Object.assign`. After that it stable-sorts the
  entries by their rank in `META_ORDER`, expands each value by its type, resolves
  `require`/`resource` URLs, and sorts and dedupes every list. Finally it renders,
  pads, trims and joins the lines.
- The sentinel wrapping at the end of `getHeader`.
- The `generateBundle` loop. It rewrites each chunk's code in place, and every chunk
  shares one options object.

Modules, one file each:

- `Wrappers`: `Option`, `Result`.
- `JsString`: the string built-ins the code uses.
  - `startsWith`, `endsWith`, `padEnd`, `trimEnd` and `join`.
  - The default order of `Array.prototype.sort` (lexicographic by character), with
    its order laws.
  - That sort as a sorted permutation.
- `ArrayExtension`: `dedupe`. It works on sequences of `Option<T>`, where `None` is
  `undefined`.
- `Record`: a JavaScript object as an insertion-ordered list of entries with distinct
  keys.
  - Property read and write.
  - `delete`.
  - `Object.assign`.
- `PackageJson`: package.json contents as a value, plus `getRepo` and `getActualUrl`.
- `Metadata`: `getMetadata`. It is both a specification function and a method that
  assigns field by field, as the source does.
- `Scanner`: the `Identifier` rule over a sequence of identifier occurrences.
- `Serializer`: the rendering chain of `Program.exit` (lines 123-163) and the wrapping
  at line 168.
- `Plugin`:
  - `PluginOptions`, a class whose `meta` field is changed in place.
  - `HeaderRun`, a class that holds the `meta` record of one `getHeader` call. Its
    `Identifier` and `Exit` methods change that record.
  - `GetHeader`, which drives the run.
  - `GenerateBundle`, which loops over an array of output files.

## Model

| member | source | states |
|---|---|---|
| PackageJson.RepositoryUrl | src/plugin.ts:56-58 | the URL is absent exactly when there is no repository, or when it is an object without `url` |
| PackageJson.StripGit | src/plugin.ts:59 | the result is the URL with at most a leading `git+` and at most a trailing `.git` removed |
| PackageJson.StripGitRoundTrip | src/plugin.ts:59 | wrapping a URL in `git+`…`.git` and stripping gives the URL back |
| PackageJson.StripGitClean | src/plugin.ts:59 | a URL with neither affix is returned unchanged |
| PackageJson.GetRepo | src/plugin.ts:55-60 | `null` exactly when no repository URL exists; otherwise the stripped URL |
| PackageJson.RepoTruthy | src/plugin.ts:41 | truthiness of `getRepo`'s result: false for `null` and `""`; a predicate, used by `PackageJson.GetActualUrl` and `Metadata.MetadataOf` |
| PackageJson.GetActualUrl | src/plugin.ts:69-72 | an `http…` URL, or any URL when the repo is null or empty, is kept; otherwise the result is `repo + "/" + url` |
| PackageJson.ActualUrlEndsWithReference | src/plugin.ts:69-72 | the resolved URL always ends with the reference |
| PackageJson.ActualUrlIdempotent | src/plugin.ts:69-72 | with an `http` repository, resolving twice equals resolving once |
| Metadata.GetMetadata | src/plugin.ts:29-47 | the field-by-field loop produces exactly the record `MetadataOf` describes |
| Metadata.Default | src/plugin.ts:36 | after `meta[k] = meta[k] ?? v` the key is present, a defined value is never overwritten, an undefined one becomes `v`, and no other key changes |
| Metadata.DefaultFields | src/plugin.ts:34-37 | the forEach over the top-level fields; no contract of its own, specified by `Metadata.DefaultFieldsAt` (every key's value and presence) and `Metadata.DefaultFieldsKeyOrder` (the exact key sequence) |
| Metadata.UserMetadata | src/plugin.ts:30 | `packageJson.userscriptMetadata ?? {}`; no contract of its own, used by `Metadata.MetadataOtherFields` and `Metadata.MetadataKeyOrder` |
| Metadata.BaseMetadata | src/plugin.ts:30-37 | the record after the `grant` and top-level defaults; no contract of its own, specified by `Metadata.BaseMetadataGet`, `Metadata.BaseMetadataHas` and `Metadata.BaseMetadataKeys` (values, presence and the exact key sequence) |
| Metadata.DownloadUrl | src/plugin.ts:42 | the default `downloadURL` text; no contract of its own, used by `Metadata.MetadataUrlsDefaulted` |
| Metadata.MetadataOf | src/plugin.ts:29-47 | with a truthy repository neither `downloadURL` nor `updateURL` is left undefined; the rest of its contents are given by the `Metadata` lemmas below |
| Metadata.TemplateText | src/plugin.ts:42 | the text a template literal makes of `packageJson.main`: `undefined`, `true`/`false`, the string, or the comma-joined array; a plain function with no contract |
| Metadata.DefaultExtends | src/plugin.ts:36 | `meta[e] = meta[e] ?? v` keeps every existing key in place (a new key goes at the end) and keeps keys distinct |
| Metadata.DefaultFieldsAt | src/plugin.ts:34-37 | after the forEach, a field already set keeps its value, an unset listed field takes the package.json value, and other fields are unchanged |
| Metadata.DefaultFieldsKeys | src/plugin.ts:34-37 | the forEach only appends keys and keeps them distinct |
| Metadata.DefaultFieldsKeyOrder | src/plugin.ts:34-37 | for distinct fields, the keys after the forEach are the record's keys followed by the listed fields it lacked, in list order |
| Metadata.DefaultKeyOrder | src/plugin.ts:36 | `meta[e] = meta[e] ?? v` appends `e` exactly when it was missing |
| Metadata.DefaultAfter | src/plugin.ts:42-43 | a default of a key outside the keys defaulted so far appends it, when missing, after them |
| Metadata.DefaultThenFields | src/plugin.ts:31-37 | the `grant` default followed by the forEach appends the missing keys of `[k] + fields`, in that order |
| Metadata.TopFieldsDistinct | src/plugin.ts:34 | the six top-level field names are distinct, and none is `grant` |
| Metadata.BaseMetadataGet | src/plugin.ts:30-37 | every field's value after `grant` and the six fields have been defaulted |
| Metadata.BaseMetadataHas | src/plugin.ts:30-37 | which fields are present after `grant` and the six fields have been defaulted |
| Metadata.BaseMetadataKeys | src/plugin.ts:30-37 | the keys are exactly the user's keys, then `grant` if it was missing, then the missing ones of name, version, author, description, license and homepage in that order; distinct keys stay distinct |
| Metadata.MetadataOfBase | src/plugin.ts:39-46 | the URL step changes no field except `downloadURL` and `updateURL` |
| Metadata.MetadataTopFields | src/plugin.ts:34-37 | each of the six fields is present: the user's value when set, otherwise package.json's |
| Metadata.MetadataGrant | src/plugin.ts:31 | `grant` is present, and becomes `[]` only when it was undefined |
| Metadata.BaseMetadataUrls | src/plugin.ts:30-37 | the first steps leave the URL fields as the user set them |
| Metadata.MetadataUrlsDefaulted | src/plugin.ts:40-44 | with a truthy repo, `downloadURL` defaults to `<repo>/releases/latest/download/<main>`, and `updateURL` defaults to the resulting `downloadURL` |
| Metadata.MetadataUrlsKept | src/plugin.ts:40-44 | without a truthy repo both URL fields are left as the user set them |
| Metadata.MetadataOtherFields | src/plugin.ts:29-47 | every other field is the user's, untouched |
| Metadata.MetadataKeyOrder | src/plugin.ts:29-47 | the keys are exactly the user's keys, then the missing ones of `grant`, the six top-level fields, and (only with a truthy repository URL) `downloadURL` and `updateURL`, in that order; distinct keys stay distinct |
| Metadata.MetadataUrlKeys | src/plugin.ts:40-44 | with a truthy repository URL, the missing ones of `downloadURL` and `updateURL` follow the keys of the base record, in that order |
| Metadata.UrlKeysFresh | src/plugin.ts:31-43 | `downloadURL` is not `grant` or a top-level field, and `updateURL` is none of those nor `downloadURL` |
| Metadata.TwoDefaultsKeys | src/plugin.ts:42-43 | the two URL defaults, over any record: the missing of the two keys are appended in order |
| Scanner.Tokens | src/plugin.ts:89-106 | the tokens one identifier pushes, in push order; no contract of its own, specified by `Scanner.TokensSpec` |
| Scanner.IsWindowMember | src/plugin.ts:99 | `/^(close|focus|onurlchange)$/`; a predicate, used by `Scanner.TokensSpec` |
| Scanner.IsGmFunction | src/plugin.ts:104 | `/^GM_.+$/`: `GM_` then at least one character that is not a line terminator; a predicate, used by `Scanner.TokensSpec` |
| Scanner.IsBareGrant | src/plugin.ts:104 | `unsafeWindow` or a `GM_` name; a predicate, used by `Scanner.TokensSpec` |
| Scanner.TokensSpec | src/plugin.ts:89-106 | exactly one token per rule that fires, so at most two, and nothing else: each token is `GM.<n>`, `window.<n>` or `<n>`. `GM.<n>` is produced iff the parent is a member expression on `GM`. `window.<n>` iff it is on `window` and `n` is close, focus or onurlchange. The bare name iff it is `unsafeWindow` or matches `^GM_.+$`. With two tokens the member token comes first and the bare name second |
| Scanner.TokensOf | src/plugin.ts:89-106 | the tokens of a whole traversal, identifier by identifier in visit order; specified by `Scanner.TokensOfOne` and `Scanner.TokensOfAppend`, which together fix it on every traversal, and `Scanner.TokensOfShape` |
| Scanner.TokensOfOne | src/plugin.ts:97-105 | visiting one identifier pushes exactly that identifier's tokens |
| Scanner.TokensOfAppend | src/plugin.ts:97-105 | the tokens of a concatenated traversal are the tokens of each part, in visit order |
| Scanner.TokensOfShape | src/plugin.ts:89-106 | every scanned token has a grant shape; at most two per identifier |
| Scanner.GmObjectYieldsGmGm | src/plugin.ts:93-97 | the `GM` object identifier in `GM.x` itself yields `GM.GM` |
| Scanner.WindowAlertIgnored | src/plugin.ts:99-100 | `window.alert` yields no token |
| JsString.PadEnd | src/plugin.ts:162 | the length is `max(|s|, width)`; the string is kept as a prefix; the rest is spaces |
| JsString.StartsWith | src/plugin.ts:71 | `s.startsWith(p)`; a predicate, used by `PackageJson.GetActualUrl` and `Serializer.WrapShape` |
| JsString.TrimEnd | src/plugin.ts:162 | the result is a prefix ending in a non-whitespace character; everything removed is whitespace |
| JsString.Join | src/plugin.ts:163 | joining no parts gives the empty string; joining one part gives that part |
| JsString.Less | src/plugin.ts:157 | the default order of `.sort()` on strings; a predicate, its laws are the `JsString.Less…` lemmas below |
| JsString.LessIrreflexive | src/plugin.ts:157 | the default sort order is irreflexive |
| JsString.LessTransitive | src/plugin.ts:157 | the default sort order is transitive |
| JsString.LessTotal | src/plugin.ts:157 | the default sort order is total |
| JsString.LessAsymmetric | src/plugin.ts:157 | the default sort order is asymmetric |
| JsString.LessEqAntisymmetric | src/plugin.ts:157 | the non-strict order is antisymmetric |
| JsString.LessEqTransitive | src/plugin.ts:157 | the non-strict order is transitive |
| JsString.LessFromFirstDifference | src/plugin.ts:157 | strings compare by their first differing character |
| JsString.InsertSorted | src/plugin.ts:157 | inserting into a sorted list keeps it sorted |
| JsString.Insert | src/plugin.ts:157 | insertion adds exactly one element (multiset) |
| JsString.Sort | src/plugin.ts:157 | `.sort()` returns a sorted permutation of its input |
| ArrayExtension.Defined | src/extension/array.extension.ts:10 | no `undefined` is left; exactly the defined elements remain; not longer than the input |
| ArrayExtension.UniqueFrom | src/extension/array.extension.ts:12 | the Set step gives distinct elements: exactly those not already seen |
| ArrayExtension.Unique | src/extension/array.extension.ts:12 | `[...new Set(xs)]` has every element of `xs`, each once |
| ArrayExtension.Dedupe | src/extension/array.extension.ts:9-12 | no `undefined`; no two equal elements; an element is in the result iff it is a defined element of the input; not longer than the input |
| ArrayExtension.UniqueFromKeepsFirstOrder | src/extension/array.extension.ts:12 | Set insertion order: result elements appear in the order of their first occurrence |
| ArrayExtension.DefinedKeepsOrder | src/extension/array.extension.ts:10 | `filter` keeps the relative order of first occurrences |
| ArrayExtension.DedupeKeepsFirstOrder | src/extension/array.extension.ts:9-12 | `dedupe` keeps first occurrences in input order |
| ArrayExtension.UniqueFromOfDistinct | src/extension/array.extension.ts:12 | a Set over distinct, unseen elements changes nothing |
| ArrayExtension.DefinedOfDefined | src/extension/array.extension.ts:10 | filtering an array with no `undefined` changes nothing |
| ArrayExtension.DedupeIdempotent | src/extension/array.extension.ts:9-12 | `dedupe(dedupe(x)) == dedupe(x)` |
| ArrayExtension.Lift | src/extension/array.extension.ts:11 | a string array seen as defined values, element by element |
| ArrayExtension.Values | src/extension/array.extension.ts:12 | the defined values of the result, exactly |
| ArrayExtension.UniqueFromLift | src/extension/array.extension.ts:11-12 | for strings the JSON round trip is the identity, so deduping the lifted array is lifting the deduped one |
| ArrayExtension.ValuesLift | src/extension/array.extension.ts:11-12 | lifting then taking the values is the identity |
| ArrayExtension.DedupeLift | src/extension/array.extension.ts:9-12 | on strings, `dedupe` is first-occurrence uniqueness |
| ArrayExtension.UniqueFromSorted | src/extension/array.extension.ts:12 | on a sorted input the Set step gives a strictly ascending list |
| ArrayExtension.DedupeSorted | src/extension/array.extension.ts:9-12 | on a sorted string array `dedupe` gives a strictly ascending list |
| Record.Keys | src/plugin.ts:123 | `Object.entries` lists the keys in insertion order |
| Record.HasIsInKeys | src/plugin.ts:123 | a key is present iff `Object.entries` lists it |
| Record.Has | src/plugin.ts:123 | whether a key is present; no contract of its own, specified by `Record.HasIsInKeys` |
| Record.GetCons | src/plugin.ts:123 | reading from a record with one more entry in front: that entry for its key, the rest for every other key |
| Record.Get | src/plugin.ts:36 | reading a missing key gives `undefined`; reading a present key gives a value stored under it |
| Record.Set | src/plugin.ts:97 | after assigning `k`, reading `k` gives the new value, and every other key reads and exists as before |
| Record.SetKeys | src/plugin.ts:117 | assigning an existing key keeps the key order; a new key is appended; keys stay distinct |
| Record.Remove | src/plugin.ts:118 | after `delete`, `k` is absent and reads `undefined`; every other key is unchanged; keys stay distinct |
| Record.NewKeys | src/plugin.ts:120 | the keys of the source that the target lacks, in the source's order |
| Record.NewKeysOne | src/plugin.ts:36 | one candidate key is new exactly when it is not among the existing keys |
| Record.NewKeysAppend | src/plugin.ts:34-37 | the new keys of a concatenation are those of each part, in order |
| Record.NewKeysSame | src/plugin.ts:34-37 | two key lists that agree on every candidate give the same new keys |
| Record.NewKeysPast | src/plugin.ts:31-37 | keys appended earlier from other candidates do not change which of the later candidates are new |
| Record.NewKeysThen | src/plugin.ts:31-44 | appending the new keys of `base`, then those of `ks`, appends the new keys of `base + ks` |
| Record.Assign | src/plugin.ts:120 | `Object.assign` never removes a key of the target; its values and key order are given by `Record.AssignAt`, `Record.AssignValues` and `Record.AssignKeys` |
| Record.AssignDistinct | src/plugin.ts:120 | `Object.assign` keeps the target's keys distinct |
| Record.AssignAt | src/plugin.ts:120 | after `Object.assign`, a key reads the source's value when the source has it and the target's otherwise; it exists iff either has it |
| Record.AssignValues | src/plugin.ts:120 | the same for every key at once |
| Record.AssignKeys | src/plugin.ts:120 | the target keys keep their places; new source keys are appended in source order |
| Serializer.Rank | src/plugin.ts:125 | `META_ORDER.indexOf(k)` is between -1 and `|order|-1`, and -1 exactly for keys not in the order |
| Serializer.RankIsFirstIndex | src/plugin.ts:125 | for a listed key, the rank is its first index |
| Serializer.InsertByRank | src/plugin.ts:125 | insertion adds exactly one entry (multiset) |
| Serializer.InsertByRankSorted | src/plugin.ts:125 | inserting into a rank-sorted list keeps it rank-sorted |
| Serializer.SortByRank | src/plugin.ts:125 | the sort returns a permutation of the entries, ordered by rank |
| Serializer.ConsDistinct | src/plugin.ts:123-125 | an entry in front of a record lacking its key keeps the keys distinct |
| Serializer.InsertByRankDistinct | src/plugin.ts:125 | inserting an entry with a new key keeps the keys distinct and every key's value |
| Serializer.SortByRankDistinct | src/plugin.ts:125 | the sort keeps the keys distinct and every key's value |
| Serializer.InsertWithRank | src/plugin.ts:125 | an inserted entry comes first among the entries of its rank, and the others keep their order |
| Serializer.SortByRankStable | src/plugin.ts:125 | the sort is stable: entries of equal rank keep their relative order |
| Serializer.UnknownKeysFirst | src/plugin.ts:125 | unknown keys (rank -1) come before every known key and keep their insertion order |
| Serializer.SortDedupeMember | src/plugin.ts:156-158 | `.sort().dedupe()` keeps exactly the input's elements |
| Serializer.SortDedupe | src/plugin.ts:156-158 | `.sort().dedupe()` is strictly ascending and has exactly the input's elements |
| Serializer.StrictlyAscendingUnique | src/plugin.ts:156-158 | two strictly ascending lists with the same elements are equal, so the lines of a list are determined by its element set |
| Serializer.EntriesOf | src/plugin.ts:143 | `Object.entries` of a `resource` value: an object's own pairs, or an array's decimal indices with its elements; a plain function with no contract |
| Serializer.ListItems | src/plugin.ts:140-156 | what `tag_entry[1]` holds at line 156, or the `TypeError` of a missing `map` or `sort`; specified through `Serializer.Expand` |
| Serializer.ResourceLines | src/plugin.ts:143-146 | each resource entry becomes `name + " " + resolved url`, in order |
| Serializer.ResourceLinesMembers | src/plugin.ts:143-146 | a line exists iff it comes from some resource entry |
| Serializer.ResourceIndexMembers | src/plugin.ts:143-146 | for an array under `resource`, a line exists iff it is `"<index> <resolved element>"` for some index |
| Serializer.IndexText | src/plugin.ts:143 | `Object.entries` names an array element by its index in decimal: digits only, no leading zero, denoting the index |
| Serializer.ResolveAll | src/plugin.ts:151-153 | each `require` item is resolved, in order |
| Serializer.ResolveAllMembers | src/plugin.ts:151-153 | a resolved item exists iff it comes from some input item |
| Serializer.Expand | src/plugin.ts:128-160 | `undefined` gives no line; a boolean (even false) gives one bare tag; a string gives one line. A list gives its distinct elements, strictly ascending, resolved first for `require`. Under `resource` a list gives `"<index> <url>"` lines (its decimal indices with its resolved elements) and an object gives `"<name> <url>"` lines. An object under any key but `resource` throws a `TypeError` |
| Serializer.ExpandAll | src/plugin.ts:128-161 | the chain succeeds iff every entry's expansion does; what the flattened list holds is given by `Serializer.ExpandAllAppend`, `Serializer.ExpandAllOne` and `Serializer.ExpandAllValuesFor` |
| Serializer.Tagged | src/plugin.ts:159 | `.map(e => [tag_entry[0], e])`: every value paired with the key, in order |
| Serializer.ValuesFor | src/plugin.ts:161 | the values the flattened pairs list under one key, in order: `v` is among them iff `(k, v)` is a pair |
| Serializer.ValuesForAppend | src/plugin.ts:161 | the values under a key of a concatenation are those of the parts, in order |
| Serializer.ValuesForTagged | src/plugin.ts:159 | an entry's tagged values are listed under its own key and under no other |
| Serializer.ValuesForSingle | src/plugin.ts:161-162 | a key with a single value has exactly one pair, and no other pair carries that key |
| Serializer.ExpandAllTail | src/plugin.ts:128-161 | a successful chain succeeds on its first entry and on the rest |
| Serializer.ExpandAllCons | src/plugin.ts:159-161 | the first entry's tagged values come first, then the rest's |
| Serializer.ExpandAllAppend | src/plugin.ts:161 | `.flat()` distributes over a split of the entries: the flattening of `a + b` is that of `a` followed by that of `b` |
| Serializer.ExpandAllOne | src/plugin.ts:159-161 | one entry contributes its expansion, each value tagged with the entry's key |
| Serializer.ExpandAllValuesFor | src/plugin.ts:123-161 | with distinct keys, the flattened pairs hold under each key exactly the expansion of that key's value, in its order, and nothing for an absent key |
| Serializer.SortedPairs | src/plugin.ts:123-161 | sorting by rank first changes none of that: each tag's values are the expansion of its value in the record |
| Serializer.Lines | src/plugin.ts:162 | every flattened pair is rendered by line 162, and every line begins with `// @` |
| Serializer.RenderPrefix | src/plugin.ts:162 | every line begins with `// @` |
| Serializer.RenderValue | src/plugin.ts:162 | with a value not ending in whitespace nothing is trimmed, and a key of 14 or more characters runs straight into the value |
| Serializer.RenderBare | src/plugin.ts:162 | a bare tag loses its padding |
| Serializer.RenderLine | src/plugin.ts:162 | a rendered line begins with `// @`. It is exactly `// @` + padded key + value when the value does not end in whitespace, `// @<key><value>` for keys of 14 or more characters, and `// @<key>` for bare tags |
| Serializer.RawLine | src/plugin.ts:162 | the line before `trimEnd`; no contract of its own, specified by `Serializer.RenderPrefix`, `Serializer.RenderValue` and `Serializer.RenderBare` |
| Serializer.HeaderBody | src/plugin.ts:123-163 | the text between the sentinels, the newline-joined `Serializer.Lines` of the flattened pairs; no contract of its own, specified by `Serializer.SortedPairs` and, for a whole header, `Plugin.HeaderPairs` |
| Serializer.Wrap | src/plugin.ts:168 | the finished header; specified by `Serializer.WrapShape` and `Serializer.WrapFrames` |
| Serializer.WrapShape | src/plugin.ts:168 | the header starts with `// ==UserScript==\n` and ends with `\n// ==/UserScript==` |
| Serializer.JoinAppend | src/plugin.ts:163 | joining a concatenation is joining the parts around one separator |
| Serializer.WrapFrames | src/plugin.ts:168 | the header is the opening sentinel, the lines and the closing sentinel, joined by newlines |
| Serializer.ExpandPlainList | src/plugin.ts:156-159 | a plain list's lines are the strictly ascending list of its distinct elements |
| Serializer.DefaultGrantLine | src/plugin.ts:156-162 | the entry `("grant", ["none"])` expands to the single value `none` and renders as `// @grant         none`; that a header with nothing to grant contains this entry is `Plugin.DefaultGrantHeader` |
| Serializer.GrantNoneLine | src/plugin.ts:162 | `grant` is padded to 14 columns before `none` |
| Serializer.GrantTokensAscending | src/plugin.ts:157 | `GM.getValue` < `GM.setValue` < `none` in the default sort order |
| Serializer.GrantsSortedAndDeduplicated | src/plugin.ts:156-159 | `[none, GM.setValue, GM.getValue, GM.setValue]` renders as `GM.getValue`, `GM.setValue`, `none` |
| Serializer.ExpandSingleRequire | src/plugin.ts:151-158 | a one-item `require` list expands to that item, resolved |
| Serializer.PlainRepository | src/plugin.ts:55-60 | `https://github.com/a/b` is its own repository URL |
| Serializer.RequireResolved | src/plugin.ts:151-153 | the relative `require` `lib/foo.js` becomes `https://github.com/a/b/lib/foo.js` |
| Serializer.AbsoluteRequireKept | src/plugin.ts:151-153 | an absolute `require` URL is kept as written |
| Plugin.PluginOptions.constructor | src/plugin.ts:172 | the options object holds the given `meta` |
| Plugin.LengthTruthy | src/plugin.ts:116 | the test `options.meta?.grant?.length`: truthy for a non-empty array or string, and for nothing else the model holds |
| Plugin.OverrideItems | src/plugin.ts:117 | what `concat` appends for an override grant of truthy length: never nothing, and an array's items as they are |
| Plugin.Seeded | src/plugin.ts:111-112 | the grant list after seeding; no contract of its own, used by `Plugin.SeedNone`, `Plugin.ExitGrant` and `Plugin.FinalGrant` |
| Plugin.Push | src/plugin.ts:96-105 | the visitor's pushes onto `meta.grant`; no contract of its own, specified by `Plugin.PushGrant` |
| Plugin.SeedNone | src/plugin.ts:111-112 | an empty grant array becomes `["none"]`, any other grant array is kept, and no other field changes |
| Plugin.TakeOverrideGrants | src/plugin.ts:116-117 | an override grant of truthy length is appended to the grant array; otherwise the grant is untouched; no other field changes |
| Plugin.ExitMeta | src/plugin.ts:109-120 | `meta` after the exit merge; no contract of its own, specified by `Plugin.ExitGrant`, `Plugin.ExitOtherKeys` and `Plugin.ExitKeys` |
| Plugin.ScanMeta | src/plugin.ts:89-106 | `meta` after the whole traversal, one push per identifier; no contract of its own, specified by `Plugin.ScanGrant`, `Plugin.ScanOtherKeys` and `Plugin.ScanKeys` |
| Plugin.Prepend | src/plugin.ts:179 | the new chunk code: the header, a blank line, then the old code; no contract of its own, used by `Plugin.FileStep` |
| Plugin.PrependFrames | src/plugin.ts:179 | the prepended code keeps the header's beginning and ends with its end, a blank line and the code |
| Plugin.PrependedChunk | src/plugin.ts:168-179 | a rewritten chunk starts with `// ==UserScript==\n` and ends with `\n// ==/UserScript==\n\n` followed by the original code |
| Plugin.PushGrant | src/plugin.ts:97 | a push appends the tokens to the grant array |
| Plugin.ScanGrant | src/plugin.ts:89-106 | after the traversal the grant array is the initial one followed by all tokens in visit order |
| Plugin.ScanOtherKeys | src/plugin.ts:89-106 | the traversal changes no field except `grant` |
| Plugin.ScanKeys | src/plugin.ts:89-106 | the traversal does not change the key order |
| Plugin.ExitOptions | src/plugin.ts:116-119 | after exit, `options.meta` has no grant of truthy length. Its grant is still present iff it was present and not truthy. Every other field is unchanged |
| Plugin.ExitOptionsIdempotent | src/plugin.ts:116-119 | a second exit with the same options changes nothing more |
| Plugin.ExitGrant | src/plugin.ts:109-120 | the final grant is `"none"` when the scan found nothing, followed by the override grants of truthy length. Any other override grant value present, an empty array included, replaces the whole list |
| Plugin.ExitOtherKeys | src/plugin.ts:120 | each other field takes the override of the same name, if any, and keeps its value otherwise |
| Plugin.ExitKeys | src/plugin.ts:120 | fields keep their places; override keys the record lacks are appended in the overrides' order |
| Plugin.LaterChunkGetsNoOverrideGrants | src/plugin.ts:116-119 | once one chunk has consumed the override grants, a chunk using the same options gets only the `"none"` seeding |
| Plugin.FirstChunk | src/plugin.ts:176-181 | after a first chunk that parses, the shared options are those its exit leaves |
| Plugin.SecondChunkNoOverrideGrants | src/plugin.ts:116-181 | in a bundle of two parsing chunks whose options carry an override grant of truthy length, the second chunk is handled with the options after the first exit, and its grant list is only the package's grants and its own tokens, or `["none"]` |
| Plugin.FinalGrant | src/plugin.ts:109-120 | without override grants, the grant list handed to the renderer (which sorts and dedupes it at line 157) is the package's grants followed by the scanned tokens, or `["none"]` when both are empty |
| Plugin.FinalMeta | src/plugin.ts:109-120 | the record `Program.exit` renders; no contract of its own, specified by `Plugin.FinalGrant`, `Plugin.FinalMetaDistinct` and `Plugin.HeaderPairs` |
| Plugin.UserGrants | src/plugin.ts:30-31 | the grants of `userscriptMetadata`; no contract of its own, used by `Plugin.FinalGrant` |
| Plugin.FinalMetaDistinct | src/plugin.ts:123 | for a parsed package.json and an options object, the record `Program.exit` renders has each key once, so `Object.entries` lists every tag once |
| Plugin.HeaderOf | src/plugin.ts:81-169 | a syntax error is returned exactly when parsing fails; every header is framed by the two sentinels |
| Plugin.HeaderPairs | src/plugin.ts:123-168 | a header that is produced is the sentinel-framed join of the rendered pairs, and the pairs hold under every tag exactly the values that tag's final value expands into |
| Plugin.DefaultGrantHeader | src/plugin.ts:109-162 | with no package grants, no token and no override grant, a produced header's pairs hold exactly one `grant` pair, `none`, rendered as the line `// @grant         none` |
| Plugin.OptionsAfter | src/plugin.ts:84-119 | `options.meta` after `getHeader`; no contract of its own, used by `Plugin.GetHeader` and `Plugin.FileStep` |
| Plugin.HeaderRun.constructor | src/plugin.ts:82-83 | the run starts from the record `getMetadata` returns, with a grant array |
| Plugin.HeaderRun.Identifier | src/plugin.ts:89-106 | one visit pushes exactly that identifier's tokens onto `meta.grant` |
| Plugin.HeaderRun.Exit | src/plugin.ts:109-164 | `meta` becomes the merged record; `options.meta` loses its truthy grant; the header body is rendered from the merged record |
| Plugin.GetHeader | src/plugin.ts:81-169 | the result is the header for the parse result, and `options.meta` is left as the exit step leaves it (untouched on a syntax error) |
| Plugin.FileStep | src/plugin.ts:177-180 | an asset is untouched, with the options; a chunk's options afterwards are those `getHeader` leaves; a chunk succeeds iff its header does, and then its code becomes `header + "\n\n" + code` (line 179); a thrown error is the header's error and leaves the file untouched; the options stay well formed |
| Plugin.Step | src/plugin.ts:176-181 | each file adds one output file |
| Plugin.RunBundle | src/plugin.ts:176-181 | the files come out one for one, and the options stay well formed |
| Plugin.StepAfterError | src/plugin.ts:176-181 | after a throw, a file passes through untouched |
| Plugin.RunAfterError | src/plugin.ts:176-181 | once a chunk throws, the remaining files are left as they were, and the options and error stay as they are |
| Plugin.RunBundleNext | src/plugin.ts:176-181 | one more loop iteration processes the next file |
| Plugin.AssetsUntouched | src/plugin.ts:177 | assets keep their content whatever happens to the chunks |
| Plugin.HandleFile | src/plugin.ts:177-180 | the loop body rewrites only file `i`, to what `FileStep` says |
| Plugin.GenerateBundle | src/plugin.ts:175-182 | the bundle array, the shared options and the error end as the `RunBundle` left fold says |

## Left out

- `getPackageJson` (src/plugin.ts:14-21) reads the file system and logs. The package.json
  contents are a parameter of type `Package`, which holds `repository`, `main`, the
  top-level fields and `userscriptMetadata`.
- `@babel/parser` and `@babel/traverse` are foreign libraries. Parsing plus the tree walk
  is a parameter `parse` from code to the identifier occurrences in traversal order, or
  `None` for a syntax error. Each occurrence carries its name, whether its parent is a
  member expression, and the name of that member expression's object.
- The Rollup host lifecycle: plugin registration and the hook invocation. Only the loop
  of `generateBundle` is modelled, over an array of output files (`Chunk` or `Asset`).
- `META_ORDER` and the types in `src/types` are not part of this model. The priority
  order is a parameter.
- JSON `null` and number values are not modelled. Their run-time errors inside `.sort()`
  are left out too.
- An object value with a `length` key under `options.meta.grant` is not modelled. Only
  arrays and strings can have a truthy `length` here.
- `Object.entries` lists integer-like keys first. The model keeps plain insertion order
  for every key.
- `.sort()` compares UTF-16 code units. The model compares `char` values, which is the
  same order below U+10000.
- JsString.PadEnd: counts `char`s, not UTF-16 code units as `padEnd(14)` at
  src/plugin.ts:162 does. A key with a character above U+FFFF (`a😀`, three code units
  in JavaScript, two `char`s here) gets one more space in the model than in the source.
  `Serializer.RawLine` and `Serializer.RenderLine` inherit this; keys below U+10000 are
  padded the same.
- `dedupe` serialises with `JSON.stringify`. The model treats it as the identity, with
  equality in place of equal serialisation. For the string arrays the plugin uses, those
  are the same thing.
- `.sort()` sorts in place, so an array shared between `options.meta` and `meta` is
  reordered in both. The model computes a sorted copy. The header is the same either
  way; a later chunk's override lists may start in a different order, but they are
  re-sorted before rendering.
- Plugin.GetHeader: requires `userscriptMetadata.grant` to be absent or an array
  (`GrantIsList`). This excludes a string, a boolean or an object there, and the source
  does not always throw on those.
  - It throws if the scan finds a token (no `push`), or for `""` (line 112 pushes).
  - With an override grant of truthy length, a boolean or object throws at line 117
    (no `concat`), while a non-empty string grant `s`, which line 111 does not seed
    with `none`, becomes the string `s.concat(grants)`: `"abc"` with the override
    `["x", "y"]` becomes `"abcx,y"`.
  - Otherwise a string is rendered as one line and a boolean as a bare `@grant` tag. An
    object throws at line 157 (no `sort`).

  None of this is modelled. The same precondition is on `Plugin.HeaderRun.constructor`,
  `Plugin.HandleFile` and `Plugin.GenerateBundle`.
- Plugin.GetHeader: also requires `PackageValid`, and the options must satisfy
  `OptionsValid`. package.json is parsed JSON, and the plugin options are a JavaScript
  object handed to the plugin factory (src/plugin.ts:172). Either way each object has
  every key once, and so does each resource object inside `userscriptMetadata` and the
  options (`Record.JsonObject`). A record with a repeated key, which neither can
  produce, is outside the model.
- Plugin.HeaderOf: its own contract states the syntax-error case and the sentinel
  frame. The body is stated by `Plugin.HeaderPairs`: under every tag it lists exactly
  the expansion of that tag's final value, whose contents `Plugin.FinalGrant`,
  `Plugin.ExitOtherKeys` and the `Metadata` lemmas give.
- Plugin.DefaultGrantHeader: states that exactly one pair, and so one line, comes from
  the `grant` tag. It does not say that no other line reads `// @grant         none`.
  A user tag named `grant         none` with the value `true` renders that same text.
- Plugin.HeaderOf, Plugin.FileStep, Plugin.Step and Plugin.RunBundle require
  `GrantIsList`, for the reasons given under Plugin.GetHeader above.
- A `repository.url` that is present but not a string (a boolean, an object or an
  array) makes `.replace` throw a `TypeError` at src/plugin.ts:59. The model's
  `RepoObject` holds a `url` that is a string or missing, and this case is not
  modelled.
- Concurrency: none exists in the source.

## Notes on the source

- All grants are sorted together, `"none"` included. Since `G` sorts before `n`, a
  header whose grants are `none`, `GM.getValue` and `GM.setValue` lists `none` last
  (`Serializer.GrantsSortedAndDeduplicated`).
- `getMetadata` starts from package.json's `userscriptMetadata` (src/plugin.ts:30). The
  plugin options are merged only in `Program.exit`.
