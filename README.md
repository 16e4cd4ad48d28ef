# Prompt tag matcher and image metadata parser, modelled in Dafny

This project models the core of a browser tool that reads the metadata an AI
image generator writes into an image and highlights known tag names inside
the prompt.

- **Tag dictionary** (`js/trie.js`, `js/tagMatcher.js`). A prefix tree holds
  lower-cased dictionary words. `findAllMatches` scans a text once per start
  offset and reports every occurrence of a dictionary word, shortest first
  for each start. `TagMatcher.loadTags` streams a comma- and
  newline-separated file into the tree. Each non-blank trimmed token goes in
  together with its unescaped and underscore-joined spellings
  (`normalizedTag`). `findMatches` answers only once the file has loaded.
- **Metadata parser** (`js/parser.js`). `detectGenerator` picks ComfyUI,
  NovelAI or Stable Diffusion from the tags that are present. The matching
  parser then extracts the model, the positive and negative prompts and the
  sampler settings. Stable Diffusion settings are read with seven regular
  expressions, NovelAI settings with a `key: value, ...` reader.

## Modules

- `wrappers.dfy` (`Wrappers`) defines `Option` and `Result`.
- `text.dfy` (`Text`) covers the JavaScript string operations the core
  uses: `toLowerCase`, `trim`, `split` on a character or on a string,
  `includes`, `replace(/\\/g, '')` and `replace(/\s+/g, '_')`. Each comes
  with the lemmas that pin it down.
- `trie.dfy` (`TagTrie`) holds the `TrieNode` and `Trie` classes. A ghost
  map from paths to nodes and a ghost word set make up the abstract state.
  `AllMatches` is the specification of a scan. It is proved sound, complete
  and ordered.
- `tag_matcher.dfy` (`TagMatching`) holds `normalizedTag`, the entries a
  dictionary file contributes, and the `TagMatcher` class with its
  `tagsLoaded` flag.
- `js_value.dfy` (`JsValue`) models what `JSON.parse` returns, JavaScript
  truthiness, `v[key]`, `v?.key` and `x || d`.
- `patterns.dfy` (`SdPatterns`) hand-codes the seven `extractSDParameters`
  regular expressions as leftmost, greedy matchers. The loop is a method
  proved against the function `SDParameters`.
- `parameters.dfy` (`ParameterList`) holds `parseParameters`: a loop
  method, the function `ParametersOf` it is proved against, and that
  function's properties.
- `parser.dfy` (`ImageParsing`) holds `detectGenerator`, the four
  per-generator parsers and the dispatch in `parse`.

The code has these quirks, and the model keeps them:

- `detectGenerator` reads a variable `description` that is declared nowhere
  (js/parser.js:114). So it throws instead of returning 'Unknown', and the
  model returns `Err(ReferenceError("description"))`.
- NovelAI images are recognised by the presence of a `parameters` or
  `Parameters` tag (js/parser.js:108), not by a software name. That is why
  images with a `parameters` tag are labelled NovelAI, and the Stable
  Diffusion parser only ever sees an empty text.
- The NovelAI text is split on `|` (js/parser.js:126). It is not read as a
  JSON object.
- The result objects carry only the fields each parser sets. There is no
  common record with every field present.
- When the ComfyUI prompt fails to parse, or parses to `null` (so that
  reading `data["1"]` throws), `parseComfyUIPrompts` returns the string
  `'{}'` (js/parser.js:153-166). It does not return an empty object.

## Model

| member | source | states |
|---|---|---|
| TagTrie.TrieNode.constructor | js/trie.js:2-6 | a new node has no children, is not the end of a word and has the empty `fullWord` |
| TagTrie.Trie.constructor | js/trie.js:10-12 | a new trie is well formed and holds no words |
| TagTrie.Trie.PrefixInNodes | js/trie.js:17-22 | every prefix of a path in the tree is a path in the tree, which is the shape `insert` builds |
| TagTrie.Trie.AddChild | js/trie.js:18-20 | adds exactly one fresh child under the character and keeps every other path and every word |
| TagTrie.Trie.MarkWord | js/trie.js:23-24 | adds the node's path to the word set; marking an existing word changes nothing |
| TagTrie.Trie.Insert | js/trie.js:14-25 | the word set grows by exactly the lower-cased word; every existing path keeps its node and every new path is a prefix of the lower-cased word; re-inserting a word changes no node (idempotent) |
| TagTrie.Trie.FindAllMatches | js/trie.js:27-47 | returns exactly `AllMatches` of the lower-cased text over the stored words |
| TagTrie.Trie.MatchesStartingAt | js/trie.js:33-44 | the inner walk from start `i` returns exactly the words that start at `i`, shortest first |
| TagTrie.Trie.NoLongerPath | js/trie.js:35 | the early `break` loses nothing: once no edge continues the text, no stored word starting at `i` reaches past that character |
| TagTrie.AllMatchesSound | js/trie.js:32-45 | every reported match is a non-empty in-bounds range of the text that spells a stored word, so an empty word is never reported |
| TagTrie.AllMatchesComplete | js/trie.js:32-45 | every range of the text that spells a stored word is reported |
| TagTrie.AllMatchesOrdered | js/trie.js:32-45 | matches come in increasing start order, and for one start in increasing end order |
| TagMatching.NormalizedTag | js/tagMatcher.js:8-22 | the set holds the tag itself and at most two other forms, none of which contains a backslash |
| TagMatching.NormalizedTagUnescaped | js/tagMatcher.js:16 | one form is the tag with every backslash removed and all other characters kept |
| TagMatching.NormalizedTagHasPlainForm | js/tagMatcher.js:19 | one form has no backslash and no whitespace |
| TagMatching.NormalizedTagPlain | js/tagMatcher.js:10-21 | a tag without backslashes or whitespace is its only form |
| TagMatching.StoredSpellingsLowered | js/tagMatcher.js:51-53 | what a token contributes is the lower-cased forms of `normalizedTag` |
| TagMatching.TokenEntriesMember | js/tagMatcher.js:44-54 | a token contributes a word if and only if it is non-blank after trimming and the word is a lower-cased form of the trimmed token |
| TagMatching.DictionaryHasToken | js/tagMatcher.js:40-56 | every form of every non-blank trimmed token of every line is an entry of the text |
| TagMatching.DictionaryEntryOrigin | js/tagMatcher.js:40-56 | every entry of the text comes from some token of some line |
| TagMatching.StreamStep | js/tagMatcher.js:35-40 | each chunk read adds the entries of the whole buffer received so far, since the buffer is never cleared |
| TagMatching.StreamOneChunk | js/tagMatcher.js:34-57 | a file delivered in one chunk contributes exactly its entries |
| TagMatching.StreamCoversFile | js/tagMatcher.js:34-57 | whatever the chunking, every entry of the whole file is inserted |
| TagMatching.TagMatcher.constructor | js/tagMatcher.js:3-6 | a new matcher has an empty trie and `tagsLoaded` false |
| TagMatching.TagMatcher.LoadTags | js/tagMatcher.js:24-64 | when already loaded, nothing changes; otherwise it throws exactly when the fetch or a read fails, `tagsLoaded` becomes true exactly when it does not throw, and the trie gains exactly the entries of the chunks received |
| TagMatching.TagMatcher.InsertText | js/tagMatcher.js:40-56 | the trie gains exactly the entries of every line of the buffer |
| TagMatching.TagMatcher.InsertLine | js/tagMatcher.js:43-55 | the trie gains exactly the entries of every comma-separated token of the line |
| TagMatching.TagMatcher.InsertToken | js/tagMatcher.js:45-54 | the trie gains exactly the lower-cased forms of the trimmed token, or nothing for a blank one |
| TagMatching.TagMatcher.InsertForms | js/tagMatcher.js:51-53 | the trie gains exactly the lower-cased forms |
| TagMatching.TagMatcher.FindMatches | js/tagMatcher.js:66-72 | empty until the tags are loaded, then exactly the trie's matches in the lower-cased text |
| JsValue.Get | js/parser.js:156-163 | a property of a boolean or number is undefined; an object's property is defined exactly when it is an own member |
| JsValue.Member | js/parser.js:156-163 | `?.` on undefined or null gives undefined |
| JsValue.Truthy | js/parser.js:156-163 | the values `\|\|` treats as false: `null`, `false`, `0` and `""`; arrays and objects are always truthy |
| JsValue.OrElse | js/parser.js:156-163 | `x \|\| d` is `x` exactly when `x` is defined and truthy, and `d` otherwise |
| SdPatterns.SpanEndSpec | js/parser.js:219-225 | a `\d+`, `\w+` or `[^,]+` run is greedy: every character in it belongs to the class and the next one does not |
| SdPatterns.CaptureEnd | js/parser.js:219-225 | a group that matches takes at least one character and ends inside the text (partner lemmas `CaptureShape`, `CaptureMaximal` and `CaptureComplete`) |
| SdPatterns.CaptureComplete | js/parser.js:219-225 | every group matches wherever text of its shape follows and takes at least that text, so it fails only where the regular expression's group fails |
| SdPatterns.CaptureMaximal | js/parser.js:219-225 | every group is greedy: the character after it could not extend its last run, and a decimal without a fraction is not followed by `.` |
| SdPatterns.CaptureShape | js/parser.js:219-225 | what each of the five group shapes captures has that shape |
| SdPatterns.DecimalShape | js/parser.js:221 | a `\d+\.?\d*` capture is digits, optionally followed by a point and more digits |
| SdPatterns.DimensionsShape | js/parser.js:223 | a `\d+x\d+` capture is a non-empty run of digits, `x`, and a non-empty run of digits |
| SdPatterns.RunShape | js/parser.js:219-225 | a run capture is non-empty and lies entirely in its class |
| SdPatterns.FirstMatch | js/parser.js:229 | finds the leftmost position where the pattern matches, and no position is found when it matches nowhere |
| SdPatterns.Captured | js/parser.js:229-231 | `params.match(pattern)?.[1]`, the group of the leftmost match (partner lemma `CapturedSpec`) |
| SdPatterns.CapturedSpec | js/parser.js:229-232 | a pattern captures nothing exactly when it matches nowhere; otherwise it captures the group of its leftmost match |
| SdPatterns.CapturedShape | js/parser.js:219-225 | every capture has the shape of its group: digits for Steps and Seed, `digits x digits` for Size, no comma for Sampler and Model |
| SdPatterns.CapturedEmpty | js/parser.js:229 | a pattern with a non-empty literal part captures nothing in the empty text |
| SdPatterns.CollectSpec | js/parser.js:228-233 | when the keys are distinct, the object holds a key exactly when its pattern captured something, with that capture as the value |
| SdPatterns.SDParameters | js/parser.js:214-236 | the object `extractSDParameters` returns (partner lemma `SDParametersSpec`) |
| SdPatterns.SDParametersSpec | js/parser.js:214-236 | only the seven keys appear; a key is present exactly when its pattern matches somewhere; its value is the first capture of the leftmost match and has the pattern's shape |
| SdPatterns.SDParametersFound | js/parser.js:219-231 | a key is extracted whenever its marker is followed by text of its group's shape, so no parameter the regular expression finds is missed |
| SdPatterns.SDParametersEmpty | js/parser.js:214-236 | the empty text gives the empty object |
| SdPatterns.ExtractSDParameters | js/parser.js:214-236 | the loop over the patterns computes `SDParameters` of the text |
| ParameterList.EntryOf | js/parser.js:243 | the key and value of a pair hold no `:` and have no white space at either end; the value is "" when the pair has no `:` |
| ParameterList.EntryWithoutColon | js/parser.js:243-244 | a pair without `:` reads as its whole trimmed text with the value "", so it is never stored |
| ParameterList.Stored | js/parser.js:244-245 | a pair is stored when its key and value are both non-empty and the key is not `__proto__`: assigning a string to `__proto__` goes to the prototype setter, which ignores it, so nothing changes |
| ParameterList.ParametersOf | js/parser.js:238-250 | the object `parseParameters` builds never has an own `__proto__` key |
| ParameterList.ParseParameters | js/parser.js:238-250 | the `forEach` over the pairs computes `ParametersOf` of the string |
| ParameterList.CollectedSpec | js/parser.js:242-247 | a key is present exactly when some pair with a non-empty key and value stores it, and it holds the value of the last such pair, so later duplicates win |
| ParameterList.LastStoring | js/parser.js:242-247 | among the pairs that store a key there is a last one |
| ParameterList.PairWellFormed | js/parser.js:243-245 | a stored pair from a comma-free piece has a non-empty, trimmed key and value with no `,` or `:` |
| ParameterList.ParametersWellFormed | js/parser.js:238-250 | every key and value in the result is non-empty, trimmed, and free of `,` and `:` |
| ParameterList.SplitKeyValue | js/parser.js:243 | the first two `:` parts of `key:value` followed by nothing or by `:` are `key` and `value` |
| ParameterList.SecondColonIgnored | js/parser.js:243 | text after a second `:` is dropped: `key:value:rest` reads as the trimmed `key` and `value` |
| ParameterList.ParametersOfEmpty | js/parser.js:238-250 | the empty string gives the empty object |
| ImageParsing.Desc | js/parser.js:201-207 | `tags.name?.description` is the tag's description, or "" when the tag is missing, which the `\|\|` chains treat alike (partner lemma `GenericFallbacks`) |
| ImageParsing.FirstNonEmpty | js/parser.js:201-208 | a chain of `\|\|` over descriptions gives the first non-empty one, or the fallback when all are empty |
| ImageParsing.DetectGenerator | js/parser.js:100-119 | ComfyUI exactly when `prompt` and `workflow` are both present; otherwise NovelAI exactly when `parameters` or `Parameters` is present; otherwise Stable Diffusion exactly when the `Software` description contains "Stable Diffusion"; otherwise a ReferenceError for `description`; never 'Unknown' |
| ImageParsing.ParseNovelAI | js/parser.js:121-134 | the model is always 'NovelAI', there are no raw parameters, and neither prompt contains `\|` |
| ImageParsing.NovelAIText | js/parser.js:123 | the NovelAI text is the `ImageDescription` description when it is non-empty, else the `Comment` description ("" when both are missing) |
| ImageParsing.NovelAISegments | js/parser.js:121-134 | for a text made of `\|`-separated segments, the prompts are the first two trimmed segments (or "") and the parameters are read from the third |
| ImageParsing.NovelAIWithoutBar | js/parser.js:121-134 | a text without `\|` is entirely the positive prompt, with an empty negative prompt and no parameters |
| ImageParsing.ParseGeneric | js/parser.js:199-212 | the negative prompt is "", the parameters are empty and the model is never empty |
| ImageParsing.GenericFallbacks | js/parser.js:199-212 | the model is `Model`, else `Software`, else `Generator`, else 'Unknown'; the prompt is `UserComment`, else `Description`, else `ImageDescription`; an empty description counts as absent |
| ImageParsing.FirstOfThree | js/parser.js:201-208 | a three-step `\|\|` chain is the first non-empty of its three strings, else the fallback |
| ImageParsing.ParseStableDiffusion | js/parser.js:182-197 | the model is 'Stable Diffusion', the raw parameters are the `parameters` text unchanged, and the parameters are what `extractSDParameters` extracts from it |
| ImageParsing.StableDiffusionPositive | js/parser.js:187 | the positive prompt is the trimmed text before the first "Negative prompt:", or the whole text when there is none |
| ImageParsing.StableDiffusionNoNegative | js/parser.js:188 | without "Negative prompt:" the negative prompt is "" |
| ImageParsing.StableDiffusionNegative | js/parser.js:188 | the negative prompt is the trimmed text after the first "Negative prompt:", up to the first "Steps:" or the next "Negative prompt:" |
| ImageParsing.ParseComfyUIPrompts | js/parser.js:150-168 | the result is the string '{}' exactly when the prompt text fails to parse or parses to null; otherwise each field is truthy or its default ('Unknown' for the model, "" for the rest) |
| ImageParsing.ComfyUIPromptsFixedNodes | js/parser.js:156-163 | only the nodes "1", "61", "39" and "25" of the parsed prompt affect the result |
| ImageParsing.JsonText | js/parser.js:153 | the text handed to `JSON.parse` is the tag's description when it is non-empty, and exactly `'{}'` when it is missing or empty (also js/parser.js:141) |
| ImageParsing.NodeInput | js/parser.js:156-163 | `data[node]?.inputs?.field` is undefined when the node is missing or `null`, and is the nested member when `inputs` is an object holding the field |
| ImageParsing.ComfyUIPromptsFallBack | js/parser.js:156-163 | a field whose input is missing or falsy (`0`, `""`, `false`, `null`) takes its default: 'Unknown' for the model, "" for the rest |
| ImageParsing.ComfyUIPromptsReadsNodes | js/parser.js:156-163 | a truthy input is reported as is: the checkpoint of node 1, cfg, steps, seed, sampler and scheduler of node 61, and the texts of nodes 39 and 25 |
| ImageParsing.ComfyUIPromptsDefaults | js/parser.js:156-163 | an object without those nodes gives every default |
| ImageParsing.ParseComfyUI | js/parser.js:137-147 | returns the prompts whenever the `workflow` text parses; otherwise it returns exactly `ParseGeneric` of the tags |
| ImageParsing.ParseMetadata | js/parser.js:15-32 | fails exactly when detection throws; otherwise it reports the detected generator with that generator's parser result |
| ImageParsing.ParametersTagReadAsNovelAI | js/parser.js:103-110 | an image with a `parameters` tag and no ComfyUI pair is labelled and parsed as NovelAI |
| ImageParsing.StableDiffusionDispatchEmpty | js/parser.js:108-116 | when Stable Diffusion is detected there is no `parameters` tag, so its result is entirely empty |
| ImageParsing.GenericOnlyFromComfyUI | js/parser.js:30-31 | the `default` branch of the dispatch is unreachable |
| Text.IsWhitespace | js/tagMatcher.js:45 | the characters `trim()` removes and `\s` matches: the Unicode white space and line terminators |
| Text.Trim | js/tagMatcher.js:45 | the trimmed string is no longer than the original and neither begins nor ends with white space |
| Text.TrimSlice | js/tagMatcher.js:45 | the trimmed string is a slice of the original with only white space cut away on either side |
| Text.TrimEach | js/parser.js:240 | `.map(p => p.trim())` trims every piece and keeps their number and order (partner lemma `TrimmedPiecesFree`) |
| Text.TrimEmpty | js/tagMatcher.js:45-46 | a token trims to the empty (falsy) string exactly when it is all white space |
| Text.ToLower | js/trie.js:16 | lower-casing keeps the length and maps each character on its own |
| Text.Split | js/tagMatcher.js:40-43 | `split` on a character always gives at least one piece |
| Text.JoinSplit | js/parser.js:126 | joining the pieces of `split` with the separator gives back the string |
| Text.TrimmedPiecesFree | js/parser.js:126 | the trimmed pieces of `split(sep)` hold no `sep` |
| Text.RemoveAll | js/tagMatcher.js:16 | `replace(/\\/g, '')` leaves no backslash and keeps every other character |
| Text.RemoveAllAppend | js/tagMatcher.js:16 | the removal works piece by piece, so the remaining characters keep their order |
| Text.IndexOfFrom | js/parser.js:114 | the search finds the leftmost occurrence at or after the start, and finds none only when there is none |
| Text.IndexOf | js/parser.js:114 | `indexOf` finds the leftmost occurrence of the marker, and finds none exactly when the marker occurs nowhere |
| Text.Includes | js/parser.js:114 | `includes` is a successful search (partner lemma `IncludesIff`) |
| Text.IncludesIff | js/parser.js:114 | `includes(m)` holds exactly when `m` occurs at some position |
| Text.SplitOn | js/parser.js:187-188 | `split` on a marker always gives at least one piece (partner lemmas `SplitOnFirst`, `SplitOnSecond`, `JoinOnSplitOn`) |
| Text.SplitOnFirst | js/parser.js:187 | the first piece is the text before the first occurrence of the marker, or the whole text |
| Text.SplitOnSecond | js/parser.js:188 | there is a second piece exactly when the marker occurs, and it runs from after the first occurrence to the next one |
| Text.JoinOnSplitOn | js/parser.js:187-188 | joining the pieces with the marker gives back the text |
| Text.UnderscoreWhitespace | js/tagMatcher.js:19 | `replace(/\s+/g, '_')` leaves no white space |
| Text.UnderscoreOneRun | js/tagMatcher.js:19 | each maximal run of white space becomes exactly one `_` |
| Text.UnderscoreNoWhitespace | js/tagMatcher.js:19 | a string without white space is left unchanged |

## Left out

- Case folding: `ToLower` changes only ASCII letters. `toLowerCase` also folds other letters, and can change the length of a string. `findAllMatches` bounds its scan by the length before lower-casing (js/trie.js:29-30), which the model does not distinguish.
- Character units: a string is a sequence of characters. `insert` walks code points while `findAllMatches` indexes UTF-16 code units, so the two differ only for characters outside the Basic Multilingual Plane. That difference is not modelled.
- Streaming input: `fetch`, `getReader` and `TextDecoder` become the `Response` value. That value is either a failed fetch, or the decoded chunks plus whether a later read fails. Asynchrony and overlapping `loadTags` calls are not modelled.
- Console output: the console messages are left out.
- JSON parsing: `JSON.parse` is a parameter of the parsers, returning `None` where it throws. The model does not relate it to the JSON grammar.
- Regular expressions: the regular expression engine is not modelled. The seven Stable Diffusion patterns are hand-written matchers with the same leftmost, greedy semantics.
- Tags: ExifReader tags are a map from tag name to description text. A missing description and an empty one are the same, because every read is followed by `||`. Non-string descriptions are not modelled.
- Object semantics: key order in JavaScript objects and `Set` iteration order are not modelled, since neither affects the results here. Of the prototype properties only `__proto__` matters here, because `parseParameters` cannot store it as an own key. Inherited properties of parsed JSON are not modelled.
- The `description` variable: the model assumes no global binding named `description` exists. Such a binding could come only from the page that loads the script, which is not part of this model.
- `parse`: the file type check, `ExifReader.load`, `getImageDimensions`, `getRawTags`, the copy of the raw tags and the assembly of the returned object are I/O and bookkeeping. So is the `catch` that reports a parse error. Only the detection and dispatch are modelled, as `ParseMetadata`. Spreading the string `'{}'` into that object is not modelled.
- `parseComfyUIWorkflow`: it never throws, and `parseComfyUI` discards its result, so it is not modelled.
- Other files: `js/main.js`, `js/i18n.js`, `js/matchers.js` and `tailwind.config.js` are not part of this model.
- TagMatching.StreamCoversFile: states only that every entry of the whole file is inserted, not the converse. Because the buffer is reprocessed after every chunk, tokens cut at a chunk boundary are inserted too. `StreamEntries` describes the exact set.
