/** `ImageParser` (js/parser.js) without its I/O: given the tags ExifReader
    read from an image, decide which tool generated it and pull the prompts
    and sampler settings out of the tags that tool writes. */
module ImageParsing {
  import opened Wrappers
  import opened Text
  import opened JsValue
  import opened SdPatterns
  import opened ParameterList

  /** The tags of an image: each tag name with its description text. A tag
      whose description is missing has "" here; every read of a description
      is followed by `|| ...`, for which the two are the same. */
  type Tags = map<string, string>

  /** `tags.name?.description`, "" when the tag is absent. */
  function Desc(tags: Tags, name: string): string {
    if name in tags then tags[name] else ""
  }

  /** `c0 || c1 || ... || fallback` over strings: the first non-empty one. */
  function FirstNonEmpty(cs: seq<string>, fallback: string): (r: string)
    ensures (forall j | 0 <= j < |cs| :: cs[j] == "") ==> r == fallback
    ensures forall i | 0 <= i < |cs| && cs[i] != "" && (forall j | 0 <= j < i :: cs[j] == "") :: r == cs[i]
  {
    if cs == [] then fallback
    else if cs[0] != "" then cs[0]
    else FirstNonEmpty(cs[1..], fallback)
  }

  // ---------------------------------------------------------------------------
  // detectGenerator

  datatype Generator = ComfyUI | NovelAI | StableDiffusion | Unknown

  /** What a call throws. */
  datatype Failure = ReferenceError(name: string)

  /** `detectGenerator(tags)`. Its third test reads a variable `description`
      that is declared nowhere, so whenever the `Software` description does
      not mention Stable Diffusion the call throws instead of reaching
      `return 'Unknown'`. */
  function DetectGenerator(tags: Tags): (r: Result<Generator, Failure>)
    ensures r == Ok(ComfyUI) <==> "prompt" in tags && "workflow" in tags
    ensures r == Ok(NovelAI) <==>
      !("prompt" in tags && "workflow" in tags) && ("parameters" in tags || "Parameters" in tags)
    ensures r == Ok(StableDiffusion) <==>
      && !("prompt" in tags && "workflow" in tags) && !("parameters" in tags || "Parameters" in tags)
      && exists k :: OccursAt(Desc(tags, "Software"), "Stable Diffusion", k)
    ensures r.Err? <==>
      && !("prompt" in tags && "workflow" in tags) && !("parameters" in tags || "Parameters" in tags)
      && forall k :: !OccursAt(Desc(tags, "Software"), "Stable Diffusion", k)
    ensures r != Ok(Unknown)
    ensures r.Err? ==> r.error == ReferenceError("description")
  {
    IncludesIff(Desc(tags, "Software"), "Stable Diffusion");
    if "prompt" in tags && "workflow" in tags then Ok(ComfyUI)
    else if "parameters" in tags || "Parameters" in tags then Ok(NovelAI)
    else if Includes(Desc(tags, "Software"), "Stable Diffusion") then Ok(StableDiffusion)
    else Err(ReferenceError("description"))
  }

  // ---------------------------------------------------------------------------
  // the results of the parsers

  datatype Metadata =
    /** The object built by `parseNovelAI`, `parseStableDiffusion` and
        `parseGeneric`; only `parseStableDiffusion` sets `rawParameters`. */
    | Prompts(model: string, positivePrompt: string, negativePrompt: string,
              parameters: map<string, string>, rawParameters: Option<string>)
    /** The object built by `parseComfyUIPrompts`: each field is whatever
        value the parsed JSON holds there, or the default. Its `model`,
        `positivePrompt` and `negativePrompt` keys are `checkpoint`,
        `positiveText` and `negativeText` here. */
    | ComfyPrompts(checkpoint: Json, cfg: Json, steps: Json, seed: Json, sampler: Json,
                   scheduler: Json, positiveText: Json, negativeText: Json)
    /** The string `'{}'` that `parseComfyUIPrompts` returns when it fails. */
    | EmptyObjectText

  // ---------------------------------------------------------------------------
  // parseNovelAI

  /** The text NovelAI stores: `ImageDescription`, else `Comment`. */
  function NovelAIText(tags: Tags): (r: string)
    ensures Desc(tags, "ImageDescription") != "" ==> r == Desc(tags, "ImageDescription")
    ensures Desc(tags, "ImageDescription") == "" ==> r == Desc(tags, "Comment")
  {
    var chain := [Desc(tags, "ImageDescription"), Desc(tags, "Comment")];
    assert chain[1..] == [chain[1]] && [chain[1]][1..] == [];
    FirstNonEmpty(chain, "")
  }

  /** `parseNovelAI(tags)`: the text is read as `positive | negative |
      parameters`, each segment trimmed. */
  function ParseNovelAI(tags: Tags): (r: Metadata)
    ensures r.Prompts? && r.model == "NovelAI" && r.rawParameters == None
    ensures forall k | 0 <= k < |r.positivePrompt| :: r.positivePrompt[k] != '|'
    ensures forall k | 0 <= k < |r.negativePrompt| :: r.negativePrompt[k] != '|'
  {
    var parts := TrimEach(Split(NovelAIText(tags), '|'));
    TrimmedPiecesFree(NovelAIText(tags), '|');
    Prompts("NovelAI", parts[0], if |parts| > 1 then parts[1] else "",
            ParametersOf(if |parts| > 2 then parts[2] else ""), None)
  }

  /** When the text is `segs` joined by `|`, the prompts are the first two
      segments trimmed (or "") and the parameters come from the third. */
  lemma NovelAISegments(tags: Tags, segs: seq<string>)
    requires |segs| >= 1
    requires forall i | 0 <= i < |segs| :: '|' !in segs[i]
    requires Join(segs, '|') == NovelAIText(tags)
    ensures ParseNovelAI(tags).positivePrompt == Trim(segs[0])
    ensures ParseNovelAI(tags).negativePrompt == (if |segs| > 1 then Trim(segs[1]) else "")
    ensures ParseNovelAI(tags).parameters == ParametersOf(if |segs| > 2 then Trim(segs[2]) else "")
  {
    var text := NovelAIText(tags);
    assert Split(text, '|') == segs by {
      SplitJoin(segs, '|');
    }
    var parts := TrimEach(segs);
    assert ParseNovelAI(tags) ==
      Prompts("NovelAI", parts[0], if |parts| > 1 then parts[1] else "",
              ParametersOf(if |parts| > 2 then parts[2] else ""), None);
  }

  /** A text without `|` is all positive prompt. */
  lemma NovelAIWithoutBar(tags: Tags)
    requires forall k | 0 <= k < |NovelAIText(tags)| :: NovelAIText(tags)[k] != '|'
    ensures ParseNovelAI(tags) == Prompts("NovelAI", Trim(NovelAIText(tags)), "", map[], None)
  {
    SplitSepFree(NovelAIText(tags), '|');
    ParametersOfEmpty();
  }

  // ---------------------------------------------------------------------------
  // parseGeneric

  /** `parseGeneric(tags)`: the model from `Model`, `Software` or
      `Generator`, else 'Unknown'; the prompt from `UserComment`,
      `Description` or `ImageDescription`, else ""; empty descriptions
      count as absent. */
  function ParseGeneric(tags: Tags): (r: Metadata)
    ensures r.Prompts? && r.negativePrompt == "" && r.parameters == map[] && r.rawParameters == None
    ensures r.model != ""
  {
    var modelChain := [Desc(tags, "Model"), Desc(tags, "Software"), Desc(tags, "Generator")];
    var promptChain := [Desc(tags, "UserComment"), Desc(tags, "Description"), Desc(tags, "ImageDescription")];
    Prompts(FirstNonEmpty(modelChain, "Unknown"), FirstNonEmpty(promptChain, ""), "", map[], None)
  }

  /** The fallback order of both chains: the first non-empty description
      wins. */
  lemma GenericFallbacks(tags: Tags)
    ensures Desc(tags, "Model") != "" ==> ParseGeneric(tags).model == Desc(tags, "Model")
    ensures Desc(tags, "Model") == "" && Desc(tags, "Software") != "" ==>
      ParseGeneric(tags).model == Desc(tags, "Software")
    ensures Desc(tags, "Model") == "" && Desc(tags, "Software") == "" ==>
      ParseGeneric(tags).model == (if Desc(tags, "Generator") != "" then Desc(tags, "Generator") else "Unknown")
    ensures Desc(tags, "UserComment") != "" ==> ParseGeneric(tags).positivePrompt == Desc(tags, "UserComment")
    ensures Desc(tags, "UserComment") == "" && Desc(tags, "Description") != "" ==>
      ParseGeneric(tags).positivePrompt == Desc(tags, "Description")
    ensures Desc(tags, "UserComment") == "" && Desc(tags, "Description") == "" ==>
      ParseGeneric(tags).positivePrompt == Desc(tags, "ImageDescription")
  {
    FirstOfThree(Desc(tags, "Model"), Desc(tags, "Software"), Desc(tags, "Generator"), "Unknown");
    FirstOfThree(Desc(tags, "UserComment"), Desc(tags, "Description"), Desc(tags, "ImageDescription"), "");
  }

  /** `a || b || c || d` for three strings. */
  lemma FirstOfThree(a: string, b: string, c: string, d: string)
    ensures FirstNonEmpty([a, b, c], d) == (if a != "" then a else if b != "" then b else if c != "" then c else d)
  {
    assert [a, b, c][1..] == [b, c] && [b, c][1..] == [c] && [c][1..] == [];
    assert FirstNonEmpty([a, b, c], d) == if a != "" then a else FirstNonEmpty([b, c], d);
    assert FirstNonEmpty([b, c], d) == if b != "" then b else FirstNonEmpty([c], d);
    assert FirstNonEmpty([c], d) == if c != "" then c else FirstNonEmpty([], d);
  }

  // ---------------------------------------------------------------------------
  // parseStableDiffusion

  const NegativeMarker: string := "Negative prompt:"
  const StepsMarker: string := "Steps:"

  /** `parseStableDiffusion(tags)`: the `parameters` text cut at the first
      "Negative prompt:" and, after it, at "Steps:". */
  function ParseStableDiffusion(tags: Tags): (r: Metadata)
    ensures r.Prompts? && r.model == "Stable Diffusion"
    ensures r.rawParameters == Some(Desc(tags, "parameters"))
    ensures r.parameters == SDParameters(Desc(tags, "parameters"))
  {
    var params := Desc(tags, "parameters");
    var pieces := SplitOn(params, NegativeMarker);
    var negative := if |pieces| > 1 then Trim(SplitOn(pieces[1], StepsMarker)[0]) else "";
    Prompts("Stable Diffusion", Trim(pieces[0]), negative, SDParameters(params), Some(params))
  }

  /** The positive prompt is the trimmed text before the first negative
      marker, all the text when there is none. */
  lemma StableDiffusionPositive(tags: Tags)
    ensures exists seg :: (PrefixBefore(Desc(tags, "parameters"), NegativeMarker, seg) &&
      ParseStableDiffusion(tags).positivePrompt == Trim(seg))
  {
    SplitOnFirst(Desc(tags, "parameters"), NegativeMarker);
  }

  /** Without a negative marker the negative prompt is "". */
  lemma StableDiffusionNoNegative(tags: Tags)
    requires forall k :: !OccursAt(Desc(tags, "parameters"), NegativeMarker, k)
    ensures ParseStableDiffusion(tags).negativePrompt == ""
  {
    var params := Desc(tags, "parameters");
    IncludesIff(params, NegativeMarker);
    SplitOnSecond(params, NegativeMarker);
  }

  /** After the first negative marker, at `k`, the negative prompt is the
      trimmed text up to the first "Steps:" or the next negative marker. */
  lemma StableDiffusionNegative(tags: Tags, k: nat)
    requires OccursAt(Desc(tags, "parameters"), NegativeMarker, k)
    requires forall j | 0 <= j < k :: !OccursAt(Desc(tags, "parameters"), NegativeMarker, j)
    ensures exists a, b :: (
      && PrefixBefore(Desc(tags, "parameters")[k + |NegativeMarker|..], NegativeMarker, a)
      && PrefixBefore(a, StepsMarker, b)
      && ParseStableDiffusion(tags).negativePrompt == Trim(b))
  {
    var params := Desc(tags, "parameters");
    var pieces := SplitOn(params, NegativeMarker);
    IncludesIff(params, NegativeMarker);
    SplitOnSecond(params, NegativeMarker);
    assert IndexOf(params, NegativeMarker) == Some(k);
    var after := params[k + |NegativeMarker|..];
    assert pieces[1] == SplitOn(after, NegativeMarker)[0];
    SplitOnFirst(after, NegativeMarker);
    SplitOnFirst(pieces[1], StepsMarker);
    assert ParseStableDiffusion(tags).negativePrompt == Trim(SplitOn(pieces[1], StepsMarker)[0]);
  }

  // ---------------------------------------------------------------------------
  // parseComfyUIPrompts and parseComfyUI

  /** `JSON.parse` as an input: `None` where it throws. */
  type JsonParser = string -> Option<Json>

  /** The text handed to `JSON.parse`: the tag's description, or "{}". */
  function JsonText(tags: Tags, name: string): (r: string)
    ensures r != ""
    ensures Desc(tags, name) != "" ==> r == Desc(tags, name)
    ensures Desc(tags, name) == "" ==> r == "{}"
  {
    if Desc(tags, name) != "" then Desc(tags, name) else "{}"
  }

  /** The object holds an object `inputs` with a member `field` under `node`. */
  predicate InputPresent(m: map<string, Json>, node: string, field: string) {
    && node in m && m[node].JObject?
    && "inputs" in m[node].members && m[node].members["inputs"].JObject?
    && field in m[node].members["inputs"].members
  }

  /** `data[node]?.inputs?.field` on parsed data that is not `null`: the
      nested member when it is there, `undefined` when the node is missing
      or `null`. */
  function NodeInput(data: Json, node: string, field: string): (r: Option<Json>)
    requires !data.JNull?
    ensures data.JObject? && node !in data.members ==> r == None
    ensures data.JObject? && node in data.members && data.members[node].JNull? ==> r == None
    ensures data.JObject? && InputPresent(data.members, node, field) ==>
      r == Some(data.members[node].members["inputs"].members[field])
  {
    Member(Member(Get(data, node), "inputs"), field)
  }

  /** `parseComfyUIPrompts(exif)`: the checkpoint of node "1", the sampler
      settings of node "61" and the texts of nodes "39" and "25". Reading a
      node of `null` data throws, and so does a failed parse; both end in
      the string '{}'. */
  function ParseComfyUIPrompts(tags: Tags, jsonParse: JsonParser): (r: Metadata)
    ensures r.EmptyObjectText? <==> jsonParse(JsonText(tags, "prompt")) in {None, Some(JNull)}
    ensures r.ComfyPrompts? ==> Truthy(r.checkpoint) || r.checkpoint == JString("Unknown")
    ensures r.ComfyPrompts? ==>
      && (Truthy(r.cfg) || r.cfg == JString("")) && (Truthy(r.steps) || r.steps == JString(""))
      && (Truthy(r.seed) || r.seed == JString("")) && (Truthy(r.sampler) || r.sampler == JString(""))
      && (Truthy(r.scheduler) || r.scheduler == JString(""))
      && (Truthy(r.positiveText) || r.positiveText == JString(""))
      && (Truthy(r.negativeText) || r.negativeText == JString(""))
  {
    var parsed := jsonParse(JsonText(tags, "prompt"));
    if parsed.None? || parsed.value.JNull? then EmptyObjectText
    else
      var data := parsed.value;
      ComfyPrompts(
        OrElse(NodeInput(data, "1", "ckpt_name"), JString("Unknown")),
        OrElse(NodeInput(data, "61", "cfg"), JString("")),
        OrElse(NodeInput(data, "61", "steps"), JString("")),
        OrElse(NodeInput(data, "61", "seed"), JString("")),
        OrElse(NodeInput(data, "61", "sampler_name"), JString("")),
        OrElse(NodeInput(data, "61", "scheduler"), JString("")),
        OrElse(NodeInput(data, "39", "text"), JString("")),
        OrElse(NodeInput(data, "25", "text"), JString("")))
  }

  /** The two objects agree on `key`. */
  predicate SameAt(m1: map<string, Json>, m2: map<string, Json>, key: string) {
    (key in m1 <==> key in m2) && (key in m1 ==> m1[key] == m2[key])
  }

  /** Only the nodes "1", "61", "39" and "25" of the parsed object matter. */
  lemma ComfyUIPromptsFixedNodes(tags: Tags, parse1: JsonParser, parse2: JsonParser,
                                 m1: map<string, Json>, m2: map<string, Json>)
    requires parse1(JsonText(tags, "prompt")) == Some(JObject(m1))
    requires parse2(JsonText(tags, "prompt")) == Some(JObject(m2))
    requires SameAt(m1, m2, "1") && SameAt(m1, m2, "61") && SameAt(m1, m2, "39") && SameAt(m1, m2, "25")
    ensures ParseComfyUIPrompts(tags, parse1) == ParseComfyUIPrompts(tags, parse2)
  {
  }

  /** A node's field that is present and truthy is reported as is. */
  predicate HasInput(m: map<string, Json>, node: string, field: string, v: Json) {
    InputPresent(m, node, field) && m[node].members["inputs"].members[field] == v
  }

  /** Each field is read from its fixed node. */
  lemma ComfyUIPromptsReadsNodes(tags: Tags, jsonParse: JsonParser, m: map<string, Json>, v: Json)
    requires jsonParse(JsonText(tags, "prompt")) == Some(JObject(m)) && Truthy(v)
    ensures HasInput(m, "1", "ckpt_name", v) ==> ParseComfyUIPrompts(tags, jsonParse).checkpoint == v
    ensures HasInput(m, "61", "cfg", v) ==> ParseComfyUIPrompts(tags, jsonParse).cfg == v
    ensures HasInput(m, "61", "steps", v) ==> ParseComfyUIPrompts(tags, jsonParse).steps == v
    ensures HasInput(m, "61", "seed", v) ==> ParseComfyUIPrompts(tags, jsonParse).seed == v
    ensures HasInput(m, "61", "sampler_name", v) ==> ParseComfyUIPrompts(tags, jsonParse).sampler == v
    ensures HasInput(m, "61", "scheduler", v) ==> ParseComfyUIPrompts(tags, jsonParse).scheduler == v
    ensures HasInput(m, "39", "text", v) ==> ParseComfyUIPrompts(tags, jsonParse).positiveText == v
    ensures HasInput(m, "25", "text", v) ==> ParseComfyUIPrompts(tags, jsonParse).negativeText == v
  {
    var r := ParseComfyUIPrompts(tags, jsonParse);
    var data := JObject(m);
    assert r.checkpoint == OrElse(NodeInput(data, "1", "ckpt_name"), JString("Unknown"));
    assert r.cfg == OrElse(NodeInput(data, "61", "cfg"), JString(""));
    assert r.steps == OrElse(NodeInput(data, "61", "steps"), JString(""));
    assert r.seed == OrElse(NodeInput(data, "61", "seed"), JString(""));
    assert r.sampler == OrElse(NodeInput(data, "61", "sampler_name"), JString(""));
    assert r.scheduler == OrElse(NodeInput(data, "61", "scheduler"), JString(""));
    assert r.positiveText == OrElse(NodeInput(data, "39", "text"), JString(""));
    assert r.negativeText == OrElse(NodeInput(data, "25", "text"), JString(""));
  }

  /** `x || default` where the input is falsy or undefined. */
  predicate Falsy(o: Option<Json>) {
    !(o.Some? && Truthy(o.value))
  }

  /** A field whose input is missing or falsy (`0`, `""`, `false`, `null`)
      takes its default: 'Unknown' for the model, "" for the rest. */
  lemma ComfyUIPromptsFallBack(tags: Tags, jsonParse: JsonParser, data: Json)
    requires jsonParse(JsonText(tags, "prompt")) == Some(data) && !data.JNull?
    ensures Falsy(NodeInput(data, "1", "ckpt_name")) ==> ParseComfyUIPrompts(tags, jsonParse).checkpoint == JString("Unknown")
    ensures Falsy(NodeInput(data, "61", "cfg")) ==> ParseComfyUIPrompts(tags, jsonParse).cfg == JString("")
    ensures Falsy(NodeInput(data, "61", "steps")) ==> ParseComfyUIPrompts(tags, jsonParse).steps == JString("")
    ensures Falsy(NodeInput(data, "61", "seed")) ==> ParseComfyUIPrompts(tags, jsonParse).seed == JString("")
    ensures Falsy(NodeInput(data, "61", "sampler_name")) ==> ParseComfyUIPrompts(tags, jsonParse).sampler == JString("")
    ensures Falsy(NodeInput(data, "61", "scheduler")) ==> ParseComfyUIPrompts(tags, jsonParse).scheduler == JString("")
    ensures Falsy(NodeInput(data, "39", "text")) ==> ParseComfyUIPrompts(tags, jsonParse).positiveText == JString("")
    ensures Falsy(NodeInput(data, "25", "text")) ==> ParseComfyUIPrompts(tags, jsonParse).negativeText == JString("")
  {
    var r := ParseComfyUIPrompts(tags, jsonParse);
    assert r.checkpoint == OrElse(NodeInput(data, "1", "ckpt_name"), JString("Unknown"));
    assert r.cfg == OrElse(NodeInput(data, "61", "cfg"), JString(""));
    assert r.steps == OrElse(NodeInput(data, "61", "steps"), JString(""));
    assert r.seed == OrElse(NodeInput(data, "61", "seed"), JString(""));
    assert r.sampler == OrElse(NodeInput(data, "61", "sampler_name"), JString(""));
    assert r.scheduler == OrElse(NodeInput(data, "61", "scheduler"), JString(""));
    assert r.positiveText == OrElse(NodeInput(data, "39", "text"), JString(""));
    assert r.negativeText == OrElse(NodeInput(data, "25", "text"), JString(""));
  }

  /** An object without the nodes gives every default: 'Unknown' for the
      model and "" for the rest. */
  lemma ComfyUIPromptsDefaults(tags: Tags, jsonParse: JsonParser, m: map<string, Json>)
    requires jsonParse(JsonText(tags, "prompt")) == Some(JObject(m))
    requires "1" !in m && "61" !in m && "39" !in m && "25" !in m
    ensures ParseComfyUIPrompts(tags, jsonParse) ==
      ComfyPrompts(JString("Unknown"), JString(""), JString(""), JString(""), JString(""),
                   JString(""), JString(""), JString(""))
  {
  }

  /** `parseComfyUI(exif)`: the prompts, unless the `workflow` text fails
      to parse, which sends the image to `parseGeneric`. What the workflow
      parses to is never used. */
  function ParseComfyUI(tags: Tags, jsonParse: JsonParser): (r: Metadata)
    ensures jsonParse(JsonText(tags, "workflow")).Some? ==> r == ParseComfyUIPrompts(tags, jsonParse)
    ensures jsonParse(JsonText(tags, "workflow")).None? ==> r == ParseGeneric(tags)
    ensures jsonParse(JsonText(tags, "workflow")).None? ==>
      r.Prompts? && r.negativePrompt == "" && r.parameters == map[] && r.rawParameters == None && r.model != ""
  {
    var prompts := ParseComfyUIPrompts(tags, jsonParse);
    if jsonParse(JsonText(tags, "workflow")).None? then ParseGeneric(tags) else prompts
  }

  // ---------------------------------------------------------------------------
  // the dispatch in parse

  datatype Parsed = Parsed(generator: Generator, metadata: Metadata)

  /** The part of `parse(file)` between reading the tags and assembling the
      answer: detect the generator, then run its parser. An exception
      thrown by the detection is the `Err`. */
  function ParseMetadata(tags: Tags, jsonParse: JsonParser): (r: Result<Parsed, Failure>)
    ensures r.Err? <==> DetectGenerator(tags).Err?
    ensures r.Ok? ==> r.value.generator == DetectGenerator(tags).value
    ensures r.Ok? && r.value.generator == NovelAI ==> r.value.metadata == ParseNovelAI(tags)
    ensures r.Ok? && r.value.generator == ComfyUI ==> r.value.metadata == ParseComfyUI(tags, jsonParse)
    ensures r.Ok? && r.value.generator == StableDiffusion ==> r.value.metadata == ParseStableDiffusion(tags)
  {
    match DetectGenerator(tags)
    case Err(e) => Err(e)
    case Ok(g) =>
      var metadata := match g
        case NovelAI => ParseNovelAI(tags)
        case ComfyUI => ParseComfyUI(tags, jsonParse)
        case StableDiffusion => ParseStableDiffusion(tags)
        case Unknown => ParseGeneric(tags);
      Ok(Parsed(g, metadata))
  }

  /** An image with a `parameters` (or `Parameters`) tag and no ComfyUI pair
      is labelled NovelAI and read with the NovelAI rules: its prompts come
      from `ImageDescription` or `Comment`, not from the parameters. */
  lemma ParametersTagReadAsNovelAI(tags: Tags, jsonParse: JsonParser)
    requires "parameters" in tags || "Parameters" in tags
    requires !("prompt" in tags && "workflow" in tags)
    ensures ParseMetadata(tags, jsonParse) == Ok(Parsed(NovelAI, ParseNovelAI(tags)))
    ensures ParseMetadata(tags, jsonParse).value.metadata.model == "NovelAI"
  {
  }

  /** When the detection picks Stable Diffusion there is no `parameters`
      tag, so its parser reads the empty text: everything comes out empty. */
  lemma StableDiffusionDispatchEmpty(tags: Tags, jsonParse: JsonParser)
    requires DetectGenerator(tags) == Ok(StableDiffusion)
    ensures ParseMetadata(tags, jsonParse) ==
      Ok(Parsed(StableDiffusion, Prompts("Stable Diffusion", "", "", map[], Some(""))))
  {
    assert Desc(tags, "parameters") == "";
    assert SplitOn("", NegativeMarker) == [""];
    assert Trim("") == "";
    SDParametersEmpty();
  }

  /** No tag set reaches the generic parser through the `default` case; it
      is reached only from `parseComfyUI`. */
  lemma GenericOnlyFromComfyUI(tags: Tags, jsonParse: JsonParser)
    requires ParseMetadata(tags, jsonParse).Ok?
    ensures ParseMetadata(tags, jsonParse).value.generator != Unknown
  {
  }
}
