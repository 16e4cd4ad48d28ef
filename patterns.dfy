/** The seven fixed patterns `extractSDParameters` looks for in a Stable
    Diffusion parameter string (js/parser.js), written out as matchers.

    Each pattern is a literal marker followed by one capture group:
      Steps: (\d+)           Sampler: ([^,]+)     CFG scale: (\d+\.?\d*)
      Seed: (\d+)            Size: (\d+x\d+)      Model hash: (\w+)
      Model: ([^,]+)
    `String.prototype.match` with such a non-global pattern finds the
    leftmost position where the marker occurs and the group matches; the
    group is greedy and nothing follows it, so it takes the longest run
    its shape allows. */
module SdPatterns {
  import opened Wrappers
  import opened Text

  /** The character classes the groups use (`\d` and `\w` are ASCII-only in
      JavaScript without the `u` flag). */
  datatype CharClass = Digit | Word | NonComma

  predicate InClass(cl: CharClass, c: char) {
    match cl
    case Digit => '0' <= c <= '9'
    case Word => ('0' <= c <= '9') || ('a' <= c <= 'z') || ('A' <= c <= 'Z') || c == '_'
    case NonComma => c != ','
  }

  /** The end of the run of `cl` characters starting at `k`. */
  function SpanEnd(s: string, k: nat, cl: CharClass): (e: nat)
    requires k <= |s|
    ensures k <= e <= |s|
    decreases |s| - k
  {
    if k < |s| && InClass(cl, s[k]) then SpanEnd(s, k + 1, cl) else k
  }

  /** The run is the longest one: every character in it is of class `cl`,
      and the one after it is not. */
  lemma {:induction false} SpanEndSpec(s: string, k: nat, cl: CharClass)
    requires k <= |s|
    ensures forall i | k <= i < SpanEnd(s, k, cl) :: InClass(cl, s[i])
    ensures SpanEnd(s, k, cl) == |s| || !InClass(cl, s[SpanEnd(s, k, cl)])
    decreases |s| - k
  {
    if k < |s| && InClass(cl, s[k]) {
      SpanEndSpec(s, k + 1, cl);
    }
  }

  /** The shapes of the capture groups. */
  datatype Capture =
    | Digits      // (\d+)
    | NoCommas    // ([^,]+)
    | Decimal     // (\d+\.?\d*)
    | Dimensions  // (\d+x\d+)
    | WordChars   // (\w+)

  /** Where the group, started at `k`, ends when it matches there. */
  function CaptureEnd(cap: Capture, s: string, k: nat): (r: Option<nat>)
    requires k <= |s|
    ensures r.Some? ==> k < r.value <= |s|
  {
    match cap
    case Digits => Run(s, k, Digit)
    case NoCommas => Run(s, k, NonComma)
    case WordChars => Run(s, k, Word)
    case Decimal =>
      var e := SpanEnd(s, k, Digit);
      if e == k then None
      else if e < |s| && s[e] == '.' then Some(SpanEnd(s, e + 1, Digit))
      else Some(e)
    case Dimensions =>
      var e := SpanEnd(s, k, Digit);
      if e == k || e == |s| || s[e] != 'x' then None
      else
        var e' := SpanEnd(s, e + 1, Digit);
        if e' == e + 1 then None else Some(e')
  }

  /** `(c+)` for a class `c`: the longest non-empty run. */
  function Run(s: string, k: nat, cl: CharClass): (r: Option<nat>)
    requires k <= |s|
    ensures r.Some? ==> k < r.value <= |s|
  {
    var e := SpanEnd(s, k, cl);
    if e == k then None else Some(e)
  }

  /** The characters of `c` from `lo` up to `hi` are all of class `cl`. */
  predicate AllIn(c: string, lo: nat, hi: nat, cl: CharClass)
    requires lo <= hi <= |c|
  {
    forall i | lo <= i < hi :: InClass(cl, c[i])
  }

  /** What a successful group holds. */
  predicate Shaped(cap: Capture, c: string) {
    match cap
    case Digits => c != [] && AllIn(c, 0, |c|, Digit)
    case NoCommas => c != [] && AllIn(c, 0, |c|, NonComma)
    case WordChars => c != [] && AllIn(c, 0, |c|, Word)
    case Decimal =>
      exists a: nat | 0 < a <= |c| ::
        AllIn(c, 0, a, Digit) && (a == |c| || (c[a] == '.' && AllIn(c, a + 1, |c|, Digit)))
    case Dimensions =>
      exists a: nat | 0 < a < |c| - 1 ::
        AllIn(c, 0, a, Digit) && c[a] == 'x' && AllIn(c, a + 1, |c|, Digit)
  }

  /** The class of the last part of each group. */
  function LastClass(cap: Capture): CharClass {
    match cap
    case Digits => Digit
    case Decimal => Digit
    case Dimensions => Digit
    case NoCommas => NonComma
    case WordChars => Word
  }

  /** Every group is greedy: the character right after it could not
      extend its last run, and for a decimal without a fraction it is not
      a `.` either. */
  lemma CaptureMaximal(cap: Capture, s: string, k: nat)
    requires k <= |s| && CaptureEnd(cap, s, k).Some?
    ensures var e := CaptureEnd(cap, s, k).value;
      e == |s| || !InClass(LastClass(cap), s[e])
    ensures cap == Decimal ==>
      var e := CaptureEnd(cap, s, k).value;
      e == |s| || s[e] != '.' || exists i | k <= i < e :: s[i] == '.'
  {
    var e := SpanEnd(s, k, LastClass(cap));
    SpanEndSpec(s, k, LastClass(cap));
    match cap
    case Decimal =>
      if e < |s| && s[e] == '.' {
        SpanEndSpec(s, e + 1, Digit);
        assert s[e] == '.';
      }
    case Dimensions =>
      SpanEndSpec(s, e + 1, Digit);
    case _ =>
  }

  /** A run of `cl` characters from `k` to `e` lies within the span. */
  lemma {:induction false} SpanEndReaches(s: string, k: nat, e: nat, cl: CharClass)
    requires k <= e <= |s|
    requires forall i | k <= i < e :: InClass(cl, s[i])
    ensures e <= SpanEnd(s, k, cl)
    decreases e - k
  {
    if k < e {
      SpanEndReaches(s, k + 1, e, cl);
    }
  }

  /** The characters of a slice are those of the string, shifted. */
  lemma AllInSlice(s: string, k: nat, e: nat, lo: nat, hi: nat, cl: CharClass)
    requires k <= e <= |s| && lo <= hi <= e - k
    requires AllIn(s[k..e], lo, hi, cl)
    ensures forall i | k + lo <= i < k + hi :: InClass(cl, s[i])
  {
    forall i | k + lo <= i < k + hi ensures InClass(cl, s[i]) {
      assert s[k..e][i - k] == s[i];
    }
  }

  /** Every group matches wherever text of its shape follows, and takes
      at least that text: the group fails only where the regular
      expression's group would fail too. */
  lemma CaptureComplete(cap: Capture, s: string, k: nat, e: nat)
    requires k < e <= |s| && Shaped(cap, s[k..e])
    ensures CaptureEnd(cap, s, k).Some? && e <= CaptureEnd(cap, s, k).value
  {
    match cap
    case Digits => RunComplete(s, k, e, Digit);
    case NoCommas => RunComplete(s, k, e, NonComma);
    case WordChars => RunComplete(s, k, e, Word);
    case Decimal => DecimalComplete(s, k, e);
    case Dimensions => DimensionsComplete(s, k, e);
  }

  lemma RunComplete(s: string, k: nat, e: nat, cl: CharClass)
    requires k < e <= |s| && AllIn(s[k..e], 0, e - k, cl)
    ensures Run(s, k, cl).Some? && e <= Run(s, k, cl).value
  {
    AllInSlice(s, k, e, 0, e - k, cl);
    SpanEndReaches(s, k, e, cl);
  }

  lemma DecimalComplete(s: string, k: nat, e: nat)
    requires k < e <= |s| && Shaped(Decimal, s[k..e])
    ensures CaptureEnd(Decimal, s, k).Some? && e <= CaptureEnd(Decimal, s, k).value
  {
    var c := s[k..e];
    var a: nat :| 0 < a <= |c| &&
      AllIn(c, 0, a, Digit) && (a == |c| || (c[a] == '.' && AllIn(c, a + 1, |c|, Digit)));
    AllInSlice(s, k, e, 0, a, Digit);
    SpanEndReaches(s, k, k + a, Digit);
    var d := SpanEnd(s, k, Digit);
    SpanEndSpec(s, k, Digit);
    if a < |c| {
      assert s[k + a] == c[a] == '.';
      assert d == k + a;
      AllInSlice(s, k, e, a + 1, |c|, Digit);
      SpanEndReaches(s, k + a + 1, e, Digit);
    } else if d < |s| && s[d] == '.' {
      SpanEndSpec(s, d + 1, Digit);
    }
  }

  lemma DimensionsComplete(s: string, k: nat, e: nat)
    requires k < e <= |s| && Shaped(Dimensions, s[k..e])
    ensures CaptureEnd(Dimensions, s, k).Some? && e <= CaptureEnd(Dimensions, s, k).value
  {
    var c := s[k..e];
    var a: nat :| 0 < a < |c| - 1 &&
      AllIn(c, 0, a, Digit) && c[a] == 'x' && AllIn(c, a + 1, |c|, Digit);
    AllInSlice(s, k, e, 0, a, Digit);
    AllInSlice(s, k, e, a + 1, |c|, Digit);
    SpanEndReaches(s, k, k + a, Digit);
    SpanEndSpec(s, k, Digit);
    assert s[k + a] == c[a] == 'x';
    assert SpanEnd(s, k, Digit) == k + a;
    SpanEndReaches(s, k + a + 1, e, Digit);
  }

  /** A run of class `cl` in `s` is a string of that class. */
  lemma RunIn(s: string, k: nat, e: nat, cl: CharClass, lo: nat, hi: nat)
    requires k <= e <= |s| && lo <= hi <= e - k
    requires forall i | k + lo <= i < k + hi :: InClass(cl, s[i])
    ensures AllIn(s[k..e], lo, hi, cl)
  {
  }

  /** Every group that matches holds text of its shape. */
  lemma CaptureShape(cap: Capture, s: string, k: nat)
    requires k <= |s| && CaptureEnd(cap, s, k).Some?
    ensures Shaped(cap, s[k..CaptureEnd(cap, s, k).value])
  {
    match cap
    case Digits => RunShape(s, k, Digit);
    case NoCommas => RunShape(s, k, NonComma);
    case WordChars => RunShape(s, k, Word);
    case Decimal => DecimalShape(s, k);
    case Dimensions => DimensionsShape(s, k);
  }

  lemma RunShape(s: string, k: nat, cl: CharClass)
    requires k <= |s| && Run(s, k, cl).Some?
    ensures AllIn(s[k..Run(s, k, cl).value], 0, Run(s, k, cl).value - k, cl)
  {
    SpanEndSpec(s, k, cl);
    RunIn(s, k, Run(s, k, cl).value, cl, 0, Run(s, k, cl).value - k);
  }

  lemma DecimalShape(s: string, k: nat)
    requires k <= |s| && CaptureEnd(Decimal, s, k).Some?
    ensures Shaped(Decimal, s[k..CaptureEnd(Decimal, s, k).value])
  {
    var end := CaptureEnd(Decimal, s, k).value;
    var c := s[k..end];
    var e := SpanEnd(s, k, Digit);
    SpanEndSpec(s, k, Digit);
    RunIn(s, k, end, Digit, 0, e - k);
    if e < |s| && s[e] == '.' {
      SpanEndSpec(s, e + 1, Digit);
      RunIn(s, k, end, Digit, e - k + 1, |c|);
      assert c[e - k] == '.';
    }
    assert AllIn(c, 0, e - k, Digit) && (e - k == |c| || (c[e - k] == '.' && AllIn(c, e - k + 1, |c|, Digit)));
  }

  lemma DimensionsShape(s: string, k: nat)
    requires k <= |s| && CaptureEnd(Dimensions, s, k).Some?
    ensures Shaped(Dimensions, s[k..CaptureEnd(Dimensions, s, k).value])
  {
    var end := CaptureEnd(Dimensions, s, k).value;
    var c := s[k..end];
    var e := SpanEnd(s, k, Digit);
    SpanEndSpec(s, k, Digit);
    SpanEndSpec(s, e + 1, Digit);
    RunIn(s, k, end, Digit, 0, e - k);
    RunIn(s, k, end, Digit, e - k + 1, |c|);
    assert c[e - k] == 'x';
    assert AllIn(c, 0, e - k, Digit) && c[e - k] == 'x' && AllIn(c, e - k + 1, |c|, Digit);
  }

  // ---------------------------------------------------------------------------
  // One pattern: a marker and a group

  datatype Pattern = Pattern(key: string, marker: string, capture: Capture)

  /** The pattern matches at `k`: the marker occurs there and the group
      matches right after it. */
  predicate MatchesAt(s: string, p: Pattern, k: nat) {
    OccursAt(s, p.marker, k) && CaptureEnd(p.capture, s, k + |p.marker|).Some?
  }

  /** The leftmost position at or after `from` where `p` matches. */
  function FirstMatch(s: string, p: Pattern, from: nat): (r: Option<nat>)
    ensures r.Some? ==> from <= r.value && MatchesAt(s, p, r.value)
    ensures r.Some? ==> forall j | from <= j < r.value :: !MatchesAt(s, p, j)
    ensures r.None? ==> forall j | from <= j :: !MatchesAt(s, p, j)
    decreases |s| - from
  {
    if from + |p.marker| > |s| then None
    else if MatchesAt(s, p, from) then Some(from)
    else FirstMatch(s, p, from + 1)
  }

  /** The text the group takes in a match at `k`. */
  function GroupAt(s: string, p: Pattern, k: nat): string
    requires MatchesAt(s, p, k)
  {
    s[k + |p.marker|..CaptureEnd(p.capture, s, k + |p.marker|).value]
  }

  /** `s.match(pattern)?.[1]`: the group of the leftmost match. */
  function Captured(s: string, p: Pattern): Option<string> {
    match FirstMatch(s, p, 0)
    case None => None
    case Some(k) => Some(GroupAt(s, p, k))
  }

  /** A pattern captures nothing exactly when it matches nowhere, and
      otherwise captures the group of its leftmost match. */
  lemma CapturedSpec(s: string, p: Pattern)
    ensures Captured(s, p).None? <==> forall k: nat :: !MatchesAt(s, p, k)
    ensures forall k: nat | MatchesAt(s, p, k) && (forall j: nat | j < k :: !MatchesAt(s, p, j)) ::
      Captured(s, p) == Some(GroupAt(s, p, k))
  {
    var first := FirstMatch(s, p, 0);
    if first.Some? {
      assert MatchesAt(s, p, first.value);
    }
  }

  /** What a pattern captures has the shape of its group. */
  lemma CapturedShape(s: string, p: Pattern)
    ensures Captured(s, p).Some? ==> Shaped(p.capture, Captured(s, p).value)
  {
    var first := FirstMatch(s, p, 0);
    if first.Some? {
      CaptureShape(p.capture, s, first.value + |p.marker|);
      assert Captured(s, p).value == GroupAt(s, p, first.value);
    }
  }

  /** Nothing matches in the empty string. */
  lemma CapturedEmpty(p: Pattern)
    requires p.marker != []
    ensures Captured("", p) == None
  {
  }

  // ---------------------------------------------------------------------------
  // The seven patterns, in the order the source lists them

  const SDPatterns: seq<Pattern> := [
    Pattern("Steps", "Steps: ", Digits),
    Pattern("Sampler", "Sampler: ", NoCommas),
    Pattern("CFG scale", "CFG scale: ", Decimal),
    Pattern("Seed", "Seed: ", Digits),
    Pattern("Size", "Size: ", Dimensions),
    Pattern("Model hash", "Model hash: ", WordChars),
    Pattern("Model", "Model: ", NoCommas)
  ]

  /** A pattern's key with what the pattern captured. */
  datatype Found = Found(key: string, capture: Option<string>)

  /** What each pattern finds in `s`. */
  function FoundIn(s: string, ps: seq<Pattern>): (fs: seq<Found>)
    ensures |fs| == |ps|
    ensures forall i | 0 <= i < |ps| :: fs[i] == Found(ps[i].key, Captured(s, ps[i]))
  {
    seq(|ps|, i requires 0 <= i < |ps| => Found(ps[i].key, Captured(s, ps[i])))
  }

  /** The result object after the first `|fs|` patterns: each capture is
      stored under its pattern's key. */
  function Collect(fs: seq<Found>): map<string, string> {
    if fs == [] then map[]
    else
      var m := Collect(fs[..|fs| - 1]);
      var f := fs[|fs| - 1];
      if f.capture.Some? then m[f.key := f.capture.value] else m
  }

  /** `extractSDParameters(params)` as a value. */
  function SDParameters(params: string): map<string, string> {
    Collect(FoundIn(params, SDPatterns))
  }

  /** With keys that differ, each key is present exactly when its pattern
      captured something, holding that capture, and no other key appears. */
  lemma {:induction false} CollectSpec(fs: seq<Found>)
    requires forall i, j | 0 <= i < j < |fs| :: fs[i].key != fs[j].key
    ensures forall key | key in Collect(fs) :: exists i | 0 <= i < |fs| :: fs[i].key == key
    ensures forall i | 0 <= i < |fs| ::
      (fs[i].key in Collect(fs) <==> fs[i].capture.Some?) &&
      (fs[i].key in Collect(fs) ==> Collect(fs)[fs[i].key] == fs[i].capture.value)
  {
    if fs != [] {
      var init := fs[..|fs| - 1];
      CollectSpec(init);
      forall key | key in Collect(fs) ensures exists i | 0 <= i < |fs| :: fs[i].key == key {
        if key in Collect(init) {
          var i :| 0 <= i < |init| && init[i].key == key;
          assert fs[i] == init[i];
        } else {
          assert fs[|fs| - 1].key == key;
        }
      }
      forall i | 0 <= i < |init|
        ensures (fs[i].key in Collect(fs) <==> fs[i].capture.Some?)
        ensures fs[i].key in Collect(fs) ==> Collect(fs)[fs[i].key] == fs[i].capture.value
      {
        assert fs[i] == init[i];
        assert fs[i].key != fs[|fs| - 1].key;
      }
    }
  }

  /** The characterization for the seven patterns: a key is present exactly
      when its pattern matches somewhere, its value is the group of the
      leftmost match, and the value has the group's shape (`Steps` and
      `Seed` digits, `Size` digits `x` digits, `Sampler` and `Model` no
      comma). No other key appears. */
  lemma SDParametersSpec(params: string)
    ensures forall key | key in SDParameters(params) :: exists i | 0 <= i < |SDPatterns| :: SDPatterns[i].key == key
    ensures forall i | 0 <= i < |SDPatterns| ::
      SDPatterns[i].key in SDParameters(params) <==> exists k: nat :: MatchesAt(params, SDPatterns[i], k)
    ensures forall i, k: nat | 0 <= i < |SDPatterns| && MatchesAt(params, SDPatterns[i], k) &&
        (forall j: nat | j < k :: !MatchesAt(params, SDPatterns[i], j)) ::
      SDParameters(params)[SDPatterns[i].key] == GroupAt(params, SDPatterns[i], k)
    ensures forall i | 0 <= i < |SDPatterns| && SDPatterns[i].key in SDParameters(params) ::
      Shaped(SDPatterns[i].capture, SDParameters(params)[SDPatterns[i].key])
  {
    var fs := FoundIn(params, SDPatterns);
    CollectSpec(fs);
    forall i | 0 <= i < |SDPatterns| ensures
      && (SDPatterns[i].key in SDParameters(params) <==> exists k: nat :: MatchesAt(params, SDPatterns[i], k))
      && (forall k: nat | MatchesAt(params, SDPatterns[i], k) && (forall j: nat | j < k :: !MatchesAt(params, SDPatterns[i], j)) ::
            SDParameters(params)[SDPatterns[i].key] == GroupAt(params, SDPatterns[i], k))
      && (SDPatterns[i].key in SDParameters(params) ==>
            Shaped(SDPatterns[i].capture, SDParameters(params)[SDPatterns[i].key]))
    {
      CapturedSpec(params, SDPatterns[i]);
      CapturedShape(params, SDPatterns[i]);
    }
  }

  /** Wherever a marker is followed by text of its group's shape, the
      key is extracted: no parameter is missed that the regular
      expression would find. */
  lemma SDParametersFound(params: string, i: nat, k: nat, e: nat)
    requires i < |SDPatterns|
    requires OccursAt(params, SDPatterns[i].marker, k)
    requires k + |SDPatterns[i].marker| < e <= |params|
    requires Shaped(SDPatterns[i].capture, params[k + |SDPatterns[i].marker|..e])
    ensures SDPatterns[i].key in SDParameters(params)
  {
    CaptureComplete(SDPatterns[i].capture, params, k + |SDPatterns[i].marker|, e);
    assert MatchesAt(params, SDPatterns[i], k);
    SDParametersSpec(params);
  }

  /** The empty parameter string yields no parameter. */
  lemma SDParametersEmpty()
    ensures SDParameters("") == map[]
  {
    forall i | 0 <= i < |SDPatterns| ensures Captured("", SDPatterns[i]) == None {
      CapturedEmpty(SDPatterns[i]);
    }
    CollectSpec(FoundIn("", SDPatterns));
  }

  /** `extractSDParameters(params)`: tries the patterns in order and stores
      the capture of each one that matches under its key. */
  method ExtractSDParameters(params: string) returns (result: map<string, string>)
    ensures result == SDParameters(params)
  {
    result := map[];
    ghost var fs := FoundIn(params, SDPatterns);
    var i := 0;
    while i < |SDPatterns|
      invariant 0 <= i <= |SDPatterns|
      invariant result == Collect(fs[..i])
    {
      var p := SDPatterns[i];
      var captured := Captured(params, p);
      if captured.Some? {
        result := result[p.key := captured.value];
      }
      assert fs[..i + 1][..i] == fs[..i];
      i := i + 1;
    }
    assert fs[..i] == fs;
  }
}
