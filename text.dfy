/** The JavaScript string operations the matcher and the parser rely on:
    `toLowerCase`, `trim`, `split` by one character and by a marker string,
    `includes`, and the two global replacements `replace(/\\/g, '')` and
    `replace(/\s+/g, '_')`. Strings are sequences of characters. */
module Text {
  import opened Wrappers

  /** The characters JavaScript's `\s` matches and `trim()` removes:
      white space and line terminators. */
  predicate IsWhitespace(c: char) {
    || c == ' ' || c == '\t' || c == '\n' || c == '\r' || c == '\U{B}' || c == '\U{C}'
    || c == '\U{A0}' || c == '\U{1680}' || ('\U{2000}' <= c <= '\U{200A}')
    || c == '\U{2028}' || c == '\U{2029}' || c == '\U{202F}' || c == '\U{205F}'
    || c == '\U{3000}' || c == '\U{FEFF}'
  }

  predicate NoWhitespace(s: string) {
    forall i | 0 <= i < |s| :: !IsWhitespace(s[i])
  }

  // ---------------------------------------------------------------------------
  // toLowerCase, one character at a time (ASCII letters only)

  function LowerChar(c: char): char {
    if 'A' <= c <= 'Z' then (c as int - 'A' as int + 'a' as int) as char else c
  }

  function ToLower(s: string): (r: string)
    ensures |r| == |s|
    ensures forall i | 0 <= i < |s| :: r[i] == LowerChar(s[i])
  {
    seq(|s|, i requires 0 <= i < |s| => LowerChar(s[i]))
  }

  /** Lower-casing twice is lower-casing once. */
  lemma ToLowerIdempotent(s: string)
    ensures ToLower(ToLower(s)) == ToLower(s)
  {
  }

  // ---------------------------------------------------------------------------
  // trim

  function TrimStart(s: string): string {
    if s != [] && IsWhitespace(s[0]) then TrimStart(s[1..]) else s
  }

  function TrimEnd(s: string): string {
    if s != [] && IsWhitespace(s[|s| - 1]) then TrimEnd(s[..|s| - 1]) else s
  }

  /** `TrimStart` drops exactly the leading white space. */
  lemma {:induction false} TrimStartSpec(s: string)
    ensures var r := TrimStart(s);
      && |r| <= |s| && r == s[|s| - |r|..]
      && (forall i | 0 <= i < |s| - |r| :: IsWhitespace(s[i]))
      && (r == [] || !IsWhitespace(r[0]))
  {
    if s != [] && IsWhitespace(s[0]) {
      var t := s[1..];
      TrimStartSpec(t);
      var r := TrimStart(t);
      assert TrimStart(s) == r;
      assert t[|t| - |r|..] == s[|s| - |r|..];
      forall i | 0 <= i < |s| - |r| ensures IsWhitespace(s[i]) {
        if i > 0 {
          assert s[i] == t[i - 1];
        }
      }
    }
  }

  /** `TrimEnd` drops exactly the trailing white space. */
  lemma {:induction false} TrimEndSpec(s: string)
    ensures var r := TrimEnd(s);
      && |r| <= |s| && r == s[..|r|]
      && (forall i | |r| <= i < |s| :: IsWhitespace(s[i]))
      && (r == [] || !IsWhitespace(r[|r| - 1]))
  {
    if s != [] && IsWhitespace(s[|s| - 1]) {
      var t := s[..|s| - 1];
      TrimEndSpec(t);
      var r := TrimEnd(t);
      assert TrimEnd(s) == r;
      assert t[..|r|] == s[..|r|];
      forall i | |r| <= i < |s| ensures IsWhitespace(s[i]) {
        if i < |t| {
          assert s[i] == t[i];
        }
      }
    }
  }

  /** `s.trim()`: the part of `s` left after removing the white space at both ends. */
  function Trim(s: string): (r: string)
    ensures |r| <= |s|
    ensures r == [] || (!IsWhitespace(r[0]) && !IsWhitespace(r[|r| - 1]))
  {
    TrimStartSpec(s);
    TrimEndSpec(TrimStart(s));
    TrimEnd(TrimStart(s))
  }

  /** The trimmed string is a slice of the original with only white space outside it. */
  lemma TrimSlice(s: string)
    ensures exists a :: TrimmedAt(s, Trim(s), a)
  {
    var t := TrimStart(s);
    TrimStartSpec(s);
    TrimEndSpec(t);
    assert TrimmedAt(s, Trim(s), |s| - |t|);
  }

  /** `r` is the slice of `s` starting at `a`, and everything outside it is white space. */
  ghost predicate TrimmedAt(s: string, r: string, a: int) {
    && 0 <= a <= |s| - |r|
    && r == s[a..a + |r|]
    && (forall i | 0 <= i < a :: IsWhitespace(s[i]))
    && (forall i | a + |r| <= i < |s| :: IsWhitespace(s[i]))
  }

  /** A string trims to nothing exactly when it is all white space. */
  lemma TrimEmpty(s: string)
    ensures Trim(s) == [] <==> forall i | 0 <= i < |s| :: IsWhitespace(s[i])
  {
    var r := Trim(s);
    TrimSlice(s);
    var a :| TrimmedAt(s, r, a);
    if r != [] {
      assert s[a] == r[0];
    }
  }

  /** A character absent from `s` is absent from `s.trim()`. */
  lemma TrimKeepsAbsent(s: string, c: char)
    requires forall k | 0 <= k < |s| :: s[k] != c
    ensures forall k | 0 <= k < |Trim(s)| :: Trim(s)[k] != c
  {
    var r := Trim(s);
    TrimSlice(s);
    var a :| TrimmedAt(s, r, a);
    forall k | 0 <= k < |r| ensures r[k] != c {
      assert r[k] == s[a + k];
    }
  }

  /** `parts.map(p => p.trim())`. */
  function TrimEach(parts: seq<string>): seq<string> {
    seq(|parts|, i requires 0 <= i < |parts| => Trim(parts[i]))
  }

  // ---------------------------------------------------------------------------
  // split by one character, and its inverse

  /** `s.split(sep)` for a one-character separator: the maximal runs between separators. */
  function Split(s: string, sep: char): (parts: seq<string>)
    ensures |parts| >= 1
  {
    if s == [] then [[]]
    else
      var rest := Split(s[1..], sep);
      if s[0] == sep then [[]] + rest
      else [[s[0]] + rest[0]] + rest[1..]
  }

  /** No piece holds the separator. */
  lemma {:induction false} SplitPiecesFree(s: string, sep: char)
    ensures forall i | 0 <= i < |Split(s, sep)| :: sep !in Split(s, sep)[i]
  {
    if s != [] {
      SplitPiecesFree(s[1..], sep);
      var rest := Split(s[1..], sep);
      if s[0] != sep {
        assert sep !in [s[0]] + rest[0];
      }
    }
  }

  /** The trimmed pieces of `s.split(sep)` hold no `sep`. */
  lemma TrimmedPiecesFree(s: string, sep: char)
    ensures forall i, k | 0 <= i < |TrimEach(Split(s, sep))| && 0 <= k < |TrimEach(Split(s, sep))[i]| ::
      TrimEach(Split(s, sep))[i][k] != sep
  {
    var pieces := Split(s, sep);
    SplitPiecesFree(s, sep);
    forall i | 0 <= i < |pieces|
      ensures forall k | 0 <= k < |Trim(pieces[i])| :: Trim(pieces[i])[k] != sep
    {
      assert sep !in pieces[i];
      TrimKeepsAbsent(pieces[i], sep);
    }
  }

  /** A character absent from `s` is absent from every piece of `s.split(sep)`. */
  lemma {:induction false} SplitKeepsAbsent(s: string, sep: char, c: char)
    requires forall k | 0 <= k < |s| :: s[k] != c
    ensures forall i, k | 0 <= i < |Split(s, sep)| && 0 <= k < |Split(s, sep)[i]| :: Split(s, sep)[i][k] != c
  {
    if s != [] {
      SplitKeepsAbsent(s[1..], sep, c);
      var rest := Split(s[1..], sep);
      if s[0] != sep {
        var first := [s[0]] + rest[0];
        assert forall k | 0 <= k < |first| :: first[k] != c by {
          forall k | 0 <= k < |first| ensures first[k] != c {
            if k > 0 { assert first[k] == rest[0][k - 1]; }
          }
        }
        assert Split(s, sep) == [first] + rest[1..];
      }
    }
  }

  /** `parts.join(sep)`. */
  function Join(parts: seq<string>, sep: char): string
    requires |parts| >= 1
  {
    if |parts| == 1 then parts[0] else parts[0] + [sep] + Join(parts[1..], sep)
  }

  /** Joining the pieces with the separator gives back the text. */
  lemma {:induction false} JoinSplit(s: string, sep: char)
    ensures Join(Split(s, sep), sep) == s
  {
    if s != [] {
      var rest := Split(s[1..], sep);
      JoinSplit(s[1..], sep);
      if s[0] != sep {
        var parts := Split(s, sep);
        assert parts[1..] == rest[1..];
        if |rest| == 1 {
          assert Join(parts, sep) == [s[0]] + rest[0];
        } else {
          assert Join(parts, sep) == [s[0]] + rest[0] + [sep] + Join(rest[1..], sep);
        }
      } else {
        assert Join(Split(s, sep), sep) == [] + [sep] + Join(rest, sep);
      }
    }
  }

  /** Splitting a join of separator-free pieces gives back the pieces. */
  lemma {:induction false} SplitJoin(parts: seq<string>, sep: char)
    requires |parts| >= 1
    requires forall i | 0 <= i < |parts| :: sep !in parts[i]
    ensures Split(Join(parts, sep), sep) == parts
  {
    if |parts| == 1 {
      SplitSepFree(parts[0], sep);
    } else {
      var j := Join(parts[1..], sep);
      var t := [sep] + j;
      SplitJoin(parts[1..], sep);
      SplitPrefix(parts[0], t, sep);
      assert Join(parts, sep) == parts[0] + t;
      assert t[1..] == j;
      var st := Split(t, sep);
      assert st == [[]] + parts[1..];
      assert st[0] == [] && st[1..] == parts[1..];
      assert parts[0] + st[0] == parts[0];
      assert [parts[0]] + parts[1..] == parts;
    }
  }

  lemma {:induction false} SplitSepFree(s: string, sep: char)
    requires sep !in s
    ensures Split(s, sep) == [s]
  {
    if s != [] {
      SplitSepFree(s[1..], sep);
      assert [s[0]] + s[1..] == s;
    }
  }

  /** A first character other than the separator starts the first piece. */
  lemma SplitCons(s: string, sep: char)
    requires s != [] && s[0] != sep
    ensures Split(s, sep) == [[s[0]] + Split(s[1..], sep)[0]] + Split(s[1..], sep)[1..]
  {
  }

  /** A separator-free prefix glues onto the first piece of what follows it. */
  lemma {:induction false} SplitPrefix(p: string, t: string, sep: char)
    requires forall k | 0 <= k < |p| :: p[k] != sep
    ensures Split(p + t, sep) == [p + Split(t, sep)[0]] + Split(t, sep)[1..]
  {
    var st := Split(t, sep);
    if p != [] {
      var q := p + t;
      assert q[0] == p[0] && q[1..] == p[1..] + t;
      SplitCons(q, sep);
      SplitPrefix(p[1..], t, sep);
      assert [p[0]] + (p[1..] + st[0]) == p + st[0];
    } else {
      assert p + t == t;
      assert [] + st[0] == st[0];
      assert [st[0]] + st[1..] == st;
    }
  }

  // ---------------------------------------------------------------------------
  // searching for a marker string, and splitting on it

  predicate OccursAt(s: string, m: string, k: int) {
    0 <= k && k + |m| <= |s| && s[k..k + |m|] == m
  }

  /** The first position at or after `from` where `m` occurs. */
  function IndexOfFrom(s: string, m: string, from: nat): (r: Option<nat>)
    ensures r.Some? ==> from <= r.value && OccursAt(s, m, r.value)
    ensures r.Some? ==> forall j | from <= j < r.value :: !OccursAt(s, m, j)
    ensures r.None? ==> forall j | from <= j :: !OccursAt(s, m, j)
    decreases |s| - from
  {
    if from + |m| > |s| then None
    else if s[from..from + |m|] == m then Some(from)
    else IndexOfFrom(s, m, from + 1)
  }

  /** `s.indexOf(m)`, with -1 as `None`. */
  function IndexOf(s: string, m: string): (r: Option<nat>)
    ensures r.Some? ==> OccursAt(s, m, r.value)
    ensures r.Some? ==> forall j | 0 <= j < r.value :: !OccursAt(s, m, j)
    ensures r.None? <==> forall j :: !OccursAt(s, m, j)
  {
    IndexOfFrom(s, m, 0)
  }

  /** `s.includes(m)`. */
  predicate Includes(s: string, m: string) {
    IndexOf(s, m).Some?
  }

  /** `includes` holds exactly when the marker occurs somewhere. */
  lemma IncludesIff(s: string, m: string)
    ensures Includes(s, m) <==> exists k :: OccursAt(s, m, k)
  {
  }

  /** `s.split(m)` for a non-empty marker string: cut at every occurrence,
      scanning from the left, occurrences not overlapping. */
  function SplitOn(s: string, m: string): (parts: seq<string>)
    requires m != []
    ensures |parts| >= 1
    decreases |s|
  {
    match IndexOf(s, m)
    case None => [s]
    case Some(k) => [s[..k]] + SplitOn(s[k + |m|..], m)
  }

  /** `parts.join(m)`. */
  function JoinOn(parts: seq<string>, m: string): string
    requires |parts| >= 1
  {
    if |parts| == 1 then parts[0] else parts[0] + m + JoinOn(parts[1..], m)
  }

  /** Joining the pieces with the marker gives back the text. */
  lemma {:induction false} JoinOnSplitOn(s: string, m: string)
    requires m != []
    ensures JoinOn(SplitOn(s, m), m) == s
    decreases |s|
  {
    match IndexOf(s, m)
    case None =>
    case Some(k) =>
      JoinOnSplitOn(s[k + |m|..], m);
      var parts := SplitOn(s, m);
      assert parts[1..] == SplitOn(s[k + |m|..], m);
      assert s == s[..k] + m + s[k + |m|..];
  }

  /** `seg` is what comes before the first occurrence of `m` in `s` (all of
      `s` when there is none): a prefix of `s` holding no occurrence of `m`,
      that is either all of `s` or followed by `m`. */
  ghost predicate PrefixBefore(s: string, m: string, seg: string) {
    && |seg| <= |s| && seg == s[..|seg|]
    && (forall j :: !OccursAt(seg, m, j))
    && (seg == s || OccursAt(s, m, |seg|))
  }

  lemma OccursInPrefix(s: string, m: string, k: nat, j: int)
    requires k <= |s| && OccursAt(s[..k], m, j)
    ensures OccursAt(s, m, j)
  {
    assert s[..k][j..j + |m|] == s[j..j + |m|];
  }

  /** The first piece of `s.split(m)` is the text before the first marker. */
  lemma SplitOnFirst(s: string, m: string)
    requires m != []
    ensures PrefixBefore(s, m, SplitOn(s, m)[0])
  {
    match IndexOf(s, m)
    case None =>
    case Some(k) =>
      var seg := s[..k];
      assert SplitOn(s, m)[0] == seg;
      forall j ensures !OccursAt(seg, m, j) {
        if OccursAt(seg, m, j) {
          OccursInPrefix(s, m, k, j);
        }
      }
  }

  /** `s.split(m)[1]` exists exactly when `m` occurs, and is the text between
      the first marker and the next one. */
  lemma SplitOnSecond(s: string, m: string)
    requires m != []
    ensures |SplitOn(s, m)| > 1 <==> Includes(s, m)
    ensures Includes(s, m) ==>
      var k := IndexOf(s, m).value;
      SplitOn(s, m)[1] == SplitOn(s[k + |m|..], m)[0]
  {
  }

  // ---------------------------------------------------------------------------
  // global replacements

  /** `s.replace(/c/g, '')`: every `c` removed, everything else kept. */
  function RemoveAll(s: string, c: char): (r: string)
    ensures c !in r
    ensures multiset(r) == multiset(s)[c := 0]
  {
    if s == [] then []
    else
      assert s == [s[0]] + s[1..];
      (if s[0] == c then [] else [s[0]]) + RemoveAll(s[1..], c)
  }

  /** The removal works piece by piece, so the remaining characters keep
      their order. */
  lemma {:induction false} RemoveAllAppend(a: string, b: string, c: char)
    ensures RemoveAll(a + b, c) == RemoveAll(a, c) + RemoveAll(b, c)
  {
    if a != [] {
      var t := a[1..];
      assert a == [a[0]] + t;
      assert (a + b)[0] == a[0] && (a + b)[1..] == t + b;
      RemoveAllAppend(t, b, c);
      RemoveAllStep(a[0], t, RemoveAll(t + b, c), RemoveAll(t, c), RemoveAll(b, c), c);
    } else {
      assert a + b == b;
    }
  }

  /** The step of `RemoveAllAppend`, on plain sequences. */
  lemma RemoveAllStep(x: char, t: string, tb: string, rt: string, rb: string, c: char)
    requires tb == rt + rb
    ensures (if x == c then [] else [x]) + tb == ((if x == c then [] else [x]) + rt) + rb
  {
  }

  /** Removing a character that does not occur changes nothing. */
  lemma {:induction false} RemoveAbsent(s: string, c: char)
    requires c !in s
    ensures RemoveAll(s, c) == s
  {
    if s != [] {
      RemoveAbsent(s[1..], c);
      assert [s[0]] + s[1..] == s;
    }
  }

  /** `s.replace(/\s+/g, '_')`: every maximal run of white space becomes one `_`. */
  function UnderscoreWhitespace(s: string): (r: string)
    ensures NoWhitespace(r)
  {
    ReplaceRunsLeavesNoWhitespace(s, false);
    ReplaceRuns(s, false)
  }

  /** The replacement, scanning one character at a time; `inRun` says that
      the character before `s` was white space, whose run already produced
      its `_`. */
  function ReplaceRuns(s: string, inRun: bool): string
    decreases |s|
  {
    if s == [] then []
    else if IsWhitespace(s[0]) then (if inRun then "" else "_") + ReplaceRuns(s[1..], true)
    else [s[0]] + ReplaceRuns(s[1..], false)
  }

  /** After the replacement no white space is left. */
  lemma {:induction false} ReplaceRunsLeavesNoWhitespace(s: string, inRun: bool)
    ensures NoWhitespace(ReplaceRuns(s, inRun))
    decreases |s|
  {
    if s != [] {
      if IsWhitespace(s[0]) {
        ReplaceRunsLeavesNoWhitespace(s[1..], true);
      } else {
        ReplaceRunsLeavesNoWhitespace(s[1..], false);
      }
    }
  }

  /** Without white space there is nothing to replace. */
  lemma {:induction false} UnderscoreNoWhitespace(s: string)
    requires NoWhitespace(s)
    ensures UnderscoreWhitespace(s) == s
  {
    ReplaceRunsNoWhitespace(s);
  }

  lemma {:induction false} ReplaceRunsNoWhitespace(s: string)
    requires NoWhitespace(s)
    ensures ReplaceRuns(s, false) == s
  {
    if s != [] {
      ReplaceRunsNoWhitespace(s[1..]);
      assert [s[0]] + s[1..] == s;
    }
  }

  /** A run of white space between two non-white-space parts becomes exactly one `_`. */
  lemma {:induction false} UnderscoreOneRun(a: string, w: string, b: string)
    requires a == [] || !IsWhitespace(a[|a| - 1])
    requires w != [] && forall i | 0 <= i < |w| :: IsWhitespace(w[i])
    requires b == [] || !IsWhitespace(b[0])
    ensures UnderscoreWhitespace(a + (w + b)) == UnderscoreWhitespace(a) + ("_" + UnderscoreWhitespace(b))
  {
    assert (w + b)[1..] == w[1..] + b;
    RunAbsorbed(w[1..], b);
    if a == [] {
      assert a + (w + b) == w + b;
    } else {
      SplitsAfterWord(a, w + b, false);
    }
  }

  /** Inside a run, the rest of the run produces nothing more. */
  lemma {:induction false} RunAbsorbed(w: string, b: string)
    requires forall i | 0 <= i < |w| :: IsWhitespace(w[i])
    requires b == [] || !IsWhitespace(b[0])
    ensures ReplaceRuns(w + b, true) == ReplaceRuns(b, false)
  {
    if w == [] {
      assert w + b == b;
      if b != [] {
        assert ReplaceRuns(b, true) == [b[0]] + ReplaceRuns(b[1..], false);
      }
    } else {
      assert (w + b)[1..] == w[1..] + b;
      RunAbsorbed(w[1..], b);
    }
  }

  /** The replacement works separately on the two sides of a boundary that
      follows a non-white-space character. */
  lemma {:induction false} SplitsAfterWord(a: string, t: string, inRun: bool)
    requires a != [] && !IsWhitespace(a[|a| - 1])
    ensures ReplaceRuns(a + t, inRun) == ReplaceRuns(a, inRun) + ReplaceRuns(t, false)
  {
    var head := if IsWhitespace(a[0]) then (if inRun then "" else "_") else [a[0]];
    var next := IsWhitespace(a[0]);
    assert (a + t)[0] == a[0] && (a + t)[1..] == a[1..] + t;
    assert ReplaceRuns(a + t, inRun) == head + ReplaceRuns(a[1..] + t, next);
    assert ReplaceRuns(a, inRun) == head + ReplaceRuns(a[1..], next);
    if |a| == 1 {
      assert a[1..] + t == t;
      assert !next;
    } else {
      SplitsAfterWord(a[1..], t, next);
      var x, y := ReplaceRuns(a[1..], next), ReplaceRuns(t, false);
      assert head + (x + y) == (head + x) + y;
    }
  }
}
