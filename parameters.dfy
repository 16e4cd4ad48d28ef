/** `parseParameters` (js/parser.js): reads a `key: value, key: value`
    string into an object. The string is cut at every `,`, each piece is
    trimmed and cut at every `:`, and the first two trimmed parts are taken
    as key and value; a pair is stored only when both are non-empty, and a
    later pair overwrites an earlier one with the same key. */
module ParameterList {
  import opened Text

  /** The trimmed pieces of `paramString.split(',')`. */
  function Pairs(paramString: string): seq<string> {
    TrimEach(Split(paramString, ','))
  }

  /** The trimmed parts of `pair.split(':')`; there is always a first. */
  function PartsOf(pair: string): (parts: seq<string>)
    ensures |parts| >= 1
  {
    TrimEach(Split(pair, ':'))
  }

  /** `const [key, value] = ...`: the first two parts. */
  datatype Entry = Entry(key: string, value: string)

  /** The second part is `undefined` when there is none, written "" here
      since both are falsy and neither is ever stored. */
  function EntryOf(pair: string): (e: Entry)
    ensures forall k | 0 <= k < |e.key| :: e.key[k] != ':'
    ensures forall k | 0 <= k < |e.value| :: e.value[k] != ':'
    ensures e.key == [] || (!IsWhitespace(e.key[0]) && !IsWhitespace(e.key[|e.key| - 1]))
    ensures e.value == [] || (!IsWhitespace(e.value[0]) && !IsWhitespace(e.value[|e.value| - 1]))
  {
    var parts := PartsOf(pair);
    TrimmedPiecesFree(pair, ':');
    Entry(parts[0], if |parts| > 1 then parts[1] else "")
  }

  /** A pair without `:` has no value, so it is never stored: its key is
      the whole trimmed pair and its value is "". */
  lemma EntryWithoutColon(pair: string)
    requires forall k | 0 <= k < |pair| :: pair[k] != ':'
    ensures EntryOf(pair) == Entry(Trim(pair), "")
    ensures !Stored(EntryOf(pair))
  {
    assert ':' !in pair;
    SplitSepFree(pair, ':');
  }

  /** `if (key && value) params[key] = value` stores an own property: both
      are non-empty, and the key is not `__proto__` (assigning a string to
      `__proto__` changes nothing). */
  predicate Stored(e: Entry) {
    e.key != "" && e.value != "" && e.key != "__proto__"
  }

  /** The object after the first `|entries|` entries. */
  function Collected(entries: seq<Entry>): map<string, string> {
    if entries == [] then map[]
    else
      var params := Collected(entries[..|entries| - 1]);
      var e := entries[|entries| - 1];
      if Stored(e) then params[e.key := e.value] else params
  }

  /** The entry of each pair. */
  function Entries(paramString: string): (entries: seq<Entry>)
    ensures |entries| == |Split(paramString, ',')|
  {
    var pairs := Pairs(paramString);
    seq(|pairs|, i requires 0 <= i < |pairs| => EntryOf(pairs[i]))
  }

  /** `parseParameters(paramString)` as a value. */
  function ParametersOf(paramString: string): (params: map<string, string>)
    ensures "__proto__" !in params
  {
    CollectedSpec(Entries(paramString));
    Collected(Entries(paramString))
  }

  /** `parseParameters(paramString)`: the `forEach` over the pairs, storing
      each kept pair in turn. */
  method ParseParameters(paramString: string) returns (params: map<string, string>)
    ensures params == ParametersOf(paramString)
  {
    params := map[];
    var pairs := TrimEach(Split(paramString, ','));
    ghost var entries := Entries(paramString);
    var i := 0;
    while i < |pairs|
      invariant 0 <= i <= |pairs|
      invariant params == Collected(entries[..i])
    {
      var parts := TrimEach(Split(pairs[i], ':'));
      var key := parts[0];
      var value := if |parts| > 1 then parts[1] else "";
      assert entries[i] == Entry(key, value);
      if key != "" && value != "" && key != "__proto__" {
        params := params[key := value];
      }
      assert entries[..i + 1][..i] == entries[..i];
      i := i + 1;
    }
    assert entries[..i] == entries;
  }

  /** A key is present exactly when some entry stores it, and it holds the
      value of the last entry that stores it: later duplicates win. */
  lemma {:induction false} CollectedSpec(entries: seq<Entry>)
    ensures forall key | key in Collected(entries) ::
      exists i | 0 <= i < |entries| :: Stored(entries[i]) && entries[i].key == key
    ensures forall i | 0 <= i < |entries| && Stored(entries[i]) ::
      entries[i].key in Collected(entries)
    ensures forall i | 0 <= i < |entries| && Stored(entries[i]) && LastFor(entries, i) ::
      Collected(entries)[entries[i].key] == entries[i].value
  {
    if entries != [] {
      var init := entries[..|entries| - 1];
      var last := |entries| - 1;
      CollectedSpec(init);
      forall key | key in Collected(entries)
        ensures exists i | 0 <= i < |entries| :: Stored(entries[i]) && entries[i].key == key
      {
        if key in Collected(init) {
          var i :| 0 <= i < |init| && Stored(init[i]) && init[i].key == key;
          assert entries[i] == init[i];
        } else {
          assert Stored(entries[last]) && entries[last].key == key;
        }
      }
      forall i | 0 <= i < |entries| && Stored(entries[i])
        ensures entries[i].key in Collected(entries)
      {
        if i < last {
          assert entries[i] == init[i];
        }
      }
      forall i | 0 <= i < |entries| && Stored(entries[i]) && LastFor(entries, i)
        ensures Collected(entries)[entries[i].key] == entries[i].value
      {
        if i < last {
          assert entries[i] == init[i];
          assert LastFor(init, i) by {
            forall j | i < j < |init| ensures !Stored(init[j]) || init[j].key != init[i].key {
              assert init[j] == entries[j];
            }
          }
        }
      }
    }
  }

  /** No entry after the `i`-th stores the same key. */
  predicate LastFor(entries: seq<Entry>, i: nat)
    requires i < |entries|
  {
    forall j | i < j < |entries| :: !Stored(entries[j]) || entries[j].key != entries[i].key
  }

  /** What a stored pair contributes: its key and value are non-empty,
      trimmed, and hold neither `,` nor `:`. */
  predicate WellFormed(key: string, value: string) {
    && key != "" && value != ""
    && !IsWhitespace(key[0]) && !IsWhitespace(key[|key| - 1])
    && !IsWhitespace(value[0]) && !IsWhitespace(value[|value| - 1])
    && (forall k | 0 <= k < |key| :: key[k] != ',' && key[k] != ':')
    && (forall k | 0 <= k < |value| :: value[k] != ',' && value[k] != ':')
  }

  /** The entry of a piece of a `,`-split string. */
  lemma PairWellFormed(piece: string)
    requires forall k | 0 <= k < |piece| :: piece[k] != ','
    requires Stored(EntryOf(Trim(piece)))
    ensures WellFormed(EntryOf(Trim(piece)).key, EntryOf(Trim(piece)).value)
  {
    var pair := Trim(piece);
    TrimKeepsAbsent(piece, ',');
    SplitKeepsAbsent(pair, ':', ',');
    SplitPiecesFree(pair, ':');
    var split := Split(pair, ':');
    assert forall k | 0 <= k < |split[0]| :: split[0][k] != ':' by {
      assert ':' !in split[0];
    }
    assert forall k | 0 <= k < |split[1]| :: split[1][k] != ':' by {
      assert ':' !in split[1];
    }
    TrimKeepsAbsent(split[0], ',');
    TrimKeepsAbsent(split[0], ':');
    TrimKeepsAbsent(split[1], ',');
    TrimKeepsAbsent(split[1], ':');
  }

  /** Every entry of the result is well formed. */
  lemma ParametersWellFormed(paramString: string)
    ensures forall key | key in ParametersOf(paramString) ::
      WellFormed(key, ParametersOf(paramString)[key])
  {
    var pieces := Split(paramString, ',');
    var entries := Entries(paramString);
    CollectedSpec(entries);
    SplitPiecesFree(paramString, ',');
    forall key | key in ParametersOf(paramString)
      ensures WellFormed(key, ParametersOf(paramString)[key])
    {
      var i :| 0 <= i < |entries| && Stored(entries[i]) && entries[i].key == key;
      var n := LastStoring(entries, i);
      assert ',' !in pieces[n];
      assert forall k | 0 <= k < |pieces[n]| :: pieces[n][k] != ',';
      assert entries[n] == EntryOf(Trim(pieces[n]));
      PairWellFormed(pieces[n]);
    }
  }

  /** Among the entries that store the key of entry `i` there is a last one. */
  lemma {:induction false} LastStoring(entries: seq<Entry>, i: nat) returns (n: nat)
    requires i < |entries| && Stored(entries[i])
    ensures i <= n < |entries| && Stored(entries[n]) && entries[n].key == entries[i].key
    ensures LastFor(entries, n)
    decreases |entries| - i
  {
    if LastFor(entries, i) {
      n := i;
    } else {
      var j :| i < j < |entries| && Stored(entries[j]) && entries[j].key == entries[i].key;
      n := LastStoring(entries, j);
    }
  }

  /** The first two pieces of `key:value` followed by nothing or by `:`. */
  lemma {:induction false} SplitKeyValue(key: string, value: string, tail: string)
    requires forall k | 0 <= k < |key| :: key[k] != ':'
    requires forall k | 0 <= k < |value| :: value[k] != ':'
    requires tail == [] || tail[0] == ':'
    ensures |Split(key + ":" + value + tail, ':')| >= 2
    ensures Split(key + ":" + value + tail, ':')[0] == key
    ensures Split(key + ":" + value + tail, ':')[1] == value
  {
    var st := Split(tail, ':');
    assert st[0] == [] by {
      if tail != [] {
        assert Split(tail, ':') == [[]] + Split(tail[1..], ':');
      }
    }
    SplitPrefix(value, tail, ':');
    var sv := Split(value + tail, ':');
    assert sv[0] == value;
    var t := ":" + (value + tail);
    assert t[1..] == value + tail;
    assert Split(t, ':') == [[]] + sv;
    SplitPrefix(key, t, ':');
    assert key + ":" + value + tail == key + t;
  }

  /** Only the text up to a second `:` counts: with `key` and `value` free
      of `:`, whatever follows a `:` after the value is ignored. */
  lemma SecondColonIgnored(key: string, value: string, rest: string)
    requires forall k | 0 <= k < |key| :: key[k] != ':'
    requires forall k | 0 <= k < |value| :: value[k] != ':'
    ensures EntryOf(key + ":" + value + ":" + rest) == Entry(Trim(key), Trim(value))
    ensures EntryOf(key + ":" + value) == Entry(Trim(key), Trim(value))
  {
    SplitKeyValue(key, value, ":" + rest);
    assert key + ":" + value + ":" + rest == key + ":" + value + (":" + rest);
    SplitKeyValue(key, value, "");
    assert key + ":" + value + "" == key + ":" + value;
  }

  /** The empty string gives the empty object. */
  lemma ParametersOfEmpty()
    ensures ParametersOf("") == map[]
  {
    assert Trim("") == "";
    assert Pairs("") == [""];
    assert Entries("") == [Entry("", "")];
  }
}
