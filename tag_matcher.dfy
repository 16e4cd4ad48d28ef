/** The tag dictionary matcher (js/tagMatcher.js): it loads a comma- and
    line-separated tag file into a trie, storing every tag in up to three
    spellings, and answers scans of a prompt once the file is loaded.

    What the loading inserts is first stated as functions of the file text
    (`TokenEntries`, `LineEntries`, `DictionaryEntries`, `StreamEntries`);
    the methods of `TagMatcher` are proved to insert exactly that. */
module TagMatching {
  import opened Text
  import opened TagTrie

  // ---------------------------------------------------------------------------
  // The spellings stored for one tag

  /** `normalizedTag(tag)`: the tag as written, the tag without backslashes,
      and the latter with every white-space run turned into `_`. */
  function NormalizedTag(tag: string): (r: set<string>)
    ensures tag in r && 1 <= |r| <= 3
    ensures forall f | f in r && f != tag :: '\\' !in f
  {
    var unescaped := RemoveAll(tag, '\\');
    ReplaceRunsKeepsAbsent(unescaped, false, '\\');
    {tag, unescaped, UnderscoreWhitespace(unescaped)}
  }

  /** One spelling has neither a backslash nor white space, and keeps every
      other character of the tag in order of appearance up to runs of white
      space. */
  lemma NormalizedTagHasPlainForm(tag: string)
    ensures var plain := UnderscoreWhitespace(RemoveAll(tag, '\\'));
      plain in NormalizedTag(tag) && '\\' !in plain && NoWhitespace(plain)
  {
    var unescaped := RemoveAll(tag, '\\');
    var plain := UnderscoreWhitespace(unescaped);
  }

  /** The white-space replacement only ever adds `_`, so a character other
      than `_` that is absent stays absent. */
  lemma {:induction false} ReplaceRunsKeepsAbsent(s: string, inRun: bool, c: char)
    requires c != '_' && c !in s
    ensures c !in ReplaceRuns(s, inRun)
    decreases |s|
  {
    if s != [] {
      assert c !in s[1..] by {
        assert forall k | 0 <= k < |s| - 1 :: s[1..][k] == s[k + 1];
      }
      ReplaceRunsKeepsAbsent(s[1..], IsWhitespace(s[0]), c);
    }
  }

  /** The unescaped spelling holds the tag's characters other than the
      backslash, as many times as the tag does. */
  lemma NormalizedTagUnescaped(tag: string)
    ensures var unescaped := RemoveAll(tag, '\\');
      unescaped in NormalizedTag(tag) && multiset(unescaped) == multiset(tag)['\\' := 0]
  {
  }

  /** A tag with neither a backslash nor white space is stored as written only. */
  lemma NormalizedTagPlain(tag: string)
    requires '\\' !in tag && NoWhitespace(tag)
    ensures NormalizedTag(tag) == {tag}
  {
    RemoveAbsent(tag, '\\');
    UnderscoreNoWhitespace(tag);
  }

  // ---------------------------------------------------------------------------
  // What a tag file contributes to the trie

  /** The lower-cased spellings, as `Trie.insert` stores them. */
  function LowerAll(forms: set<string>): set<string> {
    set f | f in forms :: ToLower(f)
  }

  /** The union of `f(x)` over the elements of `xs`, gathered left to right. */
  function UnionOf(xs: seq<string>, f: string -> set<string>): set<string> {
    if xs == [] then {} else UnionOf(xs[..|xs| - 1], f) + f(xs[|xs| - 1])
  }

  /** The spellings of `tag` as the trie stores them. */
  function StoredSpellings(tag: string): set<string> {
    var unescaped := RemoveAll(tag, '\\');
    {ToLower(tag), ToLower(unescaped), ToLower(UnderscoreWhitespace(unescaped))}
  }

  /** Inserting every spelling stores exactly `StoredSpellings`. */
  lemma StoredSpellingsLowered(tag: string)
    ensures LowerAll(NormalizedTag(tag)) == StoredSpellings(tag)
  {
  }

  /** One comma-separated token: nothing when it trims to the empty string,
      otherwise every spelling of the trimmed token, lower-cased. */
  function TokenEntries(word: string): set<string> {
    var trimmed := Trim(word);
    if trimmed == [] then {} else StoredSpellings(trimmed)
  }

  /** One line: the entries of its comma-separated tokens. */
  function LineEntries(line: string): set<string> {
    UnionOf(Split(line, ','), TokenEntries)
  }

  /** A whole text: the entries of its lines. */
  function DictionaryEntries(text: string): set<string> {
    UnionOf(Split(text, '\n'), LineEntries)
  }

  /** The text received after the first `|chunks|` chunks. */
  function Concat(chunks: seq<string>): string {
    if chunks == [] then "" else Concat(chunks[..|chunks| - 1]) + chunks[|chunks| - 1]
  }

  /** Streaming: after every chunk the whole text received so far is
      processed again, so the trie receives the entries of every such
      prefix of the file. */
  function StreamEntries(chunks: seq<string>): set<string> {
    if chunks == [] then {}
    else StreamEntries(chunks[..|chunks| - 1]) + DictionaryEntries(Concat(chunks))
  }

  /** The union over one more element. */
  lemma UnionOfStep(xs: seq<string>, f: string -> set<string>, i: nat)
    requires i < |xs|
    ensures UnionOf(xs[..i + 1], f) == UnionOf(xs[..i], f) + f(xs[i])
  {
    assert xs[..i + 1][..i] == xs[..i];
  }

  /** An element of the union comes from one of the elements, and every
      element contributes. */
  lemma {:induction false} UnionOfMember(xs: seq<string>, f: string -> set<string>, w: string)
    ensures w in UnionOf(xs, f) <==> exists j | 0 <= j < |xs| :: w in f(xs[j])
  {
    if xs != [] {
      var init := xs[..|xs| - 1];
      UnionOfMember(init, f, w);
      if w in UnionOf(init, f) {
        var j :| 0 <= j < |init| && w in f(init[j]);
        assert xs[j] == init[j];
      }
      if exists j | 0 <= j < |xs| :: w in f(xs[j]) {
        var j :| 0 <= j < |xs| && w in f(xs[j]);
        if j < |init| {
          assert init[j] == xs[j];
        }
      }
    }
  }

  /** Every spelling of every non-blank token of every line of the file is
      an entry, lower-cased. */
  lemma DictionaryHasToken(text: string, i: nat, j: nat, f: string)
    requires i < |Split(text, '\n')| && j < |Split(Split(text, '\n')[i], ',')|
    requires var word := Split(Split(text, '\n')[i], ',')[j];
      Trim(word) != [] && f in NormalizedTag(Trim(word))
    ensures ToLower(f) in DictionaryEntries(text)
  {
    var lines := Split(text, '\n');
    var words := Split(lines[i], ',');
    assert ToLower(f) in TokenEntries(words[j]);
    UnionOfMember(words, TokenEntries, ToLower(f));
    UnionOfMember(lines, LineEntries, ToLower(f));
  }

  /** Every entry comes from some token of some line of the file. */
  lemma DictionaryEntryOrigin(text: string, w: string)
    ensures w in DictionaryEntries(text) ==>
      exists i, j | 0 <= i < |Split(text, '\n')| && 0 <= j < |Split(Split(text, '\n')[i], ',')| ::
        w in TokenEntries(Split(Split(text, '\n')[i], ',')[j])
  {
    if w !in DictionaryEntries(text) {
      return;
    }
    var lines := Split(text, '\n');
    UnionOfMember(lines, LineEntries, w);
    var i :| 0 <= i < |lines| && w in LineEntries(lines[i]);
    var words := Split(lines[i], ',');
    UnionOfMember(words, TokenEntries, w);
    var j :| 0 <= j < |words| && w in TokenEntries(words[j]);
    assert w in TokenEntries(Split(Split(text, '\n')[i], ',')[j]);
  }

  /** A token's entries are the lower-cased spellings of the trimmed token. */
  lemma TokenEntriesMember(word: string, w: string)
    ensures w in TokenEntries(word) <==> Trim(word) != [] && exists f | f in NormalizedTag(Trim(word)) :: w == ToLower(f)
  {
  }

  /** A file delivered in one chunk contributes exactly its entries. */
  lemma StreamOneChunk(text: string)
    ensures StreamEntries([text]) == DictionaryEntries(text)
  {
    assert [text][..0] == [];
    assert Concat([text]) == text;
  }

  /** However the file is cut into chunks, all of its entries are inserted;
      the chunk boundaries can only add entries (the pieces of a token cut
      by a boundary). */
  lemma StreamCoversFile(chunks: seq<string>)
    ensures DictionaryEntries(Concat(chunks)) <= StreamEntries(chunks)
  {
    if chunks == [] {
      assert Split("", '\n') == [""] && Split("", ',') == [""];
      assert [""][..0] == [];
      assert Trim("") == "";
      assert LineEntries("") == {};
    }
  }

  /** Concatenating the chunks one by one rebuilds the file. */
  lemma ConcatAppend(chunks: seq<string>, k: nat)
    requires k < |chunks|
    ensures Concat(chunks[..k + 1]) == Concat(chunks[..k]) + chunks[k]
  {
    assert chunks[..k + 1][..k] == chunks[..k];
  }

  /** One more chunk adds the entries of the text received so far. */
  lemma StreamStep(chunks: seq<string>, k: nat)
    requires k < |chunks|
    ensures StreamEntries(chunks[..k + 1]) == StreamEntries(chunks[..k]) + DictionaryEntries(Concat(chunks[..k + 1]))
  {
    assert chunks[..k + 1][..k] == chunks[..k];
  }

  // ---------------------------------------------------------------------------
  // The matcher

  /** What fetching and reading the tag file yields: the fetch fails, or the
      body arrives as decoded text chunks, possibly followed by a failed read. */
  datatype Response = FetchFailed | Body(chunks: seq<string>, readFails: bool)

  /** Whether loading from `response` throws. */
  predicate Fails(response: Response) {
    response.FetchFailed? || response.readFails
  }

  /** The entries inserted while loading from `response`, up to the point
      where it fails, if it does. */
  function Received(response: Response): set<string> {
    match response
    case FetchFailed => {}
    case Body(chunks, _) => StreamEntries(chunks)
  }

  class TagMatcher {
    const trie: Trie
    var tagsLoaded: bool

    ghost predicate Valid()
      reads this, trie, trie.Repr
    {
      trie.Valid()
    }

    constructor ()
      ensures Valid() && fresh(trie) && fresh(trie.Repr)
      ensures trie.Words == {} && !tagsLoaded
    {
      trie := new Trie();
      tagsLoaded := false;
    }

    /** `loadTags(filePath)`: does nothing once the tags are loaded;
        otherwise inserts what the file delivers, chunk by chunk, and sets
        `tagsLoaded` only when the whole file was read. A failure is passed
        on to the caller (`thrown`) with `tagsLoaded` still false, and
        whatever was inserted before it stays in the trie. */
    method LoadTags(response: Response) returns (thrown: bool)
      requires Valid()
      modifies this, trie, trie.Repr
      ensures Valid() && fresh(trie.Repr - old(trie.Repr))
      ensures old(tagsLoaded) ==> !thrown && tagsLoaded && trie.Words == old(trie.Words) && unchanged(trie) && unchanged(trie.Repr)
      ensures !old(tagsLoaded) ==> thrown == Fails(response) && tagsLoaded == !thrown
      ensures !old(tagsLoaded) ==> trie.Words == old(trie.Words) + Received(response)
    {
      if tagsLoaded {
        return false;
      }
      if response.FetchFailed? {
        return true;
      }
      var chunks := response.chunks;
      var buffer := "";
      var k := 0;
      while k < |chunks|
        invariant 0 <= k <= |chunks|
        invariant Valid() && fresh(trie.Repr - old(trie.Repr))
        invariant buffer == Concat(chunks[..k])
        invariant trie.Words == old(trie.Words) + StreamEntries(chunks[..k])
        invariant !tagsLoaded
      {
        ghost var done := StreamEntries(chunks[..k]);
        ConcatAppend(chunks, k);
        buffer := buffer + chunks[k];
        InsertText(buffer);
        StreamStep(chunks, k);
        assert trie.Words == old(trie.Words) + (done + DictionaryEntries(buffer));
        k := k + 1;
      }
      assert chunks[..k] == chunks;
      if response.readFails {
        return true;
      }
      tagsLoaded := true;
      thrown := false;
    }

    /** One pass of the streaming loop: every line of the text received so far. */
    method InsertText(text: string)
      requires Valid()
      modifies trie, trie.Repr
      ensures Valid() && fresh(trie.Repr - old(trie.Repr))
      ensures trie.Words == old(trie.Words) + DictionaryEntries(text)
    {
      var lines := Split(text, '\n');
      var i := 0;
      while i < |lines|
        invariant 0 <= i <= |lines|
        invariant Valid() && fresh(trie.Repr - old(trie.Repr))
        invariant trie.Words == old(trie.Words) + UnionOf(lines[..i], LineEntries)
      {
        ghost var done := UnionOf(lines[..i], LineEntries);
        InsertLine(lines[i]);
        UnionOfStep(lines, LineEntries, i);
        assert trie.Words == old(trie.Words) + (done + LineEntries(lines[i]));
        i := i + 1;
      }
      assert lines[..i] == lines;
    }

    /** Every comma-separated token of one line. */
    method InsertLine(line: string)
      requires Valid()
      modifies trie, trie.Repr
      ensures Valid() && fresh(trie.Repr - old(trie.Repr))
      ensures trie.Words == old(trie.Words) + LineEntries(line)
    {
      var words := Split(line, ',');
      var i := 0;
      while i < |words|
        invariant 0 <= i <= |words|
        invariant Valid() && fresh(trie.Repr - old(trie.Repr))
        invariant trie.Words == old(trie.Words) + UnionOf(words[..i], TokenEntries)
      {
        ghost var done := UnionOf(words[..i], TokenEntries);
        InsertToken(words[i]);
        UnionOfStep(words, TokenEntries, i);
        assert trie.Words == old(trie.Words) + (done + TokenEntries(words[i]));
        i := i + 1;
      }
      assert words[..i] == words;
    }

    /** One token: skipped when blank, otherwise every spelling of the
        trimmed token. */
    method InsertToken(word: string)
      requires Valid()
      modifies trie, trie.Repr
      ensures Valid() && fresh(trie.Repr - old(trie.Repr))
      ensures trie.Words == old(trie.Words) + TokenEntries(word)
    {
      var trimmedWord := Trim(word);
      if trimmedWord != [] {
        var normalizedTags := NormalizedTag(trimmedWord);
        InsertForms(normalizedTags);
        StoredSpellingsLowered(trimmedWord);
      }
    }

    /** Inserts every spelling of one token. */
    method InsertForms(forms: set<string>)
      requires Valid()
      modifies trie, trie.Repr
      ensures Valid() && fresh(trie.Repr - old(trie.Repr))
      ensures trie.Words == old(trie.Words) + LowerAll(forms)
    {
      var remaining := forms;
      while remaining != {}
        invariant remaining <= forms
        invariant Valid() && fresh(trie.Repr - old(trie.Repr))
        invariant trie.Words == old(trie.Words) + LowerAll(forms - remaining)
        decreases remaining
      {
        var f :| f in remaining;
        trie.Insert(f);
        assert LowerAll(forms - (remaining - {f})) == LowerAll(forms - remaining) + {ToLower(f)};
        remaining := remaining - {f};
      }
      assert forms - remaining == forms;
    }

    /** `findMatches(text)`: nothing until the tags are loaded, then every
        occurrence of every stored spelling in the lower-cased text. */
    method FindMatches(text: string) returns (matches: seq<Match>)
      requires Valid()
      ensures matches == if tagsLoaded then AllMatches(ToLower(text), trie.Words) else []
    {
      if !tagsLoaded {
        return [];
      }
      matches := trie.FindAllMatches(text);
    }
  }
}
