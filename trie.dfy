/** The character trie used as a multi-pattern dictionary matcher
    (js/trie.js). Words are lower-cased on insertion; a scan reports every
    occurrence of every inserted word in the lower-cased text.

    The node tree lives on the heap as `TrieNode` objects. The trie keeps a
    ghost map `nodes` from each path (the characters on the edges from the
    root) to the node at its end; `Valid()` ties that map to the `children`
    maps, and the ghost set `Words` holds the words inserted so far. */
module TagTrie {
  import opened Text

  /** One occurrence: the stored word and the half-open range `[start, end)`
      of the text it was found in. */
  datatype Match = Match(word: string, start: int, end: int)

  class TrieNode {
    var children: map<char, TrieNode>
    var isEndOfWord: bool
    var fullWord: string
    /** The characters on the edges from the root to this node. */
    ghost var path: string

    constructor ()
      ensures children == map[] && !isEndOfWord && fullWord == "" && path == ""
    {
      children := map[];
      isEndOfWord := false;
      fullWord := "";
      path := "";
    }
  }

  // ---------------------------------------------------------------------------
  // What a scan reports, stated on the lower-cased text and the word set alone

  /** The matches that start at `i` and end at `e` or later, shortest first. */
  function MatchesFrom(t: string, words: set<string>, i: nat, e: nat): seq<Match>
    requires i < e
    decreases |t| + 1 - e
  {
    if e > |t| then []
    else (if t[i..e] in words then [Match(t[i..e], i, e)] else []) + MatchesFrom(t, words, i, e + 1)
  }

  /** The matches that start at `i` or later, by start and then by end. */
  function MatchesFromStart(t: string, words: set<string>, i: nat): seq<Match>
    decreases |t| - i
  {
    if i >= |t| then [] else MatchesFrom(t, words, i, i + 1) + MatchesFromStart(t, words, i + 1)
  }

  /** Every occurrence in `t` of a word of `words`. */
  function AllMatches(t: string, words: set<string>): seq<Match> {
    MatchesFromStart(t, words, 0)
  }

  /** `m` is an occurrence of a word of `words` in `t`. */
  predicate IsOccurrence(t: string, words: set<string>, m: Match) {
    0 <= m.start < m.end <= |t| && t[m.start..m.end] == m.word && m.word in words
  }

  /** `a` comes before `b`: a smaller start, or the same start and a smaller end. */
  predicate Before(a: Match, b: Match) {
    a.start < b.start || (a.start == b.start && a.end < b.end)
  }

  /** Every match comes before every later one. */
  predicate Ordered(ms: seq<Match>) {
    forall k, l | 0 <= k < l < |ms| :: Before(ms[k], ms[l])
  }

  lemma {:induction false} MatchesFromSound(t: string, words: set<string>, i: nat, e: nat)
    requires i < e
    ensures forall m | m in MatchesFrom(t, words, i, e) :: IsOccurrence(t, words, m) && m.start == i && m.end >= e
    decreases |t| + 1 - e
  {
    if e <= |t| {
      MatchesFromSound(t, words, i, e + 1);
    }
  }

  lemma {:induction false} MatchesFromStartSound(t: string, words: set<string>, i: nat)
    ensures forall m | m in MatchesFromStart(t, words, i) :: IsOccurrence(t, words, m) && m.start >= i
    decreases |t| - i
  {
    if i < |t| {
      MatchesFromSound(t, words, i, i + 1);
      MatchesFromStartSound(t, words, i + 1);
    }
  }

  /** Soundness: every reported match lies inside the text, covers a
      non-empty range, and that range spells a word of `words`. In
      particular the empty word is never reported. */
  lemma AllMatchesSound(t: string, words: set<string>)
    ensures forall m | m in AllMatches(t, words) :: IsOccurrence(t, words, m) && m.word != []
  {
    MatchesFromStartSound(t, words, 0);
  }

  lemma {:induction false} MatchesFromComplete(t: string, words: set<string>, i: nat, e: nat, j: nat)
    requires i < e <= j <= |t| && t[i..j] in words
    ensures Match(t[i..j], i, j) in MatchesFrom(t, words, i, e)
    decreases j - e
  {
    if e < j {
      MatchesFromComplete(t, words, i, e + 1, j);
    }
  }

  lemma {:induction false} MatchesFromStartComplete(t: string, words: set<string>, s: nat, i: nat, j: nat)
    requires s <= i < j <= |t| && t[i..j] in words
    ensures Match(t[i..j], i, j) in MatchesFromStart(t, words, s)
    decreases i - s
  {
    if s == i {
      MatchesFromComplete(t, words, i, i + 1, j);
    } else {
      MatchesFromStartComplete(t, words, s + 1, i, j);
    }
  }

  /** Completeness: every non-empty range of the text that spells a word of
      `words` is reported. */
  lemma AllMatchesComplete(t: string, words: set<string>)
    ensures forall i, j | 0 <= i < j <= |t| && t[i..j] in words :: Match(t[i..j], i, j) in AllMatches(t, words)
  {
    forall i, j | 0 <= i < j <= |t| && t[i..j] in words
      ensures Match(t[i..j], i, j) in AllMatches(t, words)
    {
      MatchesFromStartComplete(t, words, 0, i, j);
    }
  }

  lemma {:induction false} MatchesFromOrdered(t: string, words: set<string>, i: nat, e: nat)
    requires i < e
    ensures Ordered(MatchesFrom(t, words, i, e))
    decreases |t| + 1 - e
  {
    if e <= |t| {
      var head := if t[i..e] in words then [Match(t[i..e], i, e)] else [];
      var rest := MatchesFrom(t, words, i, e + 1);
      MatchesFromOrdered(t, words, i, e + 1);
      MatchesFromSound(t, words, i, e + 1);
      ConcatOrdered(head, rest);
    }
  }

  lemma {:induction false} MatchesFromStartOrdered(t: string, words: set<string>, i: nat)
    ensures Ordered(MatchesFromStart(t, words, i))
    decreases |t| - i
  {
    if i < |t| {
      var head := MatchesFrom(t, words, i, i + 1);
      var rest := MatchesFromStart(t, words, i + 1);
      MatchesFromOrdered(t, words, i, i + 1);
      MatchesFromSound(t, words, i, i + 1);
      MatchesFromStartOrdered(t, words, i + 1);
      MatchesFromStartSound(t, words, i + 1);
      ConcatOrdered(head, rest);
    }
  }

  /** Two ordered runs, every match of the first before every match of the
      second, concatenate to an ordered run. */
  lemma ConcatOrdered(a: seq<Match>, b: seq<Match>)
    requires Ordered(a) && Ordered(b)
    requires forall x, y | x in a && y in b :: Before(x, y)
    ensures Ordered(a + b)
  {
    forall k, l | 0 <= k < l < |a + b| ensures Before((a + b)[k], (a + b)[l]) {
      if l < |a| {
      } else if k < |a| {
        assert a[k] in a && b[l - |a|] in b;
      } else {
      }
    }
  }

  /** Ordering: matches come by increasing start, and for the same start by
      increasing end, so a word comes before a longer word it is a prefix of. */
  lemma AllMatchesOrdered(t: string, words: set<string>)
    ensures Ordered(AllMatches(t, words))
  {
    MatchesFromStartOrdered(t, words, 0);
  }

  /** When no range starting at `i` and ending at `e` or later spells a
      word, there are no matches from `e` on. */
  lemma {:induction false} NoMatchesBeyond(t: string, words: set<string>, i: nat, e: nat)
    requires i < e
    requires forall e' | e <= e' <= |t| :: t[i..e'] !in words
    ensures MatchesFrom(t, words, i, e) == []
    decreases |t| + 1 - e
  {
    if e <= |t| {
      NoMatchesBeyond(t, words, i, e + 1);
    }
  }

  /** The prefixes of `w`, from "" to `w` itself. */
  function Prefixes(w: string): set<string> {
    set k | 0 <= k <= |w| :: w[..k]
  }

  // ---------------------------------------------------------------------------
  // The trie

  class Trie {
    const root: TrieNode
    /** The node at the end of each path from the root. */
    ghost var nodes: map<string, TrieNode>
    /** The (lower-cased) words inserted so far. */
    ghost var Words: set<string>
    ghost var Repr: set<TrieNode>

    ghost predicate Valid()
      reads this, Repr
    {
      // every path has its own node, which knows its path
      && (forall p | p in nodes :: nodes[p] in Repr && nodes[p].path == p)
      && "" in nodes && nodes[""] == root
      // the edges are exactly the one-character extensions of paths
      && (forall p, c {:trigger c in nodes[p].children} | p in nodes && c in nodes[p].children ::
            p + [c] in nodes && nodes[p].children[c] == nodes[p + [c]])
      && (forall p, c {:trigger p + [c] in nodes} | p + [c] in nodes :: p in nodes && c in nodes[p].children)
      // end-of-word nodes are the inserted words, and remember them
      && Words <= nodes.Keys
      && (forall p | p in nodes ::
            (nodes[p].isEndOfWord <==> p in Words) && (nodes[p].isEndOfWord ==> nodes[p].fullWord == p))
    }

    /** Every prefix of a path is a path. */
    lemma {:induction false} PrefixInNodes(p: string, k: nat)
      requires Valid() && p in nodes && k <= |p|
      ensures p[..k] in nodes
      decreases |p| - k
    {
      if k < |p| {
        PrefixInNodes(p, k + 1);
        assert p[..k + 1] == p[..k] + [p[k]];
      } else {
        assert p[..k] == p;
      }
    }

    constructor ()
      ensures Valid() && fresh(Repr)
      ensures Words == {}
    {
      var r := new TrieNode();
      root := r;
      nodes := map["" := r];
      Words := {};
      Repr := {r};
    }

    /** Adds a fresh child under `c` to the node at `path`. */
    method AddChild(node: TrieNode, ghost path: string, c: char) returns (child: TrieNode)
      requires Valid()
      requires path in nodes && nodes[path] == node && c !in node.children
      modifies this, node
      ensures Valid() && fresh(child)
      ensures nodes == old(nodes)[path + [c] := child] && Repr == old(Repr) + {child}
      ensures Words == old(Words)
      ensures node.children == old(node.children)[c := child]
    {
      ghost var oldNodes := nodes;
      assert path + [c] !in oldNodes;
      child := new TrieNode();
      child.path := path + [c];
      node.children := node.children[c := child];
      nodes := nodes[path + [c] := child];
      Repr := Repr + {child};
      forall p | p in nodes ensures nodes[p] in Repr && nodes[p].path == p {
        if p != path + [c] {
          assert nodes[p] == oldNodes[p];
        }
      }
      forall p, d {:trigger d in nodes[p].children} | p in nodes && d in nodes[p].children
        ensures p + [d] in nodes && nodes[p].children[d] == nodes[p + [d]]
      {
        if p != path + [c] && p != path {
          assert nodes[p] != node;
        }
      }
      forall q, d {:trigger q + [d] in nodes} | q + [d] in nodes ensures q in nodes && d in nodes[q].children {
        if q + [d] == path + [c] {
          assert q == (q + [d])[..|q|] == (path + [c])[..|path|] == path;
        }
      }
    }

    /** Marks the node at `w` as the end of the word `w`. */
    method MarkWord(node: TrieNode, w: string)
      requires Valid()
      requires w in nodes && nodes[w] == node
      modifies this, node
      ensures Valid()
      ensures nodes == old(nodes) && Repr == old(Repr) && Words == old(Words) + {w}
      ensures w in old(Words) ==> unchanged(node)
    {
      node.isEndOfWord := true;
      node.fullWord := w;
      Words := Words + {w};
    }

    /** `insert(word)`: follows the lower-cased word from the root, creating
        missing nodes, and marks the last node as the end of that word. Only
        nodes on the word's path are added; inserting a word that is already
        there changes nothing. */
    method Insert(word: string)
      requires Valid()
      modifies this, Repr
      ensures Valid() && fresh(Repr - old(Repr))
      ensures Words == old(Words) + {ToLower(word)}
      ensures forall p | p in old(nodes) :: p in nodes && nodes[p] == old(nodes[p])
      ensures nodes.Keys <= old(nodes).Keys + Prefixes(ToLower(word))
      ensures ToLower(word) in old(Words) ==> nodes == old(nodes) && Repr == old(Repr) && unchanged(Repr)
    {
      var w := ToLower(word);
      ToLowerIdempotent(word);
      var node := root;
      var i := 0;
      assert w[..0] == "";
      while i < |w|
        invariant 0 <= i <= |w|
        invariant Valid() && fresh(Repr - old(Repr))
        invariant Words == old(Words)
        invariant w[..i] in nodes && nodes[w[..i]] == node
        invariant forall p | p in old(nodes) :: p in nodes && nodes[p] == old(nodes[p])
        invariant nodes.Keys <= old(nodes).Keys + Prefixes(w)
        invariant w in old(Words) ==> nodes == old(nodes) && Repr == old(Repr) && unchanged(Repr)
      {
        var c := w[i];
        assert w[..i + 1] == w[..i] + [c];
        if c !in node.children {
          assert w !in old(Words) by {
            if w in old(Words) {
              PrefixInNodes(w, i + 1);
            }
          }
          var child := AddChild(node, w[..i], c);
          assert w[..i + 1] in Prefixes(w);
        }
        node := node.children[c];
        i := i + 1;
      }
      assert w[..i] == w;
      MarkWord(node, w);
    }

    /** `findAllMatches(text)`: from every start offset of the lower-cased
        text, walks the trie while an edge exists and records a match at
        every end-of-word node it reaches. The result is every occurrence of
        every inserted word, by start and then by end. */
    method FindAllMatches(text: string) returns (matches: seq<Match>)
      requires Valid()
      ensures matches == AllMatches(ToLower(text), Words)
    {
      matches := [];
      var len := |text|;
      var t := ToLower(text);
      var i := 0;
      while i < len
        invariant 0 <= i <= len
        invariant matches + MatchesFromStart(t, Words, i) == AllMatches(t, Words)
      {
        var found := MatchesStartingAt(t, i);
        matches := matches + found;
        i := i + 1;
      }
    }

    /** The inner loop of `findAllMatches`: walks the trie along `t` from
        offset `i` while an edge exists, and collects a match at every
        end-of-word node on the way. */
    method MatchesStartingAt(t: string, i: nat) returns (found: seq<Match>)
      requires Valid() && i < |t|
      ensures found == MatchesFrom(t, Words, i, i + 1)
    {
      found := [];
      var node := root;
      var j := i;
      assert t[i..j] == "";
      while j < |t|
        invariant i <= j <= |t|
        invariant t[i..j] in nodes && nodes[t[i..j]] == node
        invariant found + MatchesFrom(t, Words, i, j + 1) == MatchesFrom(t, Words, i, i + 1)
      {
        if t[j] !in node.children {
          NoLongerPath(t, i, j);
          break;
        }
        assert t[i..j + 1] == t[i..j] + [t[j]];
        node := node.children[t[j]];
        if node.isEndOfWord {
          found := found + [Match(node.fullWord, i, j + 1)];
        }
        j := j + 1;
      }
    }

    /** The character at `k` of a path labels the edge out of the node at
        the path's first `k` characters. */
    lemma {:induction false} PathStep(p: string, k: nat)
      requires Valid() && p in nodes && k < |p|
      ensures p[..k] in nodes && p[k] in nodes[p[..k]].children
    {
      PrefixInNodes(p, k + 1);
      assert p[..k + 1] == p[..k] + [p[k]];
    }

    /** Once the walk from `i` finds no edge for `t[j]`, no longer range
        starting at `i` spells an inserted word. */
    lemma {:induction false} NoLongerPath(t: string, i: nat, j: nat)
      requires Valid()
      requires i <= j < |t| && t[i..j] in nodes && t[j] !in nodes[t[i..j]].children
      ensures MatchesFrom(t, Words, i, j + 1) == []
    {
      forall e | j + 1 <= e <= |t| ensures t[i..e] !in Words {
        if t[i..e] in Words {
          assert t[i..e][..j - i] == t[i..j] && t[i..e][j - i] == t[j];
          PathStep(t[i..e], j - i);
        }
      }
      NoMatchesBeyond(t, Words, i, j + 1);
    }
  }
}
