/** The trie of lowercase words, as nodes on the heap. A ghost map from paths to nodes says which node
    every prefix leads to. */
module Trie {

  const LETTERS: nat := 26

  predicate Lowercase(w: string) {
    forall c :: c in w ==> 'a' <= c <= 'z'
  }

  /** The index of a letter among the children of a node. */
  function Letter(c: char): (i: nat)
    requires 'a' <= c <= 'z'
    ensures i < LETTERS
  {
    c as int - 'a' as int
  }

  function Parent(p: string): string
    requires p != ""
  {
    p[..|p| - 1]
  }

  /** p is the beginning of one of the words. */
  ghost predicate Begins(p: string, words: set<string>) {
    exists w :: w in words && p <= w
  }

  class Node {
    ghost const path: string
    var next: seq<Node?>
    var isWord: bool

    constructor (ghost path: string)
      ensures this.path == path && !isWord
      ensures |next| == LETTERS && forall i :: 0 <= i < LETTERS ==> next[i] == null
    {
      this.path := path;
      next := seq(LETTERS, _ => null);
      isWord := false;
    }
  }

  class Trie {
    const root: Node
    ghost var nodes: map<string, Node>
    ghost var words: set<string>
    ghost var Repr: set<Node>

    /** The node that a path leads to, or null. */
    ghost function At(p: string): Node?
      reads this
    {
      if p in nodes then nodes[p] else null
    }

    /** The node of a path knows its path, so no two paths lead to one node; it is marked when the path
        is a word; and its children are the nodes of the extended paths. */
    ghost predicate NodeOk(p: string)
      reads this, Repr
      requires p in nodes && nodes[p] in Repr
    {
      && Lowercase(p)
      && nodes[p].path == p
      && (nodes[p].isWord <==> p in words)
      && |nodes[p].next| == LETTERS
      && forall c :: 'a' <= c <= 'z' ==> nodes[p].next[Letter(c)] == At(p + [c])
    }

    ghost predicate Shape()
      reads this, Repr
    {
      && "" in nodes && nodes[""] == root
      && (forall p :: p in nodes ==> nodes[p] in Repr && NodeOk(p))
      && (forall p {:trigger Parent(p)} :: p in nodes && p != "" ==> Parent(p) in nodes)
      && (forall w :: w in words ==> w in nodes)
    }

    /** Every path is the beginning of a word, or of extra. */
    ghost predicate Pruned(extra: string)
      reads this
    {
      forall p :: p in nodes ==> p == "" || p <= extra || Begins(p, words)
    }

    ghost predicate Valid()
      reads this, Repr
    {
      Shape() && Pruned("")
    }

    constructor ()
      ensures Valid() && words == {} && fresh(Repr)
    {
      root := new Node("");
      new;
      nodes := map["" := root];
      Repr := {root};
      words := {};
    }

    /** The node that str leads to, or null. */
    method Find(str: string) returns (p: Node?)
      requires Shape() && Lowercase(str)
      ensures p == At(str)
    {
      p := root;
      var i := 0;
      while i < |str|
        invariant 0 <= i <= |str|
        invariant p == At(str[..i])
      {
        if p == null {
          NoExtension(str, i);
          break;
        }
        assert str[..i + 1] == str[..i] + [str[i]] && str[i] in str && NodeOk(str[..i]);
        p := p.next[Letter(str[i])];
        i := i + 1;
      }
      assert str[..|str|] == str;
    }

    lemma {:induction false} NoExtension(str: string, i: nat)
      requires Shape() && i <= |str| && str[..i] !in nodes
      ensures str !in nodes
      decreases |str| - i
    {
      if i < |str| {
        assert Parent(str[..i + 1]) == str[..i];
        NoExtension(str, i + 1);
      } else {
        assert str[..i] == str;
      }
    }

    lemma ChildPaths(p: string, c: char, q: string, d: char)
      requires 'a' <= c <= 'z' && 'a' <= d <= 'z'
      ensures p + [c] == q + [d] <==> p == q && c == d
      ensures Letter(c) == Letter(d) <==> c == d
    {
      if p + [c] == q + [d] {
        assert p == (p + [c])[..|p|] && q == (q + [d])[..|q|];
        assert c == (p + [c])[|p|] && d == (q + [d])[|q|];
      }
    }

    /** One letter further down, over a new node if need be. */
    method Descend(ghost path: string, p: Node, c: char) returns (q: Node)
      requires Shape() && path in nodes && nodes[path] == p && 'a' <= c <= 'z'
      modifies this`nodes, this`Repr, p`next
      ensures Shape()
      ensures nodes == old(nodes)[path + [c] := q]
      ensures old(Repr) <= Repr && fresh(Repr - old(Repr))
    {
      assert NodeOk(path);
      if p.next[Letter(c)] == null {
        AddChild(path, p, c);
        assert NodeOk(path);
      }
      q := p.next[Letter(c)];
    }

    method AddChild(ghost path: string, p: Node, c: char)
      requires Shape() && path in nodes && nodes[path] == p && 'a' <= c <= 'z' && path + [c] !in nodes
      modifies this`nodes, this`Repr, p`next
      ensures Shape() && path + [c] in nodes && old(Repr) <= Repr && fresh(Repr - old(Repr))
      ensures nodes == old(nodes)[path + [c] := nodes[path + [c]]]
    {
      ghost var before, child := nodes, path + [c];
      assert NodeOk(path);
      var n := new Node(child);
      p.next := p.next[Letter(c) := n];
      nodes := nodes[child := n];
      Repr := Repr + {n};
      forall q | q in nodes ensures NodeOk(q) {
        if q in before { assert old(NodeOk(q)); }
        forall d | 'a' <= d <= 'z' ensures nodes[q].next[Letter(d)] == At(q + [d]) {
          ChildPaths(path, c, q, d);
          if q == child { assert Parent(q + [d]) == child; }
        }
      }
      forall q | q in nodes && q != "" ensures Parent(q) in nodes {
        if q == child {
          assert Parent(q) == path;
        } else {
          assert Parent(q) in before;
        }
      }
    }

    /** The loop of an insertion has come down i letters, to p. */
    ghost predicate Inserting(word: string, i: nat, p: Node)
      reads this, Repr
    {
      && Shape() && Pruned(word) && Lowercase(word)
      && i <= |word| && word[..i] in nodes && nodes[word[..i]] == p
    }

    lemma Advanced(word: string, i: nat, before: map<string, Node>, q: Node)
      requires Shape() && Lowercase(word) && i < |word| && nodes == before[word[..i] + [word[i]] := q]
      requires forall p :: p in before ==> p == "" || p <= word || Begins(p, words)
      ensures Inserting(word, i + 1, q)
    {
      assert word[..i + 1] == word[..i] + [word[i]] && word[..i + 1] <= word;
    }

    method InsertLetter(word: string, i: nat, p: Node) returns (q: Node)
      requires Inserting(word, i, p) && i < |word|
      modifies this`nodes, this`Repr, p`next
      ensures Inserting(word, i + 1, q)
      ensures old(Repr) <= Repr && fresh(Repr - old(Repr))
    {
      assert word[i] in word;
      q := Descend(word[..i], p, word[i]);
      Advanced(word, i, old(nodes), q);
    }

    /** Adds word, and nothing else, to the words. */
    method Insert(word: string)
      requires Valid() && Lowercase(word)
      modifies this`nodes, this`words, this`Repr, Repr
      ensures Valid() && words == old(words) + {word}
      ensures fresh(Repr - old(Repr))
    {
      var p := root;
      for i := 0 to |word|
        invariant Inserting(word, i, p) && words == old(words)
        invariant fresh(Repr - old(Repr))
      {
        assert p in Repr;
        p := InsertLetter(word, i, p);
      }
      assert word[..|word|] == word;
      MarkWord(word, p);
    }

    method MarkWord(ghost word: string, p: Node)
      requires Inserting(word, |word|, p) && word[..|word|] == word
      modifies p`isWord, this`words
      ensures Valid() && words == old(words) + {word}
    {
      p.isWord := true;
      words := words + {word};
      forall q | q in nodes ensures NodeOk(q) {
        assert old(NodeOk(q)) && old(NodeOk(word));
      }
      forall q | q in nodes && q != "" ensures Begins(q, words) {
        if q <= word {
          assert word in words;
        } else {
          var w :| w in old(words) && q <= w;
          assert w in words;
        }
      }
    }

    method Search(word: string) returns (b: bool)
      requires Valid() && Lowercase(word)
      ensures b <==> word in words
    {
      var p := Find(word);
      assert word in nodes ==> NodeOk(word);
      b := p != null && p.isWord;
    }

    method StartsWith(prefix: string) returns (b: bool)
      requires Valid() && Lowercase(prefix)
      ensures b <==> prefix == "" || exists w :: w in words && prefix <= w
    {
      var p := Find(prefix);
      b := p != null;
      assert b && prefix != "" ==> Begins(prefix, words);
      if w :| w in words && prefix <= w {
        assert w[..|prefix|] == prefix;
        if prefix !in nodes { NoExtension(w, |prefix|); }
      }
    }

    /** After any sequence of insertions, in any order, the words are those inserted. */
    method InsertAll(ws: seq<string>)
      requires Valid() && forall w :: w in ws ==> Lowercase(w)
      modifies this`nodes, this`words, this`Repr, Repr
      ensures Valid() && words == old(words) + set w | w in ws
    {
      for i := 0 to |ws|
        invariant Valid() && words == old(words) + First(ws, i)
        invariant fresh(Repr - old(Repr))
      {
        FirstNext(ws, i);
        Insert(ws[i]);
      }
      assert ws[..|ws|] == ws;
    }
  }

  ghost function First(ws: seq<string>, n: nat): set<string>
    requires n <= |ws|
  {
    set w | w in ws[..n]
  }

  lemma FirstNext(ws: seq<string>, n: nat)
    requires n < |ws|
    ensures First(ws, n + 1) == First(ws, n) + {ws[n]} && ws[n] in ws
  {
    assert ws[..n + 1] == ws[..n] + [ws[n]];
  }
}
