/** The LRU cache as it is kept: a recency list of nodes and an index from keys to their nodes. */
module LruCache {
  import opened Lru

  class Node<K, V> {
    const key: K
    var val: V

    constructor (key: K, val: V)
      ensures this.key == key && this.val == val
    {
      this.key, this.val := key, val;
    }
  }

  /** list.splice within one list: the range [first, last) moves ahead of a later position. */
  function Splice<T>(s: seq<T>, pos: nat, first: nat, last: nat): seq<T>
    requires first <= last <= pos <= |s|
  {
    s[..first] + s[last..pos] + s[first..last] + s[pos..]
  }

  /** Splicing everything ahead of an entry behind it moves that entry to the front. */
  lemma SpliceMovesToFront<T>(s: seq<T>, i: nat)
    requires i < |s|
    ensures Splice(s, i + 1, 0, i) == MoveToFront(s, i)
  {
  }

  /** The position of an iterator in the list. */
  function PositionOf<T(==)>(s: seq<T>, x: T): (i: nat)
    requires x in s
    ensures i < |s| && s[i] == x
  {
    if s[0] == x then 0 else 1 + PositionOf(s[1..], x)
  }

  ghost function Pairs<K, V>(nodes: seq<Node<K, V>>): (v: seq<Pair<K, V>>)
    reads nodes
    ensures |v| == |nodes| && forall i :: 0 <= i < |v| ==> v[i] == Pair(nodes[i].key, nodes[i].val)
  {
    if nodes == [] then []
    else Pairs(nodes[..|nodes| - 1]) + [Pair(nodes[|nodes| - 1].key, nodes[|nodes| - 1].val)]
  }

  /** The index maps exactly the keys of the nodes, each to its own node; no key occurs twice. */
  ghost predicate Agree<K, V>(nodes: seq<Node<K, V>>, index: map<K, Node<K, V>>) {
    && (forall i, j :: 0 <= i < j < |nodes| ==> nodes[i].key != nodes[j].key)
    && (forall n :: n in nodes ==> n.key in index && index[n.key] == n)
    && (forall k :: k in index ==> index[k] in nodes && index[k].key == k)
  }

  lemma AgreeMoved<K, V>(nodes: seq<Node<K, V>>, index: map<K, Node<K, V>>, p: nat)
    requires Agree(nodes, index) && p < |nodes|
    ensures Agree(MoveToFront(nodes, p), index)
  {
    var m := MoveToFront(nodes, p);
    MoveMembers(nodes, p);
    forall i, j | 0 <= i < j < |m| ensures m[i].key != m[j].key {
      var a, b := if i == 0 then p else if i <= p then i - 1 else i, if j <= p then j - 1 else j;
      assert m[i] == nodes[a] && m[j] == nodes[b];
    }
  }

  lemma PairsMoved<K, V>(nodes: seq<Node<K, V>>, p: nat)
    requires p < |nodes|
    ensures Pairs(MoveToFront(nodes, p)) == MoveToFront(Pairs(nodes), p)
  {
    MoveMembers(nodes, p);
    MoveMembers(Pairs(nodes), p);
  }

  /** The splice of a hit, all at once. */
  lemma Moved<K, V>(nodes: seq<Node<K, V>>, index: map<K, Node<K, V>>, p: nat)
    requires Agree(nodes, index) && p < |nodes|
    ensures var m := Splice(nodes, p + 1, 0, p);
            Agree(m, index) && |m| == |nodes| && m[0] == nodes[p] && Pairs(m) == MoveToFront(Pairs(nodes), p)
  {
    SpliceMovesToFront(nodes, p);
    MoveMembers(nodes, p);
    AgreeMoved(nodes, index, p);
    PairsMoved(nodes, p);
  }

  lemma AgreeDropped<K, V>(nodes: seq<Node<K, V>>, index: map<K, Node<K, V>>)
    requires Agree(nodes, index) && nodes != []
    ensures Agree(nodes[..|nodes| - 1], index - {nodes[|nodes| - 1].key})
  {
    var last := nodes[|nodes| - 1];
    forall k | k in index && k != last.key ensures index[k] in nodes[..|nodes| - 1] {
      var j :| 0 <= j < |nodes| && nodes[j] == index[k];
      assert j < |nodes| - 1 && nodes[..|nodes| - 1][j] == index[k];
    }
  }

  lemma AgreePushed<K, V>(nodes: seq<Node<K, V>>, index: map<K, Node<K, V>>, n: Node<K, V>)
    requires Agree(nodes, index) && n.key !in index
    ensures Agree([n] + nodes, index[n.key := n])
    ensures Pairs([n] + nodes) == [Pair(n.key, n.val)] + Pairs(nodes)
  {
    var s := [n] + nodes;
    forall i, j | 0 <= i < j < |s| ensures s[i].key != s[j].key {
      assert s[j] in nodes;
    }
  }

  class LRU<K(==), V> {
    const capacity: nat
    const notExist: V
    var cache: seq<Node<K, V>>
    var index: map<K, Node<K, V>>

    /** The keys and values, most recently used first. */
    ghost function View(): seq<Pair<K, V>>
      reads this, cache
    {
      Pairs(cache)
    }

    ghost predicate Valid()
      reads this
    {
      |cache| <= capacity && Agree(cache, index)
    }

    constructor (capacity: nat, notExist: V)
      ensures Valid() && View() == [] && this.capacity == capacity && this.notExist == notExist
    {
      this.capacity, this.notExist := capacity, notExist;
      cache, index := [], map[];
    }

    lemma IndexAgrees(key: K)
      requires Valid()
      ensures key in index <==> Cached(View(), key)
      ensures key in index ==> PositionOf(cache, index[key]) == Find(View(), key)
      ensures Ok(View(), capacity) && |index| == |cache|
    {
      var v := View();
      if key in index {
        var p := PositionOf(cache, index[key]);
        assert v[p].key == key;
      }
      if Cached(v, key) {
        assert cache[Find(v, key)].key == key;
      }
      assert index.Keys == set n | n in cache :: n.key by {
        forall k | k in index ensures k in set n | n in cache :: n.key {
          assert index[k] in cache;
        }
      }
      CountKeys(cache);
    }

    static lemma {:induction false} CountKeys(s: seq<Node<K, V>>)
      requires forall i, j :: 0 <= i < j < |s| ==> s[i].key != s[j].key
      ensures |set n | n in s :: n.key| == |s|
    {
      if s != [] {
        var init, last := s[..|s| - 1], s[|s| - 1];
        CountKeys(init);
        assert (set n | n in s :: n.key) == (set n | n in init :: n.key) + {last.key};
      }
    }

    /** A hit splices the node to the front and yields its value; a miss yields the stand-in. */
    method Get(key: K) returns (r: V)
      requires Valid()
      modifies this`cache
      ensures Valid() && View() == Lru.Get(old(View()), key)
      ensures r == if Cached(old(View()), key) then old(View())[Find(old(View()), key)].val else notExist
    {
      IndexAgrees(key);
      if key !in index {
        return notExist;
      }
      var node := index[key];
      MoveUp(node);
      r := node.val;
    }

    method MoveUp(node: Node<K, V>)
      requires Valid() && node in cache
      modifies this`cache
      ensures Valid() && cache != [] && cache[0] == node
      ensures View() == MoveToFront(old(View()), PositionOf(old(cache), node))
    {
      var p := PositionOf(cache, node);
      Moved(cache, index, p);
      cache := Splice(cache, p + 1, 0, p);
    }

    /** A known key gets its new value at the front; a new one takes the place of the last node of a
        full cache, which leaves the index too. */
    method Set(key: K, val: V)
      requires Valid() && capacity > 0
      modifies this`cache, this`index, cache
      ensures Valid() && View() == Lru.Set(old(View()), capacity, key, val)
    {
      IndexAgrees(key);
      ghost var v := View();
      if key in index {
        var node := index[key];
        MoveUp(node);
        SetFront(val);
        assert View() == MoveToFront(v, Find(v, key))[0 := Pair(key, val)];
        return;
      }
      if |index| == capacity {
        Evict();
      }
      AddFront(key, val);
    }

    /** Drops the last node from the list and its key from the index. */
    method Evict()
      requires Valid() && cache != []
      modifies this`cache, this`index
      ensures Agree(cache, index) && cache == old(cache)[..|old(cache)| - 1]
      ensures index.Keys <= old(index.Keys) && View() == old(View())[..|old(cache)| - 1]
    {
      AgreeDropped(cache, index);
      index := index - {cache[|cache| - 1].key};
      cache := cache[..|cache| - 1];
    }

    method SetFront(val: V)
      requires Valid() && cache != []
      modifies cache[0]
      ensures Valid() && View() == old(View())[0 := Pair(cache[0].key, val)]
    {
      cache[0].val := val;
    }

    method AddFront(key: K, val: V)
      requires |cache| < capacity && Agree(cache, index) && key !in index
      modifies this`cache, this`index
      ensures Valid() && View() == [Pair(key, val)] + old(View())
    {
      var node := new Node<K, V>(key, val);
      assert Pairs(cache) == old(View());
      AgreePushed(cache, index, node);
      cache := [node] + cache;
      index := index[key := node];
    }
  }
}
