/** The LRU cache: a doubly linked list of heap nodes, most recently used first, and an index over it. */
module LruCache {
  import opened Common

  class Node<K, V> {
    const key: K
    var value: V
    var prev: Node?<K, V>
    var next: Node?<K, V>

    constructor (k: K, v: V)
      ensures key == k && value == v && prev == null && next == null
    {
      key, value, prev, next := k, v, null, null;
    }
  }

  function Without<T>(s: seq<T>, i: nat): seq<T>
    requires i < |s|
  {
    seq(|s| - 1, j requires 0 <= j < |s| - 1 => if j < i then s[j] else s[j + 1])
  }

  lemma {:induction false} WithoutAt<T>(s: seq<T>, i: nat)
    requires i < |s|
    ensures |Without(s, i)| == |s| - 1
    ensures forall j :: 0 <= j < |s| - 1 ==> Without(s, i)[j] == if j < i then s[j] else s[j + 1]
    ensures forall x :: x in Without(s, i) ==> x in s
  {
  }

  class LruCache<K(==), V(==)> {
    var capacity: nat
    var index: map<K, Node<K, V>>
    var head: Node?<K, V>
    var tail: Node?<K, V>
    ghost var nodes: seq<Node<K, V>>
    ghost var inserted: multiset<(K, V)>   // every pair ever given to `put`
    ghost var gone: multiset<(K, V)>       // every pair handed back: replaced, removed or evicted

    /** The recency sequence: most recently used first. */
    ghost function Items(): seq<(K, V)>
      reads this`nodes, nodes`value
    {
      Pairs(nodes)
    }

    /** List and index agree, and every pair ever inserted is held or has been handed back, once. */
    ghost predicate Core()
      reads this, nodes
    {
      Linked() && Indexes(index, nodes) && Balanced(inserted, gone, Items())
    }

    ghost predicate Valid()
      reads this, nodes
    {
      Core() && |nodes| <= capacity
    }

    /** No foreign node enters the list. */
    twostate predicate Owned()
      reads this`nodes
    {
      forall j :: 0 <= j < |nodes| ==> nodes[j] in old(nodes) || fresh(nodes[j])
    }

    constructor (size: nat)
      ensures Valid() && capacity == size && Items() == [] && inserted == multiset{}
    {
      capacity, index, head, tail, nodes := size, map[], null, null, [];
      inserted, gone := multiset{}, multiset{};
    }

    ghost predicate Linked()
      reads this`nodes, this`head, this`tail, nodes`prev, nodes`next
    {
      Links(nodes, head, tail)
    }

    method PushFront(n: Node<K, V>)
      requires Linked() && n !in nodes
      modifies this`head, this`tail, this`nodes, n`prev, n`next, nodes`prev
      ensures Linked() && nodes == [n] + old(nodes)
    {
      ghost var s := nodes;
      n.prev := null;
      n.next := head;
      if head != null {
        head.prev := n;
      } else {
        tail := n;
      }
      head := n;
      nodes := [n] + nodes;
      forall i | 0 <= i < |nodes| ensures LinkOk(nodes, i) {
        if i > 0 { assert nodes[i] == s[i - 1] && old(LinkOk(s, i - 1)); }
      }
    }

    method Unlink(n: Node<K, V>, ghost i: nat)
      requires Linked() && i < |nodes| && nodes[i] == n
      modifies this`head, this`tail, this`nodes, nodes`prev, nodes`next
      ensures Linked() && nodes == Without(old(nodes), i) && n !in nodes
    {
      ghost var s := nodes;
      Bridge(n, i);
      label bridged:
      n.prev := null;
      n.next := null;
      forall j | 0 <= j < |s| && j != i ensures BridgeOk(s, i, j) { assert old@bridged(BridgeOk(s, i, j)); }
      BridgedLinks(s, i, head, tail);
      nodes := Without(nodes, i);
    }

    /** The four cases of `unlink`: the neighbours of n, or head and tail, now pass it by. */
    method Bridge(n: Node<K, V>, ghost i: nat)
      requires Linked() && i < |nodes| && nodes[i] == n
      modifies this`head, this`tail, nodes`prev, nodes`next
      ensures Distinct(nodes) && Bridged(nodes, i, head, tail)
    {
      assert LinkOk(nodes, i);
      assert n.prev != null ==> n.prev in nodes;
      assert n.next != null ==> n.next in nodes;
      if n.prev == null && n.next == null {
        head, tail := null, null;
      } else if n.prev == null {
        n.next.prev := null;
        head := n.next;
      } else if n.next == null {
        n.prev.next := null;
        tail := n.prev;
      } else {
        n.prev.next := n.next;
        n.next.prev := n.prev;
      }
      forall j | 0 <= j < |nodes| && j != i ensures BridgeOk(nodes, i, j) {
        assert old(LinkOk(nodes, j));
      }
    }
  
    method MoveToFront(n: Node<K, V>, ghost i: nat)
      requires Linked() && i < |nodes| && nodes[i] == n
      modifies this`head, this`tail, this`nodes, nodes`prev, nodes`next
      ensures Linked() && nodes == [n] + Without(old(nodes), i) && Owned()
    {
      if head == n {
        assert i == 0;
        assert nodes == [n] + Without(nodes, 0);
        return;
      }
      Unlink(n, i);
      PushFront(n);
    }

    /** Takes node i out of the list and the index, and hands back its pair. */
    method Take(n: Node<K, V>, ghost i: nat) returns (pair: (K, V))
      requires Core() && i < |nodes| && nodes[i] == n
      modifies this`index, this`head, this`tail, this`nodes, this`gone, nodes`prev, nodes`next
      ensures Core() && pair == old(Items())[i] && Items() == Without(old(Items()), i)
      ensures index == old(index) - {pair.0} && gone == old(gone) + multiset{pair} && Owned()
    {
      hide Links, Indexes, Pairs, Balanced;
      PairsWithout(nodes, i);
      BalancedDrop(inserted, gone, Items(), i);
      WithoutIndex(index, nodes, i, head, tail);
      WithoutAt(nodes, i);
      index := index - {n.key};
      Unlink(n, i);
      pair := (n.key, n.value);
      gone := gone + multiset{pair};
    }

    method PopLru() returns (r: Option<(K, V)>)
      requires Core()
      modifies this`index, this`head, this`tail, this`nodes, this`gone, nodes`prev, nodes`next
      ensures Core()
      ensures var was := old(Items());
        if was == [] then r == None && Items() == was && gone == old(gone)
        else r == Some(was[|was| - 1]) && Items() == was[..|was| - 1] && gone == old(gone) + multiset{r.value}
      ensures index == if r.Some? then old(index) - {r.value.0} else old(index)
      ensures Owned()
    {
      hide Links, Indexes, Pairs, Balanced, Without;
      Ends(nodes, head, tail);
      if tail == null {
        return None;
      }
      WithoutEnds(Items());
      var pair := Take(tail, |nodes| - 1);
      r := Some(pair);
    }

    method PopMru() returns (r: Option<(K, V)>)
      requires Valid()
      modifies this`index, this`head, this`tail, this`nodes, this`gone, nodes`prev, nodes`next
      ensures Valid() && Owned()
      ensures var was := old(Items());
        if was == [] then r == None && Items() == was && gone == old(gone)
        else r == Some(was[0]) && Items() == was[1..] && gone == old(gone) + multiset{r.value}
    {
      hide Links, Indexes, Pairs, Balanced, Without;
      Ends(nodes, head, tail);
      if head == null {
        return None;
      }
      WithoutEnds(Items());
      var pair := Take(head, 0);
      r := Some(pair);
    }

    method Remove(key: K) returns (r: Option<V>)
      requires Valid()
      modifies this`index, this`head, this`tail, this`nodes, this`gone, nodes`prev, nodes`next
      ensures Valid() && Owned()
      ensures r.Some? <==> key in old(index)
      ensures r == None ==> Items() == old(Items()) && gone == old(gone)
      ensures r.Some? ==> Dropped(old(Items()), Items(), key, r.value) && gone == old(gone) + multiset{(key, r.value)}
    {
      hide Links, Indexes, Pairs, Balanced;
      if key !in index {
        return None;
      }
      ghost var i := Position(index, nodes, key);
      var pair := Take(index[key], i);
      r := Some(pair.1);
    }

    /** A hit becomes the most recently used. */
    method Get(key: K) returns (r: Option<V>)
      requires Valid()
      modifies this`head, this`tail, this`nodes, nodes`prev, nodes`next
      ensures Valid() && Owned()
      ensures r.Some? <==> key in index
      ensures r == None ==> Items() == old(Items())
      ensures r.Some? ==> Fronted(old(Items()), Items(), key, r.value, r.value)
    {
      hide Links, Indexes, Pairs, Balanced;
      if key !in index {
        return None;
      }
      ghost var i := Position(index, nodes, key);
      BalancedFront(inserted, gone, Items(), i, Items()[i]);
      MakesFronted(Items(), i, Items()[i].1);
      var n := index[key];
      Touch(n, i);
      r := Some(n.value);
    }

    /** Replaces, or inserts in front and evicts the last if the cache is full. */
    method Put(key: K, value: V) returns (was: Option<V>, evicted: Option<(K, V)>)
      requires Valid()
      modifies this, nodes
      ensures Valid() && Owned() && capacity == old(capacity) && inserted == old(inserted) + multiset{(key, value)}
      ensures gone == old(gone) + (if was.Some? then multiset{(key, was.value)} else multiset{})
        + if evicted.Some? then multiset{evicted.value} else multiset{}
      ensures capacity == 0 ==> was == None && evicted == Some((key, value)) && Items() == []
      ensures capacity > 0 ==> (was.Some? <==> key in old(index))
      ensures was.Some? ==> evicted == None && Fronted(old(Items()), Items(), key, was.value, value)
      ensures capacity > 0 && was == None ==>
        var s := old(Items());
        if |s| < capacity then evicted == None && Items() == [(key, value)] + s
        else evicted == Some(s[|s| - 1]) && Items() == [(key, value)] + s[..|s| - 1]
    {
      hide Links, Indexes, Pairs, Fronted, Balanced;
      Sizes(index, nodes);
      BalancedPush(inserted, gone, Items(), (key, value));
      if capacity == 0 {
        inserted, gone := inserted + multiset{(key, value)}, gone + multiset{(key, value)};
        return None, Some((key, value));
      }
      if key in index {
        var v := Replace(key, value);
        return Some(v), None;
      }
      if |index| >= capacity {
        evicted := PopLru();
      } else {
        evicted := None;
      }
      InsertNew(key, value);
      was := None;
    }

    method Replace(key: K, value: V) returns (was: V)
      requires Valid() && key in index
      modifies this`head, this`tail, this`nodes, this`inserted, this`gone, nodes
      ensures Valid() && Owned() && inserted == old(inserted) + multiset{(key, value)}
      ensures gone == old(gone) + multiset{(key, was)}
      ensures Fronted(old(Items()), Items(), key, was, value)
    {
      hide Links, Indexes, Pairs, Balanced, Without, Fronted;
      ghost var i := Position(index, nodes, key);
      ghost var s := Items();
      BalancedFront(inserted, gone, s, i, (key, value));
      MakesFronted(s, i, value);
      SameWithout(s, i, (key, value));
      var n := index[key];
      was := n.value;
      StoreValue(n, value, i);
      Touch(n, i);
      inserted, gone := inserted + multiset{(key, value)}, gone + multiset{(key, was)};
    }

    method StoreValue(n: Node<K, V>, value: V, ghost i: nat)
      requires Linked() && i < |nodes| && nodes[i] == n
      modifies n`value
      ensures Items() == old(Items())[i := (n.key, value)]
    {
      hide Links, Pairs;
      LinkedOnce(nodes, head, tail);
      n.value := value;
    }

    method Touch(n: Node<K, V>, ghost i: nat)
      requires Linked() && Indexes(index, nodes) && i < |nodes| && nodes[i] == n
      modifies this`head, this`tail, this`nodes, nodes`prev, nodes`next
      ensures Linked() && Indexes(index, nodes) && Owned() && |nodes| == |old(nodes)|
      ensures Items() == [old(Items())[i]] + Without(old(Items()), i)
    {
      hide Links, Indexes, Pairs;
      FrontPairs(nodes, i);
      FrontIndex(index, nodes, i);
      MoveToFront(n, i);
    }

    method InsertNew(key: K, value: V)
      requires Valid() && key !in index && |nodes| < capacity
      modifies this`index, this`head, this`tail, this`nodes, this`inserted, nodes`prev
      ensures Valid() && Owned() && inserted == old(inserted) + multiset{(key, value)}
      ensures Items() == [(key, value)] + old(Items())
    {
      hide Links, Indexes, Pairs, Balanced;
      ghost var s := Items();
      BalancedPush(inserted, gone, s, (key, value));
      var n := new Node(key, value);
      PushedIndex(index, nodes, n);
      index := index[key := n];
      PushFront(n);
      assert Items() == [(key, value)] + s;
      inserted := inserted + multiset{(key, value)};
    }

    /** Evicts from the back until the new capacity holds the rest. */
    method Resize(newCapacity: nat) returns (evicted: seq<(K, V)>)
      requires Valid()
      modifies this, nodes
      ensures Valid() && Owned() && capacity == newCapacity && inserted == old(inserted)
      ensures |Items()| == Min(|old(Items())|, newCapacity) && CutBack(old(Items()), Items(), evicted)
      ensures gone == old(gone) + multiset(evicted)
    {
      hide Links, Indexes, Pairs, Balanced, CutBack, Min;
      ghost var s := Items();
      capacity := newCapacity;
      evicted := [];
      Sizes(index, nodes);
      CutNothing(s);
      while |index| > capacity
        invariant Core() && capacity == newCapacity && inserted == old(inserted) && |index| == |nodes|
        invariant Min(|s|, newCapacity) <= |nodes| <= |s| && CutBack(s, Items(), evicted)
        invariant gone == old(gone) + multiset(evicted) && Owned()
        decreases |nodes|
      {
        CutOne(s, Items(), evicted);
        var item := PopLru();
        if item == None {
          break;
        }
        OneMore(evicted, item.value);
        evicted := evicted + [item.value];
        Sizes(index, nodes);
      }
    }
  }

  /** `evicted` holds the end of s, last first, and `items` the rest. */
  ghost predicate CutBack<T>(s: seq<T>, items: seq<T>, evicted: seq<T>) {
    && |evicted| == |s| - |items| && items <= s
    && forall j :: 0 <= j < |evicted| ==> evicted[j] == s[|s| - 1 - j]
  }

  lemma {:induction false} OneMore<T>(s: seq<T>, x: T)
    ensures multiset(s + [x]) == multiset(s) + multiset{x}
  {
  }

  lemma {:induction false} CutNothing<T>(s: seq<T>)
    ensures CutBack(s, s, [])
  {
  }

  lemma {:induction false} CutOne<T>(s: seq<T>, items: seq<T>, evicted: seq<T>)
    requires CutBack(s, items, evicted)
    ensures items != [] ==> CutBack(s, items[..|items| - 1], evicted + [items[|items| - 1]])
  {
  }

  /** The pair of k, wherever it was, is gone. */
  ghost predicate Dropped<K, V>(s: seq<(K, V)>, s': seq<(K, V)>, k: K, was: V) {
    exists i :: 0 <= i < |s| && s[i] == (k, was) && s' == Without(s, i)
  }

  /** The pair of k, wherever it was, is in front with value v; the rest keeps its order. */
  ghost predicate Fronted<K, V>(s: seq<(K, V)>, s': seq<(K, V)>, k: K, was: V, v: V) {
    exists i :: 0 <= i < |s| && s[i] == (k, was) && s' == [(k, v)] + Without(s, i)
  }

  // --------------------------------------------------------------- list and index

  ghost function Pairs<K, V>(s: seq<Node<K, V>>): (r: seq<(K, V)>)
    reads s`value
    ensures |r| == |s| && forall i :: 0 <= i < |s| ==> r[i] == (s[i].key, s[i].value)
  {
    if s == [] then [] else [(s[0].key, s[0].value)] + Pairs(s[1..])
  }

  /** The index finds every node of the list under its key, and nothing else. */
  ghost predicate Indexes<K, V>(m: map<K, Node<K, V>>, s: seq<Node<K, V>>)
  {
    && |m| == |s|
    && (forall i :: 0 <= i < |s| ==> s[i].key in m && m[s[i].key] == s[i])
    && (forall k :: k in m ==> m[k] in s && m[k].key == k)
  }

  /** Forward and backward links, head and tail spell out the same sequence of distinct nodes. */
  ghost predicate Links<K, V>(nodes: seq<Node<K, V>>, head: Node?<K, V>, tail: Node?<K, V>)
    reads nodes`prev, nodes`next
  {
    && Distinct(nodes)
    && head == (if nodes == [] then null else nodes[0])
    && tail == (if nodes == [] then null else nodes[|nodes| - 1])
    && (forall i :: 0 <= i < |nodes| ==> LinkOk(nodes, i))
  }

  ghost predicate LinkOk<K, V>(s: seq<Node<K, V>>, i: nat)
    requires i < |s|
    reads s`prev, s`next
  {
    s[i].prev == Before(s, i) && s[i].next == After(s, i)
  }

  /** The links of node j when node i is passed by. */
  ghost predicate BridgeOk<K, V>(s: seq<Node<K, V>>, i: nat, j: nat)
    requires i < |s| && j < |s|
    reads s`prev, s`next
  {
    && s[j].prev == (if j == i + 1 then Before(s, i) else Before(s, j))
    && s[j].next == (if j + 1 == i then After(s, i) else After(s, j))
  }

  /** All links but those of node i itself, with node i passed by. */
  ghost predicate Bridged<K, V>(s: seq<Node<K, V>>, i: nat, head: Node?<K, V>, tail: Node?<K, V>)
    requires i < |s|
    reads s`prev, s`next
  {
    && head == (if i == 0 then After(s, 0) else s[0])
    && tail == (if i == |s| - 1 then Before(s, i) else s[|s| - 1])
    && (forall j :: 0 <= j < |s| && j != i ==> BridgeOk(s, i, j))
  }

  lemma {:induction false} BridgedLinks<K, V>(s: seq<Node<K, V>>, i: nat, head: Node?<K, V>, tail: Node?<K, V>)
    requires i < |s| && Distinct(s) && Bridged(s, i, head, tail)
    ensures Links(Without(s, i), head, tail) && s[i] !in Without(s, i)
  {
    var t := Without(s, i);
    WithoutAt(s, i);
    assert Distinct(t);
    forall j | 0 <= j < |t| ensures LinkOk(t, j) {
      var k := if j < i then j else j + 1;
      assert t[j] == s[k] && BridgeOk(s, i, k);
    }
  }

  ghost predicate Distinct<T>(s: seq<T>) { forall i, j :: 0 <= i < j < |s| ==> s[i] != s[j] }

  ghost function Before<K, V>(s: seq<Node<K, V>>, i: nat): Node?<K, V>
    requires i < |s|
  {
    if i == 0 then null else s[i - 1]
  }

  ghost function After<K, V>(s: seq<Node<K, V>>, i: nat): Node?<K, V>
    requires i < |s|
  {
    if i + 1 == |s| then null else s[i + 1]
  }

  lemma {:induction false} PairsWithout<K, V>(s: seq<Node<K, V>>, i: nat)
    requires i < |s|
    ensures Pairs(Without(s, i)) == Without(Pairs(s), i)
  {
  }

  lemma {:induction false} FrontPairs<K, V>(s: seq<Node<K, V>>, i: nat)
    requires i < |s|
    ensures Pairs([s[i]] + Without(s, i)) == [(s[i].key, s[i].value)] + Without(Pairs(s), i)
  {
  }

  ghost predicate Balanced<K, V>(inserted: multiset<(K, V)>, gone: multiset<(K, V)>, items: seq<(K, V)>) {
    inserted == gone + multiset(items)
  }

  lemma {:induction false} WithoutMultiset<T>(s: seq<T>, i: nat)
    requires i < |s|
    ensures multiset(s) == multiset(Without(s, i)) + multiset{s[i]}
  {
    assert Without(s, i) == s[..i] + s[i + 1..];
    assert s == s[..i] + [s[i]] + s[i + 1..];
  }

  /** Pair i handed back. */
  lemma {:induction false} BalancedDrop<K, V>(inserted: multiset<(K, V)>, gone: multiset<(K, V)>, s: seq<(K, V)>,
      i: nat)
    requires i < |s| && Balanced(inserted, gone, s)
    ensures Balanced(inserted, gone + multiset{s[i]}, Without(s, i))
  {
    hide Without;
    WithoutMultiset(s, i);
  }

  lemma {:induction false} BalancedPush<K, V>(inserted: multiset<(K, V)>, gone: multiset<(K, V)>, s: seq<(K, V)>,
      p: (K, V))
    requires Balanced(inserted, gone, s)
    ensures Balanced(inserted + multiset{p}, gone, [p] + s) && Balanced(inserted + multiset{p}, gone + multiset{p}, s)
  {
  }

  /** Pair i moved to the front, or handed back and replaced there. */
  lemma {:induction false} BalancedFront<K, V>(inserted: multiset<(K, V)>, gone: multiset<(K, V)>, s: seq<(K, V)>,
      i: nat, p: (K, V))
    requires i < |s| && Balanced(inserted, gone, s)
    ensures Balanced(inserted, gone, [s[i]] + Without(s, i))
    ensures Balanced(inserted + multiset{p}, gone + multiset{s[i]}, [p] + Without(s, i))
  {
    hide Without;
    WithoutMultiset(s, i);
  }

  lemma {:induction false} WithoutIndex<K, V>(m: map<K, Node<K, V>>, s: seq<Node<K, V>>, i: nat,
      head: Node?<K, V>, tail: Node?<K, V>)
    requires Indexes(m, s) && Links(s, head, tail) && i < |s|
    ensures Indexes(m - {s[i].key}, Without(s, i))
  {
    hide Links, Without;
    LinkedOnce(s, head, tail);
    WithoutAt(s, i);
    var t, m': map<K, Node<K, V>> := Without(s, i), m - {s[i].key};
    assert m'.Keys == m.Keys - {s[i].key};
    assert |m'| == |m'.Keys| && |m| == |m.Keys|;
    forall j | 0 <= j < |t| ensures t[j].key in m' && m'[t[j].key] == t[j] { LeftIsIndexed(m, s, i, j); }
    forall k | k in m' ensures m'[k] in t && m'[k].key == k { IndexedIsLeft(m, s, i, k); }
  }

  /** What is left of the list is in what is left of the index. */
  lemma {:induction false} LeftIsIndexed<K, V>(m: map<K, Node<K, V>>, s: seq<Node<K, V>>, i: nat, j: nat)
    requires Indexes(m, s) && Distinct(s) && i < |s| && j < |Without(s, i)|
    ensures var n := Without(s, i)[j]; n.key in m && n.key != s[i].key && m[n.key] == n
  {
    WithoutAt(s, i);
    var k := if j < i then j else j + 1;
    assert Without(s, i)[j] == s[k] && s[k] != s[i];
    assert m[s[k].key] == s[k] && m[s[i].key] == s[i];
  }

  /** And the other way round. */
  lemma {:induction false} IndexedIsLeft<K, V>(m: map<K, Node<K, V>>, s: seq<Node<K, V>>, i: nat, k: K)
    requires Indexes(m, s) && i < |s| && k in m && k != s[i].key
    ensures m[k] in Without(s, i) && m[k].key == k
  {
    WithoutAt(s, i);
    var j := Position(m, s, k);
    assert Without(s, i)[if j < i then j else j - 1] == s[j];
  }

  lemma {:induction false} Ends<K, V>(s: seq<Node<K, V>>, head: Node?<K, V>, tail: Node?<K, V>)
    requires Links(s, head, tail)
    ensures if s == [] then head == null == tail else head == s[0] && tail == s[|s| - 1]
  {
  }

  lemma {:induction false} WithoutEnds<T>(s: seq<T>)
    requires s != []
    ensures Without(s, 0) == s[1..] && Without(s, |s| - 1) == s[..|s| - 1]
  {
  }

  lemma {:induction false} LinkedOnce<K, V>(s: seq<Node<K, V>>, head: Node?<K, V>, tail: Node?<K, V>)
    requires Links(s, head, tail)
    ensures Distinct(s)
  {
  }

  lemma {:induction false} FrontIndex<K, V>(m: map<K, Node<K, V>>, s: seq<Node<K, V>>, i: nat)
    requires Indexes(m, s) && i < |s|
    ensures Indexes(m, [s[i]] + Without(s, i))
  {
    WithoutAt(s, i);
    var t := [s[i]] + Without(s, i);
    forall k | k in m ensures m[k] in t {
      var j :| 0 <= j < |s| && s[j] == m[k];
      assert t[if j == i then 0 else if j < i then j + 1 else j] == s[j];
    }
  }

  lemma {:induction false} PushedIndex<K, V>(m: map<K, Node<K, V>>, s: seq<Node<K, V>>, n: Node<K, V>)
    requires Indexes(m, s) && n.key !in m
    ensures Indexes(m[n.key := n], [n] + s) && n !in s
  {
    var m', t := m[n.key := n], [n] + s;
    assert m'.Keys == m.Keys + {n.key};
    assert |m'| == |m'.Keys| && |m| == |m.Keys|;
    forall k | k in m' ensures m'[k] in t {
      if k != n.key { assert m[k] in s; }
    }
  }

  ghost function Position<K, V>(m: map<K, Node<K, V>>, s: seq<Node<K, V>>, k: K): (i: nat)
    requires Indexes(m, s) && k in m
    ensures i < |s| && s[i] == m[k] && s[i].key == k
  {
    var i :| 0 <= i < |s| && s[i] == m[k];
    i
  }

  lemma {:induction false} SameWithout<T>(s: seq<T>, i: nat, x: T)
    requires i < |s|
    ensures Without(s[i := x], i) == Without(s, i)
  {
  }

  lemma {:induction false} MakesFronted<K, V>(s: seq<(K, V)>, i: nat, v: V)
    requires i < |s|
    ensures Fronted(s, [(s[i].0, v)] + Without(s, i), s[i].0, s[i].1, v)
  {
    hide Without;
    var k := s[i].0;
    assert s[i] == (k, s[i].1);
  }

  lemma {:induction false} Sizes<K, V>(m: map<K, Node<K, V>>, s: seq<Node<K, V>>)
    requires Indexes(m, s)
    ensures |m| == |s|
  {
  }
}
