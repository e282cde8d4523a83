/** In-order iteration over a B-tree with an explicit stack of nodes and positions. */
module BTreeIter {
  import opened Common
  import opened SortedItems
  import opened BTreeNode

  ghost predicate WellFormed<V>(n: Node<V>)
  {
    Outer(n) || (Inner(n) && forall i :: 0 <= i < |n.children| ==> WellFormed(n.children[i]))
  }

  lemma {:induction false} InvIsWellFormed<V>(n: Node<V>, h: nat, lo: nat)
    requires Inv(n, h, lo)
    ensures WellFormed(n)
    decreases h
  {
    if h > 0 {
      forall i | 0 <= i < |n.children| ensures WellFormed(n.children[i]) {
        KidAt(n, h, lo, i);
        InvIsWellFormed(n.children[i], h - 1, lo);
      }
    }
  }

  /** What node n still has to deliver at position idx: even positions are children, odd ones keys. */
  ghost function After<V>(n: Node<V>, idx: nat): seq<Item<V>> {
    if Outer(n) then if idx <= |n.keys| then Zip(n.keys, n.values)[idx..] else []
    else if Inner(n) && idx < 2 * |n.keys| + 1 then
      var j := idx / 2;
      (if idx % 2 == 0 then Flat(n.children[j]) else []) + Tail(n.keys[j..], n.values[j..], n.children[j + 1..])
    else []
  }

  type Frame<V> = (Node<V>, nat)

  ghost function Rest<V>(stack: seq<Frame<V>>): seq<Item<V>> {
    if stack == [] then []
    else
      var top := stack[|stack| - 1];
      After(top.0, top.1) + Rest(stack[..|stack| - 1])
  }

  ghost predicate Frames<V>(stack: seq<Frame<V>>) {
    forall i :: 0 <= i < |stack| ==> WellFormed(stack[i].0)
  }

  // Nodes still to be entered and left: the measure of `next`.

  ghost function Weight<V>(n: Node<V>): nat
    decreases n, 1
  {
    2 + Weights(n.children)
  }

  ghost function Weights<V>(cs: seq<Node<V>>): nat
    decreases cs, 0
  {
    if cs == [] then 0 else Weight(cs[0]) + Weights(cs[1..])
  }

  ghost function Open<V>(n: Node<V>, idx: nat): (w: nat)
    ensures w >= 1
  {
    var j := (idx + 1) / 2;
    1 + if j <= |n.children| then Weights(n.children[j..]) else 0
  }

  ghost function Pending<V>(stack: seq<Frame<V>>): nat {
    if stack == [] then 0
    else Open(stack[|stack| - 1].0, stack[|stack| - 1].1) + Pending(stack[..|stack| - 1])
  }

  lemma {:induction false} Pushed<V>(below: seq<Frame<V>>, n: Node<V>, idx: nat)
    ensures Rest(below + [(n, idx)]) == After(n, idx) + Rest(below)
    ensures Pending(below + [(n, idx)]) == Open(n, idx) + Pending(below)
  {
    hide After, Open;
    assert (below + [(n, idx)])[..|below|] == below;
  }

  lemma {:induction false} EnterChild<V>(n: Node<V>, j: nat)
    requires Inner(n) && j < |n.children|
    ensures After(n, 2 * j) == Flat(n.children[j]) + After(n, 2 * j + 1)
  {
    hide Flat;
    if j == |n.keys| {
      assert Tail(n.keys[j..], n.values[j..], n.children[j + 1..]) == [];
    }
  }

  lemma {:induction false} OpenChild<V>(n: Node<V>, j: nat)
    requires j < |n.children|
    ensures Open(n, 2 * j) == Open(n, 2 * j + 1) + Open(n.children[j], 0) + 1
  {
    var c := n.children[j];
    assert (2 * j + 1) / 2 == j && (2 * j + 2) / 2 == j + 1;
    assert n.children[j..][0] == c && n.children[j..][1..] == n.children[j + 1..];
    assert c.children[0..] == c.children && (0 + 1) / 2 == 0;
    assert Weights(n.children[j..]) == Weight(c) + Weights(n.children[j + 1..]);
  }

  lemma {:induction false} Fresh<V>(n: Node<V>)
    requires WellFormed(n)
    ensures After(n, 0) == Flat(n)
  {
    assert Inner(n) ==> n.keys[0..] == n.keys && n.values[0..] == n.values;
  }

  /** Entering a child changes nothing about what is still to come. */
  lemma {:induction false} Entered<V>(below: seq<Frame<V>>, n: Node<V>, j: nat)
    requires Inner(n) && j < |n.children| && WellFormed(n.children[j])
    ensures Rest(below + [(n, 2 * j + 1), (n.children[j], 0)]) == Rest(below + [(n, 2 * j)])
  {
    hide *;
    var c, mid := n.children[j], below + [(n, 2 * j + 1)];
    EnterChild(n, j);
    Fresh(c);
    Pushed(below, n, 2 * j);
    Pushed(below, n, 2 * j + 1);
    Pushed(mid, c, 0);
    assert mid + [(c, 0)] == below + [(n, 2 * j + 1), (c, 0)];
    Associative(Flat(c), After(n, 2 * j + 1), Rest(below));
  }

  lemma {:induction false} Associative<T>(a: seq<T>, b: seq<T>, c: seq<T>)
    ensures a + b + c == a + (b + c)
  {
  }

  lemma {:induction false} EnteredOnce<V>(below: seq<Frame<V>>, n: Node<V>, j: nat)
    requires Inner(n) && j < |n.children|
    ensures Pending(below + [(n, 2 * j + 1), (n.children[j], 0)]) < Pending(below + [(n, 2 * j)])
  {
    hide After, Flat, Rest, Pending, Open;
    var c, mid := n.children[j], below + [(n, 2 * j + 1)];
    OpenChild(n, j);
    Pushed(below, n, 2 * j);
    Pushed(below, n, 2 * j + 1);
    Pushed(mid, c, 0);
    assert mid + [(c, 0)] == below + [(n, 2 * j + 1), (c, 0)];
  }

  lemma {:induction false} LeafStep<V>(n: Node<V>, idx: nat)
    requires Outer(n) && idx < |n.keys|
    ensures After(n, idx) == [(n.keys[idx], n.values[idx])] + After(n, idx + 1)
  {
  }

  lemma {:induction false} Spent<V>(n: Node<V>, idx: nat)
    requires WellFormed(n) && idx >= |n.keys| + |n.children|
    ensures After(n, idx) == []
  {
  }

  lemma {:induction false} Emptied<V>()
    ensures Rest<V>([]) == []
  {
  }

  lemma {:induction false} Kinds<V>(n: Node<V>)
    requires WellFormed(n)
    ensures Inner(n) || Outer(n)
    ensures Inner(n) ==> forall i :: 0 <= i < |n.children| ==> WellFormed(n.children[i])
  {
  }

  lemma {:induction false} Yielded<V>(below: seq<Frame<V>>, n: Node<V>, idx: nat, x: Item<V>)
    requires After(n, idx) == [x] + After(n, idx + 1)
    ensures var r := Rest(below + [(n, idx)]); r != [] && r[0] == x && r[1..] == Rest(below + [(n, idx + 1)])
  {
    hide After, Rest;
    Pushed(below, n, idx);
    Pushed(below, n, idx + 1);
    assert [x] + After(n, idx + 1) + Rest(below) == [x] + (After(n, idx + 1) + Rest(below));
  }

  lemma {:induction false} PassKey<V>(n: Node<V>, j: nat)
    requires Inner(n) && j < |n.keys|
    ensures After(n, 2 * j + 1) == [(n.keys[j], n.values[j])] + After(n, 2 * j + 2)
  {
    assert n.keys[j..][1..] == n.keys[j + 1..] && n.values[j..][1..] == n.values[j + 1..];
    assert n.children[j + 1..][1..] == n.children[j + 2..];
  }

  class BTreeIter<V> {
    var stack: seq<Frame<V>>

    ghost predicate Valid()
      reads this
    {
      Frames(stack)
    }

    constructor (root: Node<V>)
      requires WellFormed(root)
      ensures Valid() && Rest(stack) == Flat(root)
    {
      stack := [(root, 0)];
      new;
      Fresh(root);
      Pushed([], root, 0);
    }

    /** Delivers the next item in order, or nothing once every item has been delivered. */
    method Next() returns (item: Option<Item<V>>)
      requires Valid()
      modifies this
      ensures Valid()
      ensures item == if old(Rest(stack)) == [] then None else Some(old(Rest(stack))[0])
      ensures Rest(stack) == if old(Rest(stack)) == [] then [] else old(Rest(stack))[1..]
    {
      hide Flat, Tail, Rest, Pending, After, WellFormed, Open;
      while stack != []
        invariant Frames(stack) && Rest(stack) == old(Rest(stack))
        decreases Pending(stack)
      {
        var below := stack[..|stack| - 1];
        var (node, idx) := stack[|stack| - 1];
        assert stack == below + [(node, idx)];
        Pushed(below, node, idx);
        Kinds(node);
        if node.isLeaf {
          if idx < |node.keys| {
            LeafStep(node, idx);
            item := Some((node.keys[idx], node.values[idx]));
            Yielded(below, node, idx, item.value);
            stack := below + [(node, idx + 1)];
            return;
          } else {
            Spent(node, idx);
            stack := below;
          }
        } else if idx < |node.children| + |node.keys| {
          if idx % 2 == 0 {
            Entered(below, node, idx / 2);
            EnteredOnce(below, node, idx / 2);
            stack := below + [(node, idx + 1), (node.children[idx / 2], 0)];
          } else {
            PassKey(node, idx / 2);
            item := Some((node.keys[idx / 2], node.values[idx / 2]));
            Yielded(below, node, idx, item.value);
            stack := below + [(node, idx + 1)];
            return;
          }
        } else {
          Spent(node, idx);
          stack := below;
        }
      }
      item := None;
      Emptied<V>();
    }
  }

  /** Draining an iterator yields exactly the contents of the tree, in order. */
  method Collect<V>(root: Node<V>) returns (items: seq<Item<V>>)
    requires WellFormed(root)
    ensures items == Flat(root)
  {
    hide Flat, Rest, WellFormed;
    var it := new BTreeIter(root);
    items := [];
    var more := true;
    while more
      invariant it.Valid() && fresh(it)
      invariant items + Rest(it.stack) == Flat(root)
      invariant !more ==> Rest(it.stack) == []
      decreases more, |Rest(it.stack)|
    {
      var item := it.Next();
      match item
      case None => more := false;
      case Some(x) => items := items + [x];
    }
  }
}
