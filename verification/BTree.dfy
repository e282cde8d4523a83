/** The B-tree object: root and length. */
module BTree {
  import opened Common
  import opened SortedItems
  import opened BTreeNode
  import opened BTreeInsert
  import opened BTreeRemove
  import opened BTreeMap
  import opened BTreeEdges

  class BTree<V> {
    var root: Node<V>
    var len: nat
    ghost var height: nat

    ghost predicate Valid()
      reads this
    {
      Reach(root, height) && len == |Flat(root)|
    }

    ghost function View(): map<int, V>
      reads this
    {
      Contents(Flat(root))
    }

    /** The two situations in which `remove` panics. */
    ghost predicate Panics(k: int)
      reads this
    {
      Starved(root) || Stranded(root, k)
    }

    constructor ()
      ensures Valid() && View() == map[] && Textbook(root, height) && root == NewLeaf()
    {
      root, len, height := NewLeaf(), 0, 0;
    }

    /** Map update for every key except the median of a full node below the root, which it stores twice. */
    method Insert(k: int, v: V) returns (was: Option<V>)
      requires Valid()
      modifies this
      ensures !Collides(old(root), k) ==>
        && Valid() && View() == old(View())[k := v]
        && was == (if k in old(View()) then Some(old(View())[k]) else None)
        && len == old(len) + if was == None then 1 else 0
      ensures Collides(old(root), k) ==>
        && was == None && k in old(View()) && len == old(len) + 1
        && Duplicated(old(Flat(root)), Flat(root), k, v)
      ensures Ordered(old(root), old(height)) && root == BTreeMap.Insert(old(root), k, v, old(height), 0).0
      ensures height == GrownHeight(old(root), old(height))
    {
      hide Flat, Lookup, Lower, Upper, Collides, Inv, BTreeMap.Insert, Sorted, EdgeSize;
      ghost var s, h := Flat(root), height;
      InsertAtRoot(root, k, v, h, 0);
      LookupKeys(s);
      FilterSorted(s, k);
      if !Collides(root, k) {
        InsertReach(root, k, v, h);
        PutIsUpdate(s, k, v);
      }
      height := GrownHeight(root, h);
      var (r, w) := BTreeMap.Insert(root, k, v, h, 0);
      root, was := r, w;
      if was == None { len := len + 1; }
    }

    /** Map removal, unless it panics, which it does in exactly two situations. */
    method Remove(k: int) returns (panicked: bool, was: Option<V>)
      requires Valid()
      modifies this
      ensures panicked <==> old(Panics(k))
      ensures !panicked ==>
        && Valid() && View() == old(View()) - {k}
        && was == (if k in old(View()) then Some(old(View())[k]) else None)
        && len == old(len) - (if was.Some? then 1 else 0)
        && (was.Some? ==> Rooted(root))
      ensures Ordered(old(root), old(height))
      ensures !panicked ==>
        BTreeMap.Remove(old(root), k, old(height)) == Removed(root, was) && height == LeftHeight(root, old(height))
    {
      hide Flat, Inv, Sorted, Stranded, BTreeMap.Remove, EdgeSize, LeftHeight, Rooted;
      RemoveIsRemovalIff(root, k, height);
      RemoveReach(root, k, height);
      RemoveRooted(root, k, height);
      match BTreeMap.Remove(root, k, height)
      case Panic =>
        panicked, was := true, None;
      case Removed(r, w) =>
        height := LeftHeight(r, height);
        root, panicked, was := r, false, w;
        if was.Some? { len := len - 1; }
    }

    method First() returns (r: Option<Item<V>>)
      requires Valid()
      ensures r == if Flat(root) == [] then None else Some(Flat(root)[0])
    {
      EndsAreFound(root, height);
      r := if len == 0 then None else FirstInNode(root);
    }

    method Last() returns (r: Option<Item<V>>)
      requires Valid()
      ensures r == if Flat(root) == [] then None else Some(Flat(root)[|Flat(root)| - 1])
    {
      EndsAreFound(root, height);
      r := if len == 0 then None else LastInNode(root);
    }
  }
}
