/**
 * The loops of `SubscriptionTree` and `SubscriptionTreeNode` in
 * `composite_broker/src/broker/tree.rs`, each proved to compute the function
 * of module `Trie` that says what it does.
 *
 * The source moves a `&mut` cursor down the trie; `remove` also keeps a stack
 * of raw parent pointers to prune on the way back up.  Here the cursor is the
 * node value `current` and the stack holds `Frame`s (the parent as it was,
 * and which child was entered); plugging the final node back through the
 * frames yields the updated trie.
 */
module Tree {

  import opened Wrappers
  import opened Topics
  import opened Trie

  /** The outcome of a walk that stopped at `stack`, once the parents are rebuilt. */
  function Unwound<T>(stack: seq<Frame<T>>, x: Removal<T>): Removal<T>
  {
    match x
    case PathMissing => PathMissing
    case Walked(n, r) => Walked(Unwind(stack, n), r)
  }

  /** `SubscriptionTreeNode::insert`. */
  method NodeInsert<T>(root: Node<T>, levels: Filter, e: Entry<T>) returns (r: Node<T>)
    ensures r == InsertAt(root, levels, e)
  {
    var current := root;
    var stack: seq<Frame<T>> := [];
    var multiLevel := false;
    var i := 0;
    while i < |levels|
      invariant 0 <= i <= |levels|
      invariant InsertAt(root, levels, e) == Rebuild(stack, InsertAt(current, levels[i..], e))
    {
      assert levels[i..][0] == levels[i] && levels[i..][1..] == levels[i + 1..];
      match levels[i]
      case Single =>
        var child := if current.singleLevel.Some? then current.singleLevel.value else NewNode();
        assert (stack + [UnderSingle(current)])[..|stack|] == stack;
        stack := stack + [UnderSingle(current)];
        current := child;
        i := i + 1;
      case Multi =>
        multiLevel := true;
        break;
      case Concrete(k) =>
        var child := if k in current.concrete then current.concrete[k] else NewNode();
        assert (stack + [UnderConcrete(current, k)])[..|stack|] == stack;
        stack := stack + [UnderConcrete(current, k)];
        current := child;
        i := i + 1;
    }
    if multiLevel {
      current := current.(multiLevel := current.multiLevel + [e]);
    } else {
      current := current.(subscribers := current.subscribers + [e]);
    }
    r := Rebuild(stack, current);
  }

  /** `SubscriptionTreeNode::remove`: walk, take the entry out, prune on the way back. */
  method NodeRemove<T>(root: Node<T>, levels: Filter, h: nat) returns (r: Removal<T>)
    requires |levels| > 0
    ensures r == Remove(root, levels, h)
  {
    var fromMulti := levels[|levels| - 1].Multi?;
    var current := root;
    var stack: seq<Frame<T>> := [];
    var i := 0;
    while i < |levels|
      invariant 0 <= i <= |levels|
      invariant Remove(root, levels, h) == Unwound(stack, RemoveAt(current, levels[i..], h, fromMulti))
    {
      assert levels[i..][0] == levels[i] && levels[i..][1..] == levels[i + 1..];
      match levels[i]
      case Single =>
        if current.singleLevel.None? {
          return PathMissing;
        }
        assert (stack + [UnderSingle(current)])[..|stack|] == stack;
        stack := stack + [UnderSingle(current)];
        current := current.singleLevel.value;
        i := i + 1;
      case Multi =>
        break;
      case Concrete(k) =>
        if k !in current.concrete {
          return PathMissing;
        }
        assert (stack + [UnderConcrete(current, k)])[..|stack|] == stack;
        stack := stack + [UnderConcrete(current, k)];
        current := current.concrete[k];
        i := i + 1;
    }

    var removed: Option<T>;
    if fromMulti {
      var (rest, value) := TakeOut(current.multiLevel, h);
      current, removed := current.(multiLevel := rest), value;
    } else {
      var (rest, value) := TakeOut(current.subscribers, h);
      current, removed := current.(subscribers := rest), value;
    }

    // go up the stack, detaching every node that has become empty
    while |stack| > 0
      invariant Remove(root, levels, h) == Walked(Unwind(stack, current), removed)
    {
      current := Detach(stack[|stack| - 1], current);
      stack := stack[..|stack| - 1];
    }
    r := Walked(current, removed);
  }

  /** `SubscriptionTreeNode::matching_subscribers`, with its work list of (node, level index). */
  method NodeMatchingSubscribers<T>(root: Node<T>, t: Topic) returns (r: seq<T>)
    requires |t| > 0
    ensures r == MatchAt(root, t)
  {
    r := [];
    var treeStack: seq<(Node<T>, nat)> := [(root, 0)];
    while |treeStack| > 0
      invariant |treeStack| <= 1
      invariant |treeStack| == 1 ==>
        treeStack[0].1 < |t| && NodeAt(root, Exact(t[..treeStack[0].1])) == Some(treeStack[0].0) && r == []
      invariant |treeStack| == 0 ==> r == MatchAt(root, t)
      decreases if |treeStack| == 0 then 0 else |t| - treeStack[0].1 + 1
    {
      var (current, level) := treeStack[|treeStack| - 1];
      treeStack := treeStack[..|treeStack| - 1];
      var name := t[level];
      MatchStep(root, t, level, current);
      if name in current.concrete {
        var subTree := current.concrete[name];
        if level + 1 < |t| {
          treeStack := treeStack + [(subTree, level + 1)];
        } else {
          r := r + Values(subTree.subscribers);
          r := r + Values(subTree.multiLevel);
        }
      }
    }
  }

  /** One step of the matching walk, from the node reached by the first `level` names. */
  lemma MatchStep<T>(root: Node<T>, t: Topic, level: nat, current: Node<T>)
    requires level < |t| && NodeAt(root, Exact(t[..level])) == Some(current)
    ensures t[level] in current.concrete ==>
              NodeAt(root, Exact(t[..level + 1])) == Some(current.concrete[t[level]])
    ensures t[level] in current.concrete && level + 1 == |t| ==>
              MatchAt(root, t) == Values(current.concrete[t[level]].subscribers)
                                  + Values(current.concrete[t[level]].multiLevel)
    ensures t[level] !in current.concrete ==> MatchAt(root, t) == []
  {
    NodeAtAppend(root, Exact(t[..level]), [Concrete(t[level])]);
    assert Exact(t[..level + 1]) == Exact(t[..level]) + [Concrete(t[level])];
    if level + 1 == |t| {
      assert t[..level + 1] == t;
    }
    NodeAtAppend(root, Exact(t[..level + 1]), Exact(t[level + 1..]));
    assert t[..level + 1] + t[level + 1..] == t;
    ExactAppend(t[..level + 1], t[level + 1..]);
  }

  lemma {:induction false} ExactAppend(a: Topic, b: Topic)
    ensures Exact(a + b) == Exact(a) + Exact(b)
  {
  }

  /**
   * `SubscriptionTree`: the root of the trie and the counter that hands out a
   * fresh handle to every insertion.
   */
  class SubscriptionTree<T(!new)> {
    var root: Node<T>
    var counter: nat

    /** No empty node below the root; handles unique and below the counter. */
    ghost predicate Valid()
      reads this
    {
      Wf(root, counter)
    }

    /** `SubscriptionTree::new`: an empty trie, counting from 0. */
    constructor ()
      ensures Valid()
      ensures root.IsEmpty() && counter == 0
    {
      root := NewNode();
      counter := 0;
      NewNodeStoresNothingAll<T>();
    }

    /** `SubscriptionTree::insert`: files `value` under `f` and returns its handle. */
    method Insert(f: Filter, value: T) returns (handle: nat)
      requires Valid()
      modifies this
      ensures Valid()
      ensures handle == old(counter) && counter == old(counter) + 1
      ensures root == InsertAt(old(root), f, Entry(handle, value))
      ensures forall s :: Stores(root, s) <==>
                Stores(old(root), s) || s == Subscription(Stored(f), handle, value)
    {
      handle := counter;
      var e := Entry(handle, value);
      InsertKeepsWf(root, f, value, counter);
      forall s ensures Stores(InsertAt(root, f, e), s) <==>
                       Stores(root, s) || s == Subscription(Stored(f), handle, value) {
        StoresAfterInsert(root, f, e, s);
      }
      root := NodeInsert(root, f, e);
      counter := counter + 1;
    }

    /** `SubscriptionTree::matching_subscribers`. */
    method MatchingSubscribers(t: Topic) returns (r: seq<T>)
      requires |t| > 0
      ensures r == MatchAt(root, t)
    {
      r := NodeMatchingSubscribers(root, t);
    }

    /**
     * `SubscriptionTree::remove`: takes out the entry with `handle` under `f`,
     * or leaves the trie untouched when the walk finds no node for `f`.
     */
    method Remove(f: Filter, handle: nat) returns (r: Option<T>)
      requires Valid() && ValidFilter(f)
      modifies this
      ensures Valid() && counter == old(counter)
      ensures Trie.Remove(old(root), f, handle).PathMissing? ==> r.None? && root == old(root)
      ensures Trie.Remove(old(root), f, handle).Walked? ==>
                r == Trie.Remove(old(root), f, handle).removed &&
                root == Trie.Remove(old(root), f, handle).node
    {
      var outcome := NodeRemove(root, f, handle);
      match outcome
      case PathMissing =>
        r := None;
      case Walked(n, removed) =>
        RemoveKeepsWf(root, f, handle, counter);
        root, r := n, removed;
    }

    /** `SubscriptionTree::is_empty`: true exactly when no subscription is held. */
    function IsEmpty(): (b: bool)
      reads this
      ensures b ==> forall s :: !Stores(root, s)
      ensures Valid() && !b ==> exists s :: Stores(root, s)
    {
      EmptyIffNothingStored(root);
      root.IsEmpty()
    }
  }

  /**
   * On a fresh tree, removing what was just inserted, by the handle `insert`
   * returned, gives the value back and leaves the tree empty again.
   */
  method InsertRemoveFromNew<T(!new)>(f: Filter, value: T) returns (handle: nat, r: Option<T>, empty: bool)
    requires ValidFilter(f)
    ensures handle == 0 && r == Some(value) && empty
  {
    var tree := new SubscriptionTree<T>();
    handle := tree.Insert(f, value);
    RemoveInsertRoundTrip(NewNode<T>(), f, Entry(handle, value));
    r := tree.Remove(f, handle);
    empty := tree.IsEmpty();
  }
}
