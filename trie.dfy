/**
 * The subscription trie of `composite_broker/src/broker/tree.rs` as values.
 *
 * Every `SubscriptionTreeNode` is owned by exactly one parent (through a `Box`
 * or a `HashMap` value), so a node is modelled as an immutable value and an
 * update in place as building the updated value.  This module holds the node
 * type, the operations as recursive functions over the filter's levels, and
 * what is proved about them; module `Tree` holds the loops of the source,
 * proved equal to these functions.
 */
module Trie {

  import opened Wrappers
  import opened Topics

  /** A stored subscriber: the sequence number `insert` stamped it with, and its value. */
  datatype Entry<T> = Entry(handle: nat, value: T)

  /** One node of the trie. */
  datatype Node<T> = Node(
    subscribers: seq<Entry<T>>,            // filters that end at this node
    singleLevel: Option<Node<T>>,          // the `+` child
    multiLevel: seq<Entry<T>>,             // filters that end with `#` here
    concrete: map<string, Node<T>>)        // children by literal level
  {
    /** `SubscriptionTreeNode::is_empty`. */
    predicate IsEmpty()
    {
      |subscribers| == 0 && singleLevel.None? && |multiLevel| == 0 && |concrete| == 0
    }
  }

  /** `SubscriptionTreeNode::new`. */
  function NewNode<T>(): Node<T>
  {
    Node([], None, [], map[])
  }

  /** A subscription as the trie records it: the filter it is filed under, its handle, its value. */
  datatype Subscription<T> = Subscription(filter: Filter, handle: nat, value: T)

  /** `n` holds subscription `s`: following `s.filter` from `n` reaches a list holding `(handle, value)`. */
  ghost predicate Stores<T>(n: Node<T>, s: Subscription<T>)
    decreases |s.filter|
  {
    if |s.filter| == 0 then Entry(s.handle, s.value) in n.subscribers
    else match s.filter[0]
      case Multi => |s.filter| == 1 && Entry(s.handle, s.value) in n.multiLevel
      case Single =>
        n.singleLevel.Some? && Stores(n.singleLevel.value, s.(filter := s.filter[1..]))
      case Concrete(k) =>
        k in n.concrete && Stores(n.concrete[k], s.(filter := s.filter[1..]))
  }

  // ---------------------------------------------------------------------------
  // insert
  // ---------------------------------------------------------------------------

  /**
   * `SubscriptionTreeNode::insert`: walk `levels`, creating a missing `+` or
   * literal child on the way; at `#` stop and push onto that node's
   * multi-level list, otherwise push onto the last node's subscribers.
   */
  function InsertAt<T>(n: Node<T>, levels: Filter, e: Entry<T>): Node<T>
    decreases |levels|
  {
    if |levels| == 0 then n.(subscribers := n.subscribers + [e])
    else match levels[0]
      case Multi => n.(multiLevel := n.multiLevel + [e])
      case Single =>
        var child := if n.singleLevel.Some? then n.singleLevel.value else NewNode();
        n.(singleLevel := Some(InsertAt(child, levels[1..], e)))
      case Concrete(k) =>
        var child := if k in n.concrete then n.concrete[k] else NewNode();
        n.(concrete := n.concrete[k := InsertAt(child, levels[1..], e)])
  }

  // ---------------------------------------------------------------------------
  // remove
  // ---------------------------------------------------------------------------

  /** `iter().position(|(c, _)| *c == counter)`: the first index holding handle `h`. */
  function Position<T>(list: seq<Entry<T>>, h: nat): (r: Option<nat>)
    ensures r.Some? ==> r.value < |list| && list[r.value].handle == h
    ensures r.Some? ==> forall j :: 0 <= j < r.value ==> list[j].handle != h
    ensures r.None? ==> forall j :: 0 <= j < |list| ==> list[j].handle != h
  {
    if |list| == 0 then None
    else if list[0].handle == h then Some(0)
    else match Position(list[1..], h)
      case None => None
      case Some(i) => Some(i + 1)
  }

  /** Remove the first entry with handle `h` (`Vec::remove(pos)`) and give back its value. */
  function TakeOut<T>(list: seq<Entry<T>>, h: nat): (seq<Entry<T>>, Option<T>)
  {
    match Position(list, h)
    case None => (list, None)
    case Some(i) => (list[..i] + list[i + 1..], Some(list[i].value))
  }

  /** A parent on the path, remembered with the child the walk went into. */
  datatype Frame<T> = UnderSingle(parent: Node<T>) | UnderConcrete(parent: Node<T>, key: string)

  /** Put `child` back under its parent. */
  function Attach<T>(fr: Frame<T>, child: Node<T>): Node<T>
  {
    match fr
    case UnderSingle(p) => p.(singleLevel := Some(child))
    case UnderConcrete(p, k) => p.(concrete := p.concrete[k := child])
  }

  /** Put `child` back under its parent, or detach it when it has become empty. */
  function Detach<T>(fr: Frame<T>, child: Node<T>): Node<T>
  {
    match fr
    case UnderSingle(p) => p.(singleLevel := if child.IsEmpty() then None else Some(child))
    case UnderConcrete(p, k) =>
      p.(concrete := if child.IsEmpty() then p.concrete - {k} else p.concrete[k := child])
  }

  /** Plug `n` into the path `stack` (innermost frame last), rebuilding every parent. */
  function Rebuild<T>(stack: seq<Frame<T>>, n: Node<T>): Node<T>
    decreases |stack|
  {
    if |stack| == 0 then n
    else Rebuild(stack[..|stack| - 1], Attach(stack[|stack| - 1], n))
  }

  /** Like `Rebuild`, pruning every node that has become empty on the way up. */
  function Unwind<T>(stack: seq<Frame<T>>, n: Node<T>): Node<T>
    decreases |stack|
  {
    if |stack| == 0 then n
    else Unwind(stack[..|stack| - 1], Detach(stack[|stack| - 1], n))
  }

  /** What `remove` does: give up before changing anything, or walk and return the new node. */
  datatype Removal<T> = PathMissing | Walked(node: Node<T>, removed: Option<T>)

  /** The removal from the list of `n` that the filter's last level selects. */
  function TakeFrom<T>(n: Node<T>, h: nat, fromMulti: bool): Removal<T>
  {
    if fromMulti then
      var (rest, r) := TakeOut(n.multiLevel, h);
      Walked(n.(multiLevel := rest), r)
    else
      var (rest, r) := TakeOut(n.subscribers, h);
      Walked(n.(subscribers := rest), r)
  }

  /**
   * `SubscriptionTreeNode::remove` from `n` along `levels`; `fromMulti` says
   * whether the whole filter's last level is `#`.  A missing child gives up;
   * otherwise the entry is taken out at the end of the walk and each node on
   * the path that has become empty is detached on the way back.
   */
  function RemoveAt<T>(n: Node<T>, levels: Filter, h: nat, fromMulti: bool): Removal<T>
    decreases |levels|
  {
    if |levels| == 0 then TakeFrom(n, h, fromMulti)
    else match levels[0]
      case Multi => TakeFrom(n, h, fromMulti)
      case Single =>
        if n.singleLevel.None? then PathMissing
        else (match RemoveAt(n.singleLevel.value, levels[1..], h, fromMulti)
          case PathMissing => PathMissing
          case Walked(c, r) => Walked(Detach(UnderSingle(n), c), r))
      case Concrete(k) =>
        if k !in n.concrete then PathMissing
        else match RemoveAt(n.concrete[k], levels[1..], h, fromMulti)
          case PathMissing => PathMissing
          case Walked(c, r) => Walked(Detach(UnderConcrete(n, k), c), r)
  }

  /** `remove(topic_filter, counter)` from the root; the list is chosen by the last level. */
  function Remove<T>(root: Node<T>, f: Filter, h: nat): Removal<T>
    requires |f| > 0
  {
    RemoveAt(root, f, h, f[|f| - 1].Multi?)
  }

  // ---------------------------------------------------------------------------
  // matching_subscribers
  // ---------------------------------------------------------------------------

  /** The node reached from `n` by following `path` (`+` to the `+` child, literals to their child). */
  function NodeAt<T>(n: Node<T>, path: Filter): Option<Node<T>>
    decreases |path|
  {
    if |path| == 0 then Some(n)
    else match path[0]
      case Multi => None
      case Single =>
        if n.singleLevel.Some? then NodeAt(n.singleLevel.value, path[1..]) else None
      case Concrete(k) =>
        if k in n.concrete then NodeAt(n.concrete[k], path[1..]) else None
  }

  function Values<T>(list: seq<Entry<T>>): (vs: seq<T>)
    ensures |vs| == |list|
    ensures forall i :: 0 <= i < |list| ==> vs[i] == list[i].value
  {
    if |list| == 0 then [] else [list[0].value] + Values(list[1..])
  }

  /**
   * `matching_subscribers(topic)` as the code stands: the subscribers and then
   * the multi-level entries of the node reached by taking every topic level
   * as a literal child, nothing if there is no such node.
   */
  function MatchAt<T>(n: Node<T>, t: Topic): seq<T>
    requires |t| > 0
  {
    match NodeAt(n, Exact(t))
    case Some(m) => Values(m.subscribers) + Values(m.multiLevel)
    case None => []
  }

  // ---------------------------------------------------------------------------
  // What insert does
  // ---------------------------------------------------------------------------

  lemma NewNodeStoresNothing<T>(s: Subscription<T>)
    ensures !Stores(NewNode<T>(), s)
  {
  }

  /** The child `insert` descends into for a `+` or literal level (a new node when missing). */
  function ChildFor<T>(n: Node<T>, level: Level): Node<T>
    requires !level.Multi?
  {
    if level.Single? then (if n.singleLevel.Some? then n.singleLevel.value else NewNode())
    else if level.name in n.concrete then n.concrete[level.name] else NewNode()
  }

  /** One level of `StoresAfterInsert`: holding `s` at `n` is holding the rest of `s` at the child. */
  lemma StoresInsertStep<T>(n: Node<T>, f: Filter, e: Entry<T>, s: Subscription<T>)
    requires |f| > 0 && !f[0].Multi? && |s.filter| > 0 && s.filter[0] == f[0]
    ensures Stores(InsertAt(n, f, e), s) ==
            Stores(InsertAt(ChildFor(n, f[0]), f[1..], e), s.(filter := s.filter[1..]))
    ensures Stores(n, s) == Stores(ChildFor(n, f[0]), s.(filter := s.filter[1..]))
  {
    NewNodeStoresNothing(s.(filter := s.filter[1..]));
  }

  /** The cases of `StoresAfterInsert` where the walks of `insert` and of `s` part at once. */
  lemma StoresInsertOff<T>(n: Node<T>, f: Filter, e: Entry<T>, s: Subscription<T>)
    requires |f| == 0 || f[0].Multi? || |s.filter| == 0 || s.filter[0] != f[0]
    ensures Stores(InsertAt(n, f, e), s) <==>
            Stores(n, s) || s == Subscription(Stored(f), e.handle, e.value)
  {
    if |f| == 0 {
    } else if f[0].Multi? {
      assert Stored(f) == [Multi];
    } else if |s.filter| == 0 {
    } else {
      assert Stored(f)[0] == f[0];
    }
  }

  /** `insert` adds exactly one subscription, filed under `Stored(f)`, and keeps every other. */
  lemma {:induction false} StoresAfterInsert<T>(n: Node<T>, f: Filter, e: Entry<T>, s: Subscription<T>)
    ensures Stores(InsertAt(n, f, e), s) <==>
            Stores(n, s) || s == Subscription(Stored(f), e.handle, e.value)
    decreases |f|
  {
    if |f| == 0 || f[0].Multi? || |s.filter| == 0 || s.filter[0] != f[0] {
      StoresInsertOff(n, f, e, s);
      return;
    }
    var s' := s.(filter := s.filter[1..]);
    assert Stored(f) == [f[0]] + Stored(f[1..]);
    assert s.filter == [f[0]] + s'.filter;
    assert s == Subscription(Stored(f), e.handle, e.value) <==>
           s' == Subscription(Stored(f[1..]), e.handle, e.value);
    StoresInsertStep(n, f, e, s);
    StoresAfterInsert(ChildFor(n, f[0]), f[1..], e, s');
  }

  /** The node a walk ends at, or the node `insert` would create there. */
  function OrNew<T>(m: Option<Node<T>>): Node<T>
  {
    if m.Some? then m.value else NewNode()
  }

  lemma {:induction false} NewNodeAt<T>(p: Filter)
    ensures OrNew(NodeAt(NewNode<T>(), p)) == NewNode()
  {
  }

  /**
   * `insert` pushes the entry onto the END of one list of the node reached by
   * the levels before `#`: the multi-level list when the filter has a `#`,
   * the subscribers otherwise; the other list of that node is unchanged.
   */
  lemma {:induction false} InsertPlacement<T>(n: Node<T>, f: Filter, e: Entry<T>)
    ensures NodeAt(InsertAt(n, f, e), Descent(f)).Some?
    ensures var before := OrNew(NodeAt(n, Descent(f)));
            var after := NodeAt(InsertAt(n, f, e), Descent(f)).value;
            if |Descent(f)| < |f|
            then after.multiLevel == before.multiLevel + [e] && after.subscribers == before.subscribers
            else after.subscribers == before.subscribers + [e] && after.multiLevel == before.multiLevel
    decreases |f|
  {
    if |f| == 0 || f[0].Multi? {
      return;
    }
    var d := Descent(f[1..]);
    assert Descent(f) == [f[0]] + d;
    assert ([f[0]] + d)[1..] == d;
    match f[0]
    case Single =>
      var child := if n.singleLevel.Some? then n.singleLevel.value else NewNode();
      InsertPlacement(child, f[1..], e);
      NewNodeAt<T>(d);
      assert OrNew(NodeAt(n, Descent(f))) == OrNew(NodeAt(child, d));
    case Concrete(k) =>
      var child := if k in n.concrete then n.concrete[k] else NewNode();
      InsertPlacement(child, f[1..], e);
      NewNodeAt<T>(d);
      assert OrNew(NodeAt(n, Descent(f))) == OrNew(NodeAt(child, d));
  }

  /** `m2` is `m1` after inserts below it: both lists only grew at the end, no child went away. */
  ghost predicate Grown<T>(m1: Node<T>, m2: Node<T>)
  {
    && m1.subscribers <= m2.subscribers
    && m1.multiLevel <= m2.multiLevel
    && (m1.singleLevel.Some? ==> m2.singleLevel.Some?)
    && m1.concrete.Keys <= m2.concrete.Keys
  }

  /**
   * `insert` creates a missing child but never replaces an existing one:
   * every node of the trie is still there afterwards, at the same path, with
   * all its entries in place.
   */
  lemma {:induction false} InsertKeepsNodes<T>(n: Node<T>, f: Filter, e: Entry<T>, p: Filter)
    requires NodeAt(n, p).Some?
    ensures NodeAt(InsertAt(n, f, e), p).Some?
    ensures Grown(NodeAt(n, p).value, NodeAt(InsertAt(n, f, e), p).value)
    decreases |p|
  {
    var n' := InsertAt(n, f, e);
    if |p| == 0 {
      return;
    }
    match p[0]
    case Single =>
      if |f| > 0 && f[0].Single? {
        InsertKeepsNodes(n.singleLevel.value, f[1..], e, p[1..]);
      } else {
        assert n'.singleLevel == n.singleLevel;
      }
    case Concrete(k) =>
      if |f| > 0 && f[0] == Concrete(k) {
        InsertKeepsNodes(n.concrete[k], f[1..], e, p[1..]);
      } else {
        assert n'.concrete[k] == n.concrete[k];
      }
  }

  // ---------------------------------------------------------------------------
  // No empty node below the root
  // ---------------------------------------------------------------------------

  /** Every node below `n` holds something (`is_empty` is false for every child). */
  ghost predicate Pruned<T>(n: Node<T>)
  {
    && (n.singleLevel.Some? ==> !n.singleLevel.value.IsEmpty() && Pruned(n.singleLevel.value))
    && (forall k | k in n.concrete :: !n.concrete[k].IsEmpty() && Pruned(n.concrete[k]))
  }

  /** In path terms: in a pruned trie every node other than the root is non-empty. */
  lemma {:induction false} PrunedNodeAt<T>(n: Node<T>, p: Filter)
    requires Pruned(n) && |p| > 0 && NodeAt(n, p).Some?
    ensures !NodeAt(n, p).value.IsEmpty()
    decreases |p|
  {
    if |p| > 1 {
      match p[0]
      case Single => PrunedNodeAt(n.singleLevel.value, p[1..]);
      case Concrete(k) => PrunedNodeAt(n.concrete[k], p[1..]);
    }
  }

  /** `insert` keeps the trie pruned, and the node it inserts into is never empty afterwards. */
  lemma {:induction false} InsertKeepsPruned<T>(n: Node<T>, f: Filter, e: Entry<T>)
    requires Pruned(n)
    ensures Pruned(InsertAt(n, f, e)) && !InsertAt(n, f, e).IsEmpty()
    decreases |f|
  {
    if |f| == 0 || f[0].Multi? {
      return;
    }
    var n' := InsertAt(n, f, e);
    match f[0]
    case Single =>
      var child := if n.singleLevel.Some? then n.singleLevel.value else NewNode();
      InsertKeepsPruned(child, f[1..], e);
    case Concrete(k) =>
      var child := if k in n.concrete then n.concrete[k] else NewNode();
      InsertKeepsPruned(child, f[1..], e);
      forall j | j in n'.concrete
        ensures !n'.concrete[j].IsEmpty() && Pruned(n'.concrete[j])
      {
        if j != k {
          assert n'.concrete[j] == n.concrete[j];
        }
      }
  }

  // ---------------------------------------------------------------------------
  // What remove does
  // ---------------------------------------------------------------------------

  /** The list of `m` that `remove` searches: the multi-level list when the filter ends with `#`. */
  function ChosenList<T>(m: Node<T>, fromMulti: bool): seq<Entry<T>>
  {
    if fromMulti then m.multiLevel else m.subscribers
  }

  /** The value `remove` gives back when it searches `list` for handle `h`. */
  function FoundValue<T>(list: seq<Entry<T>>, h: nat): Option<T>
  {
    match Position(list, h)
    case Some(i) => Some(list[i].value)
    case None => None
  }

  /**
   * `remove` gives up (returns `None`, trie untouched) exactly when a level
   * before `#` has no child to go into; otherwise it returns the value of the
   * first entry with handle `h` in the list the last level selects, or `None`
   * when that list holds no such entry.
   */
  lemma {:induction false} RemoveOutcome<T>(n: Node<T>, levels: Filter, h: nat, fromMulti: bool)
    ensures NodeAt(n, Descent(levels)).None? ==> RemoveAt(n, levels, h, fromMulti).PathMissing?
    ensures NodeAt(n, Descent(levels)).Some? ==>
      && RemoveAt(n, levels, h, fromMulti).Walked?
      && RemoveAt(n, levels, h, fromMulti).removed
         == FoundValue(ChosenList(NodeAt(n, Descent(levels)).value, fromMulti), h)
    decreases |levels|
  {
    if |levels| == 0 || levels[0].Multi? {
      return;
    }
    var d := Descent(levels[1..]);
    assert Descent(levels) == [levels[0]] + d;
    assert ([levels[0]] + d)[1..] == d;
    match levels[0]
    case Single =>
      if n.singleLevel.Some? {
        RemoveOutcome(n.singleLevel.value, levels[1..], h, fromMulti);
      }
    case Concrete(k) =>
      if k in n.concrete {
        RemoveOutcome(n.concrete[k], levels[1..], h, fromMulti);
      }
  }

  /** No two entries of `list` carry the same handle. */
  ghost predicate DistinctHandles<T>(list: seq<Entry<T>>)
  {
    forall i, j :: 0 <= i < j < |list| ==> list[i].handle != list[j].handle
  }

  /** Every list of the trie has distinct handles. */
  ghost predicate ListsDistinct<T>(n: Node<T>)
  {
    && DistinctHandles(n.subscribers)
    && DistinctHandles(n.multiLevel)
    && (n.singleLevel.Some? ==> ListsDistinct(n.singleLevel.value))
    && (forall k | k in n.concrete :: ListsDistinct(n.concrete[k]))
  }

  /** `Vec::remove` keeps the order of the other entries, so their handles stay distinct. */
  lemma TakeOutDistinct<T>(list: seq<Entry<T>>, h: nat)
    requires DistinctHandles(list)
    ensures DistinctHandles(TakeOut(list, h).0)
  {
    match Position(list, h)
    case None =>
    case Some(i) =>
      var rest := list[..i] + list[i + 1..];
      assert forall j :: 0 <= j < |rest| ==> rest[j] == list[if j < i then j else j + 1];
  }

  /** Taking out the first entry with handle `h` from a list with distinct handles removes that one entry. */
  lemma TakeOutMembers<T>(list: seq<Entry<T>>, h: nat, x: Entry<T>)
    requires DistinctHandles(list)
    ensures x in TakeOut(list, h).0 <==>
            x in list && !(FoundValue(list, h).Some? && x == Entry(h, FoundValue(list, h).value))
  {
    match Position(list, h)
    case None =>
    case Some(i) =>
      var rest := list[..i] + list[i + 1..];
      assert forall j :: 0 <= j < |rest| ==> rest[j] == list[if j < i then j else j + 1];
      if x in list && x != list[i] {
        var j :| 0 <= j < |list| && list[j] == x;
        assert rest[if j < i then j else j - 1] == x;
      }
  }

  lemma EmptyStoresNothing<T>(n: Node<T>, s: Subscription<T>)
    requires n.IsEmpty()
    ensures !Stores(n, s)
  {
  }

  /** The base case of `StoresAfterRemove`: the list removal at the end of the walk. */
  lemma StoresAfterTakeFrom<T>(n: Node<T>, levels: Filter, h: nat, fromMulti: bool, s: Subscription<T>)
    requires levels == [] || levels == [Multi]
    requires fromMulti <==> levels == [Multi]
    requires DistinctHandles(n.subscribers) && DistinctHandles(n.multiLevel)
    ensures var r := TakeFrom(n, h, fromMulti);
            Stores(r.node, s) <==>
            Stores(n, s) && !(r.removed.Some? && s == Subscription(levels, h, r.removed.value))
  {
    TakeOutMembers(ChosenList(n, fromMulti), h, Entry(s.handle, s.value));
  }

  /**
   * Removal by handle affects exactly one subscription: after a walk that
   * reached its node, the trie holds every subscription it held before except
   * the one taken out (filed under the filter itself, with handle `h` and the
   * value returned), and nothing new.
   */
  lemma {:induction false} StoresAfterRemove<T>(n: Node<T>, levels: Filter, h: nat, fromMulti: bool,
                                                s: Subscription<T>)
    requires MultiOnlyLast(levels)
    requires fromMulti <==> |levels| > 0 && levels[|levels| - 1].Multi?
    requires ListsDistinct(n)
    requires RemoveAt(n, levels, h, fromMulti).Walked?
    ensures var r := RemoveAt(n, levels, h, fromMulti);
            Stores(r.node, s) <==>
            Stores(n, s) && !(r.removed.Some? && s == Subscription(levels, h, r.removed.value))
    decreases |levels|
  {
    if |levels| == 0 || levels[0].Multi? {
      assert |levels| == 0 || levels == [Multi];
      StoresAfterTakeFrom(n, levels, h, fromMulti, s);
      return;
    }
    var rest := levels[1..];
    assert MultiOnlyLast(rest);
    if |s.filter| == 0 || s.filter[0] != levels[0] {
      StoresRemoveOff(n, levels, h, fromMulti, s);
      return;
    }
    var s' := s.(filter := s.filter[1..]);
    StoresRemoveStep(n, levels, h, fromMulti, s);
    StoresAfterRemove(ChildFor(n, levels[0]), rest, h, fromMulti, s');
    assert s.filter == [levels[0]] + s'.filter;
    assert levels == [levels[0]] + rest;
  }

  /** The cases of `StoresAfterRemove` where `s` is not filed below the child the walk enters. */
  lemma StoresRemoveOff<T>(n: Node<T>, levels: Filter, h: nat, fromMulti: bool, s: Subscription<T>)
    requires |levels| > 0 && !levels[0].Multi?
    requires |s.filter| == 0 || s.filter[0] != levels[0]
    requires RemoveAt(n, levels, h, fromMulti).Walked?
    ensures Stores(RemoveAt(n, levels, h, fromMulti).node, s) <==> Stores(n, s)
  {
  }

  /**
   * One level of `StoresAfterRemove`: holding `s` at `n` before and after is
   * holding the rest of `s` at the child before and after.
   */
  lemma StoresRemoveStep<T>(n: Node<T>, levels: Filter, h: nat, fromMulti: bool, s: Subscription<T>)
    requires |levels| > 0 && !levels[0].Multi? && |s.filter| > 0 && s.filter[0] == levels[0]
    requires RemoveAt(n, levels, h, fromMulti).Walked?
    ensures var inner := RemoveAt(ChildFor(n, levels[0]), levels[1..], h, fromMulti);
            var r := RemoveAt(n, levels, h, fromMulti);
            && inner.Walked?
            && r.removed == inner.removed
            && Stores(n, s) == Stores(ChildFor(n, levels[0]), s.(filter := s.filter[1..]))
            && Stores(r.node, s) == Stores(inner.node, s.(filter := s.filter[1..]))
  {
    var s' := s.(filter := s.filter[1..]);
    var inner := RemoveAt(ChildFor(n, levels[0]), levels[1..], h, fromMulti);
    if inner.Walked? && inner.node.IsEmpty() {
      EmptyStoresNothing(inner.node, s');
    }
  }

  /**
   * After `remove`, no node on the walked path that became empty is left
   * hanging: a pruned trie stays pruned.  Lists keep distinct handles.
   */
  lemma {:induction false} RemoveKeepsShape<T>(n: Node<T>, levels: Filter, h: nat, fromMulti: bool)
    requires RemoveAt(n, levels, h, fromMulti).Walked?
    ensures Pruned(n) ==> Pruned(RemoveAt(n, levels, h, fromMulti).node)
    ensures ListsDistinct(n) ==> ListsDistinct(RemoveAt(n, levels, h, fromMulti).node)
    decreases |levels|
  {
    var n' := RemoveAt(n, levels, h, fromMulti).node;
    if |levels| == 0 || levels[0].Multi? {
      if ListsDistinct(n) {
        TakeOutDistinct(ChosenList(n, fromMulti), h);
      }
      return;
    }
    match levels[0]
    case Single =>
      RemoveKeepsShape(n.singleLevel.value, levels[1..], h, fromMulti);
    case Concrete(k) =>
      RemoveKeepsShape(n.concrete[k], levels[1..], h, fromMulti);
      var c := RemoveAt(n.concrete[k], levels[1..], h, fromMulti).node;
      forall j | j in n'.concrete
        ensures Pruned(n) ==> !n'.concrete[j].IsEmpty() && Pruned(n'.concrete[j])
        ensures ListsDistinct(n) ==> ListsDistinct(n'.concrete[j])
      {
        if j != k {
          assert n'.concrete[j] == n.concrete[j];
        }
      }
  }

  /** Below an empty node there is nothing: every path from it reads as a new node's lists. */
  lemma EmptyNodeAt<T>(c: Node<T>, p: Filter)
    requires c.IsEmpty()
    ensures OrNew(NodeAt(c, p)).subscribers == [] && OrNew(NodeAt(c, p)).multiLevel == []
  {
  }

  /**
   * `remove` changes one list of one node: at the end of the walk, the list
   * the last level selects loses the entry `Position` finds, the others
   * keeping their order (`Vec::remove`), and the other list is unchanged.  A
   * node pruned away reads as a new node, and then both its lists were emptied.
   */
  lemma {:induction false} RemovePlacement<T>(n: Node<T>, levels: Filter, h: nat, fromMulti: bool)
    requires RemoveAt(n, levels, h, fromMulti).Walked?
    ensures var before := OrNew(NodeAt(n, Descent(levels)));
            var after := OrNew(NodeAt(RemoveAt(n, levels, h, fromMulti).node, Descent(levels)));
            && ChosenList(after, fromMulti) == TakeOut(ChosenList(before, fromMulti), h).0
            && ChosenList(after, !fromMulti) == ChosenList(before, !fromMulti)
    decreases |levels|
  {
    if |levels| == 0 || levels[0].Multi? {
      return;
    }
    var d := Descent(levels[1..]);
    assert Descent(levels) == [levels[0]] + d;
    assert ([levels[0]] + d)[1..] == d;
    var child := ChildFor(n, levels[0]);
    var inner := RemoveAt(child, levels[1..], h, fromMulti);
    RemovePlacement(child, levels[1..], h, fromMulti);
    if inner.node.IsEmpty() {
      EmptyNodeAt(inner.node, d);
    }
  }

  /**
   * `remove` leaves the lists at every other path as they were: pruning only
   * detaches nodes that have become empty, and only on the walked path.
   */
  lemma {:induction false} ListsAfterRemove<T>(n: Node<T>, levels: Filter, h: nat, fromMulti: bool, p: Filter)
    requires RemoveAt(n, levels, h, fromMulti).Walked?
    requires NoMulti(p) && p != Descent(levels)
    ensures OrNew(NodeAt(RemoveAt(n, levels, h, fromMulti).node, p)).subscribers
            == OrNew(NodeAt(n, p)).subscribers
    ensures OrNew(NodeAt(RemoveAt(n, levels, h, fromMulti).node, p)).multiLevel
            == OrNew(NodeAt(n, p)).multiLevel
    decreases |p|
  {
    var n' := RemoveAt(n, levels, h, fromMulti).node;
    if |p| == 0 {
      return;
    }
    if |levels| == 0 || levels[0].Multi? || p[0] != levels[0] {
      // the walk of `remove` leaves `p` at its first level: that child is untouched
      if p[0].Single? {
        assert n'.singleLevel == n.singleLevel;
      } else {
        var k := p[0].name;
        assert (k in n'.concrete) == (k in n.concrete);
        if k in n.concrete {
          assert n'.concrete[k] == n.concrete[k];
        }
      }
      return;
    }
    assert Descent(levels) == [levels[0]] + Descent(levels[1..]);
    assert p == [p[0]] + p[1..];
    var child := ChildFor(n, levels[0]);
    var inner := RemoveAt(child, levels[1..], h, fromMulti);
    ListsAfterRemove(child, levels[1..], h, fromMulti, p[1..]);
    if inner.node.IsEmpty() {
      EmptyNodeAt(inner.node, p[1..]);
    }
  }

  /** When no entry carries the handle, `remove` on a pruned trie changes nothing. */
  lemma {:induction false} RemoveNotFound<T>(n: Node<T>, levels: Filter, h: nat, fromMulti: bool)
    requires Pruned(n) && RemoveAt(n, levels, h, fromMulti).Walked?
    requires RemoveAt(n, levels, h, fromMulti).removed.None?
    ensures RemoveAt(n, levels, h, fromMulti).node == n
    decreases |levels|
  {
    if |levels| == 0 || levels[0].Multi? {
      return;
    }
    var child := ChildFor(n, levels[0]);
    RemoveNotFound(child, levels[1..], h, fromMulti);
    if levels[0].Concrete? {
      assert n.concrete[levels[0].name := child] == n.concrete;
    }
  }

  // ---------------------------------------------------------------------------
  // Handles and the insert/remove round trip
  // ---------------------------------------------------------------------------

  /** No subscription held by `n` carries handle `h`. */
  ghost predicate Fresh<T(!new)>(n: Node<T>, h: nat)
  {
    forall s :: Stores(n, s) ==> s.handle != h
  }

  /** A handle fresh for a node is fresh for the child it files a subscription under. */
  lemma FreshChild<T(!new)>(n: Node<T>, level: Level, h: nat)
    requires Fresh(n, h) && !level.Multi?
    ensures level.Single? && n.singleLevel.Some? ==> Fresh(n.singleLevel.value, h)
    ensures level.Concrete? && level.name in n.concrete ==> Fresh(n.concrete[level.name], h)
  {
    if level.Single? && n.singleLevel.Some? {
      forall s | Stores(n.singleLevel.value, s) ensures s.handle != h {
        var up := s.(filter := [Single] + s.filter);
        assert up.filter[1..] == s.filter;
        assert Stores(n, up);
      }
    }
    if level.Concrete? && level.name in n.concrete {
      forall s | Stores(n.concrete[level.name], s) ensures s.handle != h {
        var up := s.(filter := [level] + s.filter);
        assert up.filter[1..] == s.filter;
        assert Stores(n, up);
      }
    }
  }

  /** `Position` finds an entry pushed with a fresh handle at the end of the list. */
  lemma {:induction false} PositionOfPushed<T>(list: seq<Entry<T>>, e: Entry<T>)
    requires forall j :: 0 <= j < |list| ==> list[j].handle != e.handle
    ensures Position(list + [e], e.handle) == Some(|list|)
    decreases |list|
  {
    if |list| > 0 {
      assert (list + [e])[1..] == list[1..] + [e];
      PositionOfPushed(list[1..], e);
    }
  }

  /** The base case of `RemoveInsertAt`: the push and the take-out at the end of the walk. */
  lemma TakeFromPushed<T(!new)>(n: Node<T>, levels: Filter, e: Entry<T>, fromMulti: bool)
    requires levels == [] || levels == [Multi]
    requires fromMulti <==> levels == [Multi]
    requires Fresh(n, e.handle)
    ensures TakeFrom(InsertAt(n, levels, e), e.handle, fromMulti) == Walked(n, Some(e.value))
  {
    var list := ChosenList(n, fromMulti);
    forall j | 0 <= j < |list| ensures list[j].handle != e.handle {
      assert Stores(n, Subscription(levels, list[j].handle, list[j].value));
    }
    PositionOfPushed(list, e);
    assert (list + [e])[..|list|] == list;
  }

  /** One level of the round trip: if it holds for the child the walk goes into, it holds for `n`. */
  lemma RemoveInsertStep<T>(n: Node<T>, levels: Filter, e: Entry<T>, fromMulti: bool)
    requires |levels| > 0 && !levels[0].Multi?
    requires levels[0].Single? && n.singleLevel.Some? ==> !n.singleLevel.value.IsEmpty()
    requires levels[0].Concrete? && levels[0].name in n.concrete ==> !n.concrete[levels[0].name].IsEmpty()
    requires var child := OrNew(if levels[0].Single? then n.singleLevel
                                else if levels[0].name in n.concrete then Some(n.concrete[levels[0].name])
                                else None);
             RemoveAt(InsertAt(child, levels[1..], e), levels[1..], e.handle, fromMulti)
             == Walked(child, Some(e.value))
    ensures RemoveAt(InsertAt(n, levels, e), levels, e.handle, fromMulti) == Walked(n, Some(e.value))
  {
    var n' := InsertAt(n, levels, e);
    match levels[0]
    case Single =>
      var child := OrNew(n.singleLevel);
      assert Detach(UnderSingle(n'), child) == n;
    case Concrete(k) =>
      var child := if k in n.concrete then n.concrete[k] else NewNode();
      if k in n.concrete {
        assert n'.concrete[k := child] == n.concrete;
      } else {
        assert n'.concrete - {k} == n.concrete;
      }
      assert Detach(UnderConcrete(n', k), child) == n;
  }

  /**
   * Round trip: removing, by the handle `insert` stamped, what `insert` just
   * filed returns its value and gives back the trie as it was, provided the
   * trie was pruned and the handle was not in use.
   */
  lemma {:induction false} RemoveInsertAt<T(!new)>(n: Node<T>, levels: Filter, e: Entry<T>, fromMulti: bool)
    requires MultiOnlyLast(levels)
    requires fromMulti <==> |levels| > 0 && levels[|levels| - 1].Multi?
    requires Pruned(n) && Fresh(n, e.handle)
    ensures RemoveAt(InsertAt(n, levels, e), levels, e.handle, fromMulti) == Walked(n, Some(e.value))
    decreases |levels|
  {
    if |levels| == 0 || levels[0].Multi? {
      assert |levels| == 0 || levels == [Multi];
      TakeFromPushed(n, levels, e, fromMulti);
      return;
    }
    var rest := levels[1..];
    assert MultiOnlyLast(rest);
    FreshChild(n, levels[0], e.handle);
    var child := OrNew(if levels[0].Single? then n.singleLevel
                       else if levels[0].name in n.concrete then Some(n.concrete[levels[0].name])
                       else None);
    NewNodeStoresNothingAll<T>();
    RemoveInsertAt(child, rest, e, fromMulti);
    RemoveInsertStep(n, levels, e, fromMulti);
  }

  lemma NewNodeStoresNothingAll<T(!new)>()
    ensures forall h :: Fresh(NewNode<T>(), h)
  {
  }

  /** `tree.remove(f, tree.insert(f, v))` on a whole trie, for a filter `mqtt_v5` accepts. */
  lemma RemoveInsertRoundTrip<T(!new)>(root: Node<T>, f: Filter, e: Entry<T>)
    requires ValidFilter(f)
    requires Pruned(root) && Fresh(root, e.handle)
    ensures Remove(InsertAt(root, f, e), f, e.handle) == Walked(root, Some(e.value))
    ensures root.IsEmpty() ==> Remove(InsertAt(root, f, e), f, e.handle).node.IsEmpty()
  {
    RemoveInsertAt(root, f, e, f[|f| - 1].Multi?);
  }

  // ---------------------------------------------------------------------------
  // The invariant a SubscriptionTree keeps
  // ---------------------------------------------------------------------------

  /** A handle identifies at most one subscription in the whole trie. */
  ghost predicate UniqueHandles<T(!new)>(n: Node<T>)
  {
    forall s1, s2 :: Stores(n, s1) && Stores(n, s2) && s1.handle == s2.handle ==> s1 == s2
  }

  /** Every handle in the trie was handed out before `counter`. */
  ghost predicate Below<T(!new)>(n: Node<T>, counter: nat)
  {
    forall s :: Stores(n, s) ==> s.handle < counter
  }

  /**
   * The trie of a `SubscriptionTree` whose counter is `counter`: no empty
   * node below the root, and handles that are unique and all smaller than the
   * counter.
   */
  ghost predicate Wf<T(!new)>(n: Node<T>, counter: nat)
  {
    Pruned(n) && ListsDistinct(n) && UniqueHandles(n) && Below(n, counter)
  }

  /** Pushing an entry with a handle not in use keeps every list's handles distinct. */
  lemma {:induction false} InsertKeepsDistinct<T(!new)>(n: Node<T>, f: Filter, e: Entry<T>)
    requires ListsDistinct(n) && Fresh(n, e.handle)
    ensures ListsDistinct(InsertAt(n, f, e))
    decreases |f|
  {
    var n' := InsertAt(n, f, e);
    if |f| == 0 || f[0].Multi? {
      var levels := if |f| == 0 then [] else [Multi];
      var list := if |f| == 0 then n.subscribers else n.multiLevel;
      forall j | 0 <= j < |list| ensures list[j].handle != e.handle {
        assert Stores(n, Subscription(levels, list[j].handle, list[j].value));
      }
      return;
    }
    FreshChild(n, f[0], e.handle);
    NewNodeStoresNothingAll<T>();
    match f[0]
    case Single =>
      InsertKeepsDistinct(OrNew(n.singleLevel), f[1..], e);
    case Concrete(k) =>
      var child := if k in n.concrete then n.concrete[k] else NewNode();
      InsertKeepsDistinct(child, f[1..], e);
      forall j | j in n'.concrete ensures ListsDistinct(n'.concrete[j]) {
        if j != k {
          assert n'.concrete[j] == n.concrete[j];
        }
      }
  }

  /** `insert` with handle `counter` keeps the invariant for the incremented counter. */
  lemma InsertKeepsWf<T(!new)>(n: Node<T>, f: Filter, v: T, counter: nat)
    requires Wf(n, counter)
    ensures Wf(InsertAt(n, f, Entry(counter, v)), counter + 1)
  {
    var e := Entry(counter, v);
    var n' := InsertAt(n, f, e);
    var x := Subscription(Stored(f), counter, v);
    assert Fresh(n, counter) by {
      forall s | Stores(n, s) ensures s.handle != counter {
        assert s.handle < counter;
      }
    }
    InsertKeepsPruned(n, f, e);
    InsertKeepsDistinct(n, f, e);
    forall s | Stores(n', s) ensures Stores(n, s) || s == x {
      StoresAfterInsert(n, f, e, s);
    }
    assert Below(n', counter + 1);
    forall s1, s2 | Stores(n', s1) && Stores(n', s2) && s1.handle == s2.handle
      ensures s1 == s2
    {
      if s1 != x && s2 != x {
        assert Stores(n, s1) && Stores(n, s2);
      }
    }
  }

  /** `remove` keeps the invariant; it never hands out a handle, so the counter stays. */
  lemma RemoveKeepsWf<T(!new)>(n: Node<T>, f: Filter, h: nat, counter: nat)
    requires ValidFilter(f) && Wf(n, counter)
    requires Remove(n, f, h).Walked?
    ensures Wf(Remove(n, f, h).node, counter)
  {
    var fromMulti := f[|f| - 1].Multi?;
    var n' := Remove(n, f, h).node;
    RemoveKeepsShape(n, f, h, fromMulti);
    forall s | Stores(n', s) ensures Stores(n, s) {
      StoresAfterRemove(n, f, h, fromMulti, s);
    }
  }

  // ---------------------------------------------------------------------------
  // What matching_subscribers finds
  // ---------------------------------------------------------------------------

  /** Walking `p + q` is walking `p`, then `q` from where `p` ended. */
  lemma {:induction false} NodeAtAppend<T>(n: Node<T>, p: Filter, q: Filter)
    ensures NodeAt(n, p + q) == match NodeAt(n, p) case Some(m) => NodeAt(m, q) case None => None
    decreases |p|
  {
    if |p| > 0 {
      assert (p + q)[0] == p[0] && (p + q)[1..] == p[1..] + q;
      match p[0]
      case Multi =>
      case Single =>
        if n.singleLevel.Some? {
          NodeAtAppend(n.singleLevel.value, p[1..], q);
        }
      case Concrete(k) =>
        if k in n.concrete {
          NodeAtAppend(n.concrete[k], p[1..], q);
        }
    } else {
      assert p + q == q;
    }
  }

  /**
   * `insert` changes the lists of exactly one node, the one its walk ends at:
   * at every other path (existing or not) the two lists read the same.
   */
  lemma {:induction false} ListsAfterInsert<T>(n: Node<T>, f: Filter, e: Entry<T>, p: Filter)
    requires NoMulti(p) && p != Descent(f)
    ensures OrNew(NodeAt(InsertAt(n, f, e), p)).subscribers == OrNew(NodeAt(n, p)).subscribers
    ensures OrNew(NodeAt(InsertAt(n, f, e), p)).multiLevel == OrNew(NodeAt(n, p)).multiLevel
    decreases |p|
  {
    var n' := InsertAt(n, f, e);
    if |p| == 0 {
      return;
    }
    if |f| == 0 || f[0].Multi? || p[0] != f[0] {
      // the walk of `insert` leaves `p` at its first level: that child is untouched
      if p[0].Single? {
        assert n'.singleLevel == n.singleLevel;
      } else {
        var k := p[0].name;
        assert (k in n'.concrete) == (k in n.concrete);
        if k in n.concrete {
          assert n'.concrete[k] == n.concrete[k];
        }
      }
      return;
    }
    assert Descent(f) == [f[0]] + Descent(f[1..]);
    assert p == [p[0]] + p[1..];
    var child := OrNew(if f[0].Single? then n.singleLevel
                       else if f[0].name in n.concrete then Some(n.concrete[f[0].name])
                       else None);
    ListsAfterInsert(child, f[1..], e, p[1..]);
    NewNodeAt<T>(p[1..]);
  }

  lemma ValuesPushed<T>(list: seq<Entry<T>>, e: Entry<T>)
    ensures Values(list + [e]) == Values(list) + [e.value]
  {
  }

  /** A valid filter without `#` is walked to its end; one ending with `#` up to that `#`. */
  lemma DescentValid(f: Filter)
    requires ValidFilter(f)
    ensures !f[|f| - 1].Multi? ==> Descent(f) == f
    ensures f[|f| - 1].Multi? ==> Descent(f) == f[..|f| - 1]
  {
    if f[|f| - 1].Multi? {
      assert |Descent(f)| == |f| - 1;
    }
  }

  /** Matching reads the two lists of the node at the topic's literal path, or nothing. */
  lemma MatchAtLists<T>(n: Node<T>, t: Topic)
    requires |t| > 0
    ensures MatchAt(n, t) == Values(OrNew(NodeAt(n, Exact(t))).subscribers)
                             + Values(OrNew(NodeAt(n, Exact(t))).multiLevel)
  {
  }

  /** The two cases of `MatchAfterInsert` where the walk of `insert` ends at the topic's node. */
  lemma MatchAfterInsertHere<T>(n: Node<T>, f: Filter, e: Entry<T>, p: Filter)
    requires ValidFilter(f) && p == Descent(f)
    ensures var before := OrNew(NodeAt(n, p));
            var after := OrNew(NodeAt(InsertAt(n, f, e), p));
            Values(after.subscribers) + Values(after.multiLevel) ==
              if f == p then Values(before.subscribers) + [e.value] + Values(before.multiLevel)
              else Values(before.subscribers) + Values(before.multiLevel) + [e.value]
    ensures f == p || f == p + [Multi]
  {
    var before := OrNew(NodeAt(n, p));
    DescentValid(f);
    InsertPlacement(n, f, e);
    var after := NodeAt(InsertAt(n, f, e), p).value;
    if f[|f| - 1].Multi? {
      assert f == p + [Multi] && f != p;
      assert after.multiLevel == before.multiLevel + [e] && after.subscribers == before.subscribers;
      ValuesPushed(before.multiLevel, e);
    } else {
      assert f == p;
      assert after.subscribers == before.subscribers + [e] && after.multiLevel == before.multiLevel;
      ValuesPushed(before.subscribers, e);
    }
  }

  /** A filter walked to somewhere other than `p` is neither `p` nor `p` followed by `#`. */
  lemma OtherDescent(f: Filter, p: Filter)
    requires ValidFilter(f) && NoMulti(p) && p != Descent(f)
    ensures f != p && f != p + [Multi]
  {
    DescentValid(f);
  }

  /**
   * What `matching_subscribers(t)` returns after `insert(f, v)`: the new value
   * shows up only when `f` is `t` itself, level for level (at the end of the
   * subscribers), or `t` followed by `#` (at the very end).  A filter with `+`
   * anywhere, `#` at the root, or a `#` below a proper prefix of `t` never
   * changes the answer: the code as it stands does no wildcard matching.
   */
  lemma MatchAfterInsert<T>(n: Node<T>, f: Filter, e: Entry<T>, t: Topic)
    requires ValidFilter(f) && |t| > 0
    ensures f == Exact(t) ==>
              MatchAt(InsertAt(n, f, e), t) ==
              Values(OrNew(NodeAt(n, Exact(t))).subscribers) + [e.value]
                + Values(OrNew(NodeAt(n, Exact(t))).multiLevel)
    ensures f == Exact(t) + [Multi] ==> MatchAt(InsertAt(n, f, e), t) == MatchAt(n, t) + [e.value]
    ensures f != Exact(t) && f != Exact(t) + [Multi] ==> MatchAt(InsertAt(n, f, e), t) == MatchAt(n, t)
  {
    var p := Exact(t);
    MatchAtLists(n, t);
    MatchAtLists(InsertAt(n, f, e), t);
    if p == Descent(f) {
      MatchAfterInsertHere(n, f, e, p);
    } else {
      assert NoMulti(p);
      ListsAfterInsert(n, f, e, p);
      OtherDescent(f, p);
    }
  }

  /** Taking an entry out drops its value from the list's values; the rest keep their order. */
  lemma ValuesTakeOut<T>(list: seq<Entry<T>>, h: nat)
    ensures Position(list, h).None? ==> Values(TakeOut(list, h).0) == Values(list)
    ensures Position(list, h).Some? ==>
              var i := Position(list, h).value;
              Values(TakeOut(list, h).0) == Values(list)[..i] + Values(list)[i + 1..]
  {
    match Position(list, h)
    case None =>
    case Some(i) =>
      var rest := list[..i] + list[i + 1..];
      var vs := Values(list)[..i] + Values(list)[i + 1..];
      assert |Values(rest)| == |vs|;
      forall j | 0 <= j < |rest| ensures Values(rest)[j] == vs[j] {
        assert rest[j] == list[if j < i then j else j + 1];
      }
  }

  /**
   * What `matching_subscribers(t)` returns after `remove(f, h)` walked to its
   * node: when `f` is `t` itself or `t` followed by `#`, the old answer with
   * the entry taken out of the subscribers or the `#` list respectively (see
   * `ValuesTakeOut` for its order); for every other filter, the old answer.
   */
  lemma MatchAfterRemove<T>(n: Node<T>, f: Filter, h: nat, t: Topic)
    requires ValidFilter(f) && |t| > 0 && Remove(n, f, h).Walked?
    ensures f == Exact(t) ==>
              MatchAt(Remove(n, f, h).node, t) ==
              Values(TakeOut(OrNew(NodeAt(n, Exact(t))).subscribers, h).0)
                + Values(OrNew(NodeAt(n, Exact(t))).multiLevel)
    ensures f == Exact(t) + [Multi] ==>
              MatchAt(Remove(n, f, h).node, t) ==
              Values(OrNew(NodeAt(n, Exact(t))).subscribers)
                + Values(TakeOut(OrNew(NodeAt(n, Exact(t))).multiLevel, h).0)
    ensures f != Exact(t) && f != Exact(t) + [Multi] ==> MatchAt(Remove(n, f, h).node, t) == MatchAt(n, t)
  {
    var p := Exact(t);
    var fromMulti := f[|f| - 1].Multi?;
    MatchAtLists(n, t);
    MatchAtLists(Remove(n, f, h).node, t);
    DescentValid(f);
    if p == Descent(f) {
      RemovePlacement(n, f, h, fromMulti);
      if fromMulti {
        assert f == p + [Multi] && f != p;
      } else {
        assert f == p && f != p + [Multi];
      }
    } else {
      assert NoMulti(p);
      ListsAfterRemove(n, f, h, fromMulti, p);
      OtherDescent(f, p);
    }
  }

  /** A subscription is held exactly when its entry sits in the right list of the node its filter leads to. */
  lemma {:induction false} StoresAt<T>(n: Node<T>, p: Filter, h: nat, v: T)
    requires NoMulti(p)
    ensures Stores(n, Subscription(p, h, v)) <==>
            NodeAt(n, p).Some? && Entry(h, v) in NodeAt(n, p).value.subscribers
    ensures Stores(n, Subscription(p + [Multi], h, v)) <==>
            NodeAt(n, p).Some? && Entry(h, v) in NodeAt(n, p).value.multiLevel
    decreases |p|
  {
    if |p| == 0 {
      assert p + [Multi] == [Multi];
      return;
    }
    assert (p + [Multi])[1..] == p[1..] + [Multi];
    match p[0]
    case Single =>
      if n.singleLevel.Some? {
        StoresAt(n.singleLevel.value, p[1..], h, v);
      }
    case Concrete(k) =>
      if k in n.concrete {
        StoresAt(n.concrete[k], p[1..], h, v);
      }
  }

  lemma ValuesHas<T>(list: seq<Entry<T>>, v: T)
    ensures v in Values(list) <==> exists h :: Entry(h, v) in list
  {
    if v in Values(list) {
      var i :| 0 <= i < |list| && Values(list)[i] == v;
      assert Entry(list[i].handle, v) == list[i];
    }
  }

  /**
   * `matching_subscribers(t)` yields `v` exactly when `v` is subscribed under
   * the filter spelling out `t` level for level, or under that filter followed
   * by `#`; no subscription with a `+`, and no `#` at a shorter prefix, counts.
   */
  lemma MatchingIsExact<T>(n: Node<T>, t: Topic, v: T)
    requires |t| > 0
    ensures v in MatchAt(n, t) <==>
            exists h :: Stores(n, Subscription(Exact(t), h, v))
                     || Stores(n, Subscription(Exact(t) + [Multi], h, v))
  {
    var p := Exact(t);
    assert NoMulti(p);
    forall h {
      StoresAt(n, p, h, v);
    }
    MatchAtLists(n, t);
    var m := OrNew(NodeAt(n, p));
    ValuesHas(m.subscribers, v);
    ValuesHas(m.multiLevel, v);
  }

  /** Some subscription held by a non-empty node of a pruned trie. */
  lemma {:induction false} SomeStored<T>(n: Node<T>) returns (s: Subscription<T>)
    requires Pruned(n) && !n.IsEmpty()
    ensures Stores(n, s)
    decreases n
  {
    if |n.subscribers| > 0 {
      s := Subscription([], n.subscribers[0].handle, n.subscribers[0].value);
    } else if |n.multiLevel| > 0 {
      s := Subscription([Multi], n.multiLevel[0].handle, n.multiLevel[0].value);
    } else if n.singleLevel.Some? {
      var below := SomeStored(n.singleLevel.value);
      s := below.(filter := [Single] + below.filter);
      assert s.filter[1..] == below.filter;
    } else {
      var k :| k in n.concrete;
      var below := SomeStored(n.concrete[k]);
      s := below.(filter := [Concrete(k)] + below.filter);
      assert s.filter[1..] == below.filter;
    }
  }

  /** In a pruned trie, `is_empty` on the root says exactly that no subscription is held. */
  lemma EmptyIffNothingStored<T>(n: Node<T>)
    ensures n.IsEmpty() ==> forall s :: !Stores(n, s)
    ensures Pruned(n) && !n.IsEmpty() ==> exists s :: Stores(n, s)
  {
    if n.IsEmpty() {
      forall s ensures !Stores(n, s) {
        EmptyStoresNothing(n, s);
      }
    } else if Pruned(n) {
      var s := SomeStored(n);
    }
  }
}
