# composite_mqtt broker core, modelled in Dafny

This project models two parts of the `composite_broker` crate of composite_mqtt, a small MQTT broker:

- `SubscriptionTree<T>` (`composite_broker/src/broker/tree.rs`). This is a trie over MQTT topic-filter levels, as described in section 4.7 of the OASIS MQTT Version 5.0 standard.
  - Every node holds four things:
    - a list of exact subscribers;
    - an optional `+` child;
    - a list of `#` subscribers;
    - a map from literal level to child.
  - `insert` stamps every entry with the tree's counter, which serves as the removal handle.
  - `remove` walks the filter and takes the entry with a given handle out of one list. It then prunes emptied nodes on the way back up.
  - `matching_subscribers` collects the entries of the node a topic leads to.
- `MBroker` (`composite_broker/src/broker.rs`). This holds the connected clients, a `SubscriptionTree<Subs>` and a list of filters kept for unsubscription. It answers CONNECT with a CONNACK and SUBSCRIBE with a SUBACK.

The project has five modules, one file each:

- `Wrappers`: `Option`.
- `Topics`: levels, filters and topic names.
- `Trie`: nodes as values, plus the operations as recursive functions and the lemmas about them.
- `Tree`: the source's loops as methods proved equal to those functions, and the `SubscriptionTree` class.
- `Broker`: packets and the `MBroker` class.

A node of the trie is owned by exactly one parent, through a `Box` or a `HashMap` value. A node is therefore a datatype value. The source's mutable cursor walk is a loop that keeps the parents it passed as a stack of `Frame`s and plugs the updated node back through them. For `remove`, this replaces the stack of raw parent pointers together with its pruning `while let` loop.

A subscription held by the trie is described by the predicate `Stores(n, Subscription(filter, handle, value))`. Most properties are stated in terms of it.

The tree's invariant `Wf` holds after every operation. It has two parts:

- no node below the root is empty;
- handles are unique and smaller than the counter.

The broker's invariant adds a third part: `unsubList[h]` is the filter under which the entry with handle `h` is filed.

Matching follows the code, not MQTT's full matching rules. In the code, the `+` branch and the `#`-on-the-path branch of `matching_subscribers` are commented out (`tree.rs` lines 208-227). As a result:

- a subscriber is found only when its filter spells out the topic literally, or spells it out and adds a final `#`;
- `a/+/c` does not match `a/b/c`;
- `#` does not match anything;
- `a/#` matches `a` but not `a/b`.

Section 4.7 of the MQTT Version 5.0 standard has `+` and `#` match across levels, and section 4.7.2 keeps wildcards from matching topics that start with `$`; the branch of `tree.rs` lines 208-227 that would do this is commented out, its own comment stating the `$` rule. The model does what the code does (`Trie.MatchingIsExact`, `Trie.MatchAfterInsert`).

## Model

| member | source | states |
|---|---|---|
| Topics.Stored | composite_broker/src/broker/tree.rs:71-84 | insert stops at the first `#`: the entry is filed under the levels before it followed by `#`, and any later levels are ignored; without `#` it is filed under the whole filter |
| Topics.StoredValid | composite_broker/src/broker/tree.rs:71-84 | a filter whose only `#` is last is filed under itself |
| Trie.Position | composite_broker/src/broker/tree.rs:151-159 | `iter().position`: the index found holds the handle and no earlier index does; None exactly when no entry carries it |
| Trie.StoresAfterInsert | composite_broker/src/broker/tree.rs:67-105 | after insert, the trie holds every subscription it held before plus exactly one new one (the stamped handle and value under `Stored(f)`), and nothing else |
| Trie.InsertPlacement | composite_broker/src/broker/tree.rs:81-104 | the entry is pushed at the end of the `#` list of the node reached by the levels before `#` when the filter has `#`, at the end of that node's subscribers otherwise; the other list is unchanged |
| Trie.InsertKeepsNodes | composite_broker/src/broker/tree.rs:73-95 | insert creates missing `+` and literal children but never replaces one: every node is still at its path afterwards, with its lists only extended and no child lost |
| Trie.InsertKeepsPruned | composite_broker/src/broker/tree.rs:73-104 | the trie is non-empty afterwards, and with `Pruned`, so is every node on the walked path |
| Trie.ListsAfterInsert | composite_broker/src/broker/tree.rs:67-105 | the lists at every path other than the walked one read the same after insert |
| Trie.RemoveOutcome | composite_broker/src/broker/tree.rs:114-165 | remove gives up before changing anything exactly when a `+` or literal level before `#` has no child; otherwise it returns the value of the first entry with the handle in the list the LAST level selects (`#` → multi-level list), or None if there is none |
| Trie.TakeOutMembers | composite_broker/src/broker/tree.rs:151-161 | `Vec::remove` at the found position takes out exactly the entry with that handle and keeps all the others |
| Trie.StoresAfterRemove | composite_broker/src/broker/tree.rs:146-195 | after a walk that reached its node, the trie holds every subscription it held except the one removed (that filter, that handle, the returned value), and nothing new |
| Trie.RemovePlacement | composite_broker/src/broker/tree.rs:146-195 | after a walk that reached its node, the list the last level selects at the levels before `#` has the entry `position` finds taken out, the rest in order, and the other list there is unchanged (a pruned node reads as two empty lists) |
| Trie.ListsAfterRemove | composite_broker/src/broker/tree.rs:167-193 | the lists at every `#`-free path other than the walked one read the same after remove |
| Trie.RemoveNotFound | composite_broker/src/broker/tree.rs:146-165 | on a pruned trie, a walk that finds no entry with the handle returns None and leaves the trie exactly as it was |
| Trie.RemoveKeepsShape | composite_broker/src/broker/tree.rs:167-193 | pruning on the way up leaves no empty node below the root; lists keep distinct handles |
| Trie.PrunedNodeAt | composite_broker/src/broker/tree.rs:60-65 | in a pruned trie, `is_empty` is false for every node reached by a non-empty path |
| Trie.RemoveInsertAt | composite_broker/src/broker/tree.rs:67-197 | on any path, removing by the stamped handle what insert just filed returns its value and restores the node exactly, given a pruned node and an unused handle |
| Trie.RemoveInsertRoundTrip | composite_broker/src/broker/tree.rs:67-197 | `remove(f, insert(f, v))` returns `Some(v)` and gives back the trie as it was, so a tree that was empty is empty again |
| Trie.InsertKeepsWf | composite_broker/src/broker/tree.rs:26-32 | insert with handle `counter` keeps the tree invariant (pruned, distinct and unique handles, all below the counter) for `counter + 1` |
| Trie.RemoveKeepsWf | composite_broker/src/broker/tree.rs:107-197 | remove keeps the tree invariant with the same counter |
| Trie.MatchAfterInsert | composite_broker/src/broker/tree.rs:199-249 | after `insert(f, v)`, matching topic `t` also yields `v` only if `f` spells out `t` (after the old subscribers) or `t` then `#` (at the end); every other filter, `+` or root `#` included, leaves the result unchanged |
| Trie.ValuesTakeOut | composite_broker/src/broker/tree.rs:151-161 | taking the found entry out of a list drops exactly its value from the list's values, keeping the order of the rest; nothing changes when no entry has the handle |
| Trie.MatchAfterRemove | composite_broker/src/broker/tree.rs:199-249 | after `remove(f, h)` reached its node, matching `t` loses the entry with `h` from the subscribers when `f` spells out `t`, from the `#` list when `f` is `t` then `#`; every other filter leaves the result unchanged |
| Trie.MatchingIsExact | composite_broker/src/broker/tree.rs:229-246 | `v` is matched for `t` exactly when `v` is subscribed under the literal filter of `t` or under it followed by `#` |
| Trie.EmptyIffNothingStored | composite_broker/src/broker/tree.rs:60-65 | an empty root holds no subscription; a non-empty root of a pruned trie holds one |
| Tree.NodeInsert | composite_broker/src/broker/tree.rs:67-105 | the cursor loop with its break at `#` computes `InsertAt` |
| Tree.NodeRemove | composite_broker/src/broker/tree.rs:107-197 | the descent with early `None`, the take-out and the pruning loop over the parent stack compute `Remove` |
| Tree.NodeMatchingSubscribers | composite_broker/src/broker/tree.rs:199-249 | the work-list loop over (node, level) computes `MatchAt` |
| Tree.SubscriptionTree.constructor | composite_broker/src/broker/tree.rs:22-24 | an empty root, counter 0, invariant established |
| Tree.SubscriptionTree.Insert | composite_broker/src/broker/tree.rs:26-32 | returns the old counter, increments it, files exactly the one new subscription, keeps the invariant |
| Tree.SubscriptionTree.MatchingSubscribers | composite_broker/src/broker/tree.rs:35-37 | returns `MatchAt` of the root |
| Tree.SubscriptionTree.Remove | composite_broker/src/broker/tree.rs:40-42 | a missing path returns None with the root untouched; otherwise root and result are those of `Remove`; counter unchanged, invariant kept |
| Tree.SubscriptionTree.IsEmpty | composite_broker/src/broker/tree.rs:44-47 | true means no subscription is held; false on a valid tree means one is |
| Tree.InsertRemoveFromNew | composite_broker/src/broker/tree.rs:22-47 | on a new tree, insert returns handle 0 and removing by it returns the value and leaves `is_empty` true |
| Broker.Decimal | composite_broker/src/broker.rs:91 | `to_string` of the packet id: non-empty, decimal digits only, no leading zero |
| Broker.ParseDecimalOfDecimal | composite_broker/src/broker.rs:91 | the rendered packet id reads back as the packet id |
| Broker.DecimalInjective | composite_broker/src/broker.rs:91 | distinct packet ids give distinct `Subs` client ids |
| Broker.StoresAfterInsertEach | composite_broker/src/broker.rs:90-97 | inserting the packet's filters in order adds, for the i-th filter, exactly one subscription with handle `first + i` and the packet's `Subs`, and keeps everything else |
| Broker.IndexedAfterInsert | composite_broker/src/broker.rs:90-97 | pushing the filter onto `unsub_list` together with its insert keeps `unsub_list[h]` the filter of handle `h` |
| Broker.MBroker.constructor | composite_broker/src/broker.rs:43-49 | no clients, empty `unsub_list`, an empty tree with counter 0 |
| Broker.MBroker.AcceptNewClient | composite_broker/src/broker.rs:51-83 | always Success with session present and the request's client id assigned; appends exactly that client; tree and `unsub_list` unchanged |
| Broker.MBroker.AcceptSub | composite_broker/src/broker.rs:87-110 | ack echoes the packet id with the single reason GrantedQoSZero; `unsub_list` grows by the filters in order; the counter grows by their number; the tree is `InsertEach` of them with the rendered packet id; clients unchanged |
| Broker.ConnectTwoClients | composite_broker/src/main.rs:131-179 | two connects in a row both succeed and both clients are recorded |
| Broker.SubscribeThreeFilters | composite_broker/src/main.rs:203-253 | SUBSCRIBEs 1, 2, 3 to `a`, `a/b`, `a/c` (the test's `gwu`, `gwu/ccas`, `gwu/seas`, for any levels with `b` ≠ `c`) are acknowledged with their ids; matching `a/b` then yields only packet 2's subscription |

## Left out

- Tree.SubscriptionTree.Insert: the counter is unbounded; the wrap-around of the `u64` counter after 2^64 inserts is not modelled.
- Tree.SubscriptionTree.MatchingSubscribers: returns the values themselves, not an iterator over references into the tree.
- Tree.SubscriptionTree.Remove and Trie.RemoveKeepsWf: assume what an `mqtt_v5` `TopicFilter` guarantees (at least one level, `#` only last). Parsing and validation of topic names and filters by the `mqtt_v5` crate are not part of this model. Filters and topics arrive as level sequences.
- The `$`-topic protection and the `+` and `#` matching that are commented out in `matching_subscribers` are not modelled, because they are not live code.
- `HashMap` iteration order is not modelled, because at most one path is followed.
- The unsafe raw pointers of `remove` are not modelled. Only their effect is: parents rebuilt, emptied children detached.
- `println!` of the returned handle in `accept_sub` is left out, because it is output only. So are the `Debug` derives.
- The packet fields the broker neither reads nor writes are left out: properties, QoS options, and user properties. Of the packets, only the fields the code touches are kept. `ConnectReason` and `SubscribeAckReason` list only the code that is sent.
- `composite_broker/src/msg_parser.rs`, `src/lib.rs`, the client crate and `main` are not part of this model. They are packet encoding and decoding through `mqtt_v5`, UDP socket I/O, timing and printing.
- Publish fan-out, unsubscribe handling, a topic-id registry and duplicate-connect rejection are not modelled. None of them exists in the broker code.
