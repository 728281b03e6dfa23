/**
 * `MBroker` of `composite_broker/src/broker.rs`: the list of connected
 * clients, the subscription trie whose values name the subscribing packet,
 * and the list of filters kept for later unsubscription.
 */
module Broker {

  import opened Wrappers
  import opened Topics
  import opened Trie
  import opened Tree

  newtype u16 = x: int | 0 <= x < 0x1_0000

  /** A client record, and the value stored in the subscription trie. */
  datatype Subs = Subs(clientId: string)

  // ---------------------------------------------------------------------------
  // The packet fields the broker reads or writes (MQTT Version 5.0)
  // ---------------------------------------------------------------------------

  datatype ConnectPacket = ConnectPacket(clientId: string)

  /** The only CONNACK reason code this broker sends (section 3.2.2.2 of MQTT Version 5.0). */
  datatype ConnectReason = Success

  datatype ConnectAck = ConnectAck(
    sessionPresent: bool,
    reasonCode: ConnectReason,
    assignedClientIdentifier: Option<string>)

  datatype SubscriptionTopic = SubscriptionTopic(topicFilter: Filter)

  datatype SubscribePacket = SubscribePacket(packetId: u16, subscriptionTopics: seq<SubscriptionTopic>)

  /** The only SUBACK reason code this broker sends (section 3.9.3 of MQTT Version 5.0). */
  datatype SubscribeAckReason = GrantedQoSZero

  datatype SubscribeAck = SubscribeAck(packetId: u16, reasonCodes: seq<SubscribeAckReason>)

  /** The filters of a SUBSCRIBE packet, in request order. */
  function TopicFilters(topics: seq<SubscriptionTopic>): seq<Filter>
  {
    seq(|topics|, i requires 0 <= i < |topics| => topics[i].topicFilter)
  }

  // ---------------------------------------------------------------------------
  // Rendering a packet id as a string (`to_string` on an integer)
  // ---------------------------------------------------------------------------

  function Digit(d: nat): (c: char)
    requires d < 10
    ensures '0' <= c <= '9'
  {
    "0123456789"[d]
  }

  /** The decimal rendering of `n`, most significant digit first, no leading zero. */
  function Decimal(n: nat): (s: string)
    ensures 0 < |s|
    ensures forall i :: 0 <= i < |s| ==> '0' <= s[i] <= '9'
    ensures 1 < |s| ==> s[0] != '0'
  {
    if n < 10 then [Digit(n)] else Decimal(n / 10) + [Digit(n % 10)]
  }

  /** Reads back a string of decimal digits. */
  function ParseDecimal(s: string): nat
    requires forall i :: 0 <= i < |s| ==> '0' <= s[i] <= '9'
  {
    if |s| == 0 then 0 else ParseDecimal(s[..|s| - 1]) * 10 + (s[|s| - 1] - '0') as nat
  }

  lemma {:induction false} ParseDecimalOfDecimal(n: nat)
    ensures ParseDecimal(Decimal(n)) == n
  {
    if 10 <= n {
      var s := Decimal(n);
      assert s[..|s| - 1] == Decimal(n / 10);
      ParseDecimalOfDecimal(n / 10);
    }
  }

  /** Distinct packet ids give distinct client ids in the stored `Subs`. */
  lemma DecimalInjective(m: nat, n: nat)
    ensures Decimal(m) == Decimal(n) ==> m == n
  {
    ParseDecimalOfDecimal(m);
    ParseDecimalOfDecimal(n);
  }

  // ---------------------------------------------------------------------------
  // What `accept_sub` does to the trie
  // ---------------------------------------------------------------------------

  /** Inserting `filters` one by one, in order, with handles `first`, `first + 1`, ... */
  function InsertEach<T>(n: Node<T>, filters: seq<Filter>, first: nat, v: T): Node<T>
    decreases |filters|
  {
    if |filters| == 0 then n
    else InsertAt(InsertEach(n, filters[..|filters| - 1], first, v),
                  filters[|filters| - 1], Entry(first + |filters| - 1, v))
  }

  /** `s` is the subscription `InsertEach` files for one of `filters`: the i-th gets handle `first + i`. */
  ghost predicate FiledBy<T>(filters: seq<Filter>, first: nat, v: T, s: Subscription<T>)
  {
    first <= s.handle < first + |filters| && s.value == v && s.filter == Stored(filters[s.handle - first])
  }

  lemma FiledByLast<T>(filters: seq<Filter>, first: nat, v: T, s: Subscription<T>)
    requires |filters| > 0
    ensures FiledBy(filters, first, v, s) <==>
            FiledBy(filters[..|filters| - 1], first, v, s) ||
            s == Subscription(Stored(filters[|filters| - 1]), first + |filters| - 1, v)
  {
    var k := |filters| - 1;
    var last := Subscription(Stored(filters[k]), first + k, v);
    if first <= s.handle < first + k {
      assert filters[..k][s.handle - first] == filters[s.handle - first];
      assert s != last;
    } else if s.handle == first + k {
      assert !FiledBy(filters[..k], first, v, s);
      assert FiledBy(filters, first, v, s) <==> s == last;
    } else {
      assert !FiledBy(filters, first, v, s) && !FiledBy(filters[..k], first, v, s) && s != last;
    }
  }

  /** After `InsertEach` the trie holds what it held plus one subscription per filter. */
  lemma {:induction false} StoresAfterInsertEach<T>(n: Node<T>, filters: seq<Filter>, first: nat, v: T,
                                                    s: Subscription<T>)
    ensures Stores(InsertEach(n, filters, first, v), s) <==> Stores(n, s) || FiledBy(filters, first, v, s)
    decreases |filters|
  {
    if |filters| > 0 {
      var k := |filters| - 1;
      var before := InsertEach(n, filters[..k], first, v);
      assert InsertEach(n, filters, first, v) == InsertAt(before, filters[k], Entry(first + k, v));
      StoresAfterInsertEach(n, filters[..k], first, v, s);
      StoresAfterInsert(before, filters[k], Entry(first + k, v), s);
      FiledByLast(filters, first, v, s);
    }
  }

  /**
   * The unsubscription list indexed by handle: the entry with handle `h` is
   * filed under the `h`-th filter of `unsubList`, and every handle below the
   * length of the list is held.
   */
  ghost predicate Indexed(root: Node<Subs>, unsubList: seq<Filter>)
  {
    (forall s :: Stores(root, s) ==> s.handle < |unsubList| && s.filter == Stored(unsubList[s.handle])) &&
    (forall h: nat :: h < |unsubList| ==> HoldsHandle(root, Stored(unsubList[h]), h))
  }

  /** Some subscription with handle `h` is filed under `f`. */
  ghost predicate HoldsHandle(root: Node<Subs>, f: Filter, h: nat)
  {
    exists v :: Stores(root, Subscription(f, h, v))
  }

  lemma IndexedAfterInsert(root: Node<Subs>, unsubList: seq<Filter>, f: Filter, v: Subs)
    requires Indexed(root, unsubList)
    ensures Indexed(InsertAt(root, f, Entry(|unsubList|, v)), unsubList + [f])
  {
    var e := Entry(|unsubList|, v);
    var root' := InsertAt(root, f, e);
    var list' := unsubList + [f];
    forall s | Stores(root', s) ensures s.handle < |list'| && s.filter == Stored(list'[s.handle]) {
      StoresAfterInsert(root, f, e, s);
    }
    forall h: nat | h < |list'| ensures HoldsHandle(root', Stored(list'[h]), h) {
      if h < |unsubList| {
        assert list'[h] == unsubList[h];
        assert HoldsHandle(root, Stored(unsubList[h]), h);
        var x :| Stores(root, Subscription(Stored(unsubList[h]), h, x));
        StoresAfterInsert(root, f, e, Subscription(Stored(unsubList[h]), h, x));
      } else {
        StoresAfterInsert(root, f, e, Subscription(Stored(f), h, v));
        assert Stores(root', Subscription(Stored(list'[h]), h, v));
      }
    }
  }

  class MBroker {
    var clients: seq<Subs>
    const subscriptions: SubscriptionTree<Subs>
    var unsubList: seq<Filter>

    /** The trie is valid, and `unsubList` holds the filter of every handle issued so far. */
    ghost predicate Valid()
      reads this, subscriptions
    {
      subscriptions.Valid() &&
      |unsubList| == subscriptions.counter &&
      Indexed(subscriptions.root, unsubList)
    }

    /** `MBroker::new`. */
    constructor ()
      ensures Valid() && fresh(subscriptions)
      ensures clients == [] && unsubList == []
      ensures subscriptions.root.IsEmpty() && subscriptions.counter == 0
    {
      clients := [];
      unsubList := [];
      subscriptions := new SubscriptionTree();
      new;
      NewNodeStoresNothingAll<Subs>();
    }

    /** `MBroker::accept_new_client`: always accepted, the client appended. */
    method AcceptNewClient(packet: ConnectPacket) returns (ack: ConnectAck)
      requires Valid()
      modifies this
      ensures Valid()
      ensures ack == ConnectAck(true, Success, Some(packet.clientId))
      ensures clients == old(clients) + [Subs(packet.clientId)]
      ensures unsubList == old(unsubList) && unchanged(subscriptions)
    {
      ack := ConnectAck(true, Success, Some(packet.clientId));
      clients := clients + [Subs(packet.clientId)];
    }

    /**
     * `MBroker::accept_sub`: every filter of the packet goes into the trie,
     * with the packet id as its value, and onto `unsubList`; the ack echoes
     * the packet id with a single reason code.
     */
    method AcceptSub(packet: SubscribePacket) returns (ack: SubscribeAck)
      requires Valid()
      modifies this, subscriptions
      ensures Valid()
      ensures ack == SubscribeAck(packet.packetId, [GrantedQoSZero])
      ensures clients == old(clients)
      ensures unsubList == old(unsubList) + TopicFilters(packet.subscriptionTopics)
      ensures subscriptions.counter == old(subscriptions.counter) + |packet.subscriptionTopics|
      ensures subscriptions.root ==
                InsertEach(old(subscriptions.root), TopicFilters(packet.subscriptionTopics),
                           old(subscriptions.counter), Subs(Decimal(packet.packetId as nat)))
    {
      var topics := packet.subscriptionTopics;
      var value := Subs(Decimal(packet.packetId as nat));
      ghost var filters := TopicFilters(topics);
      assert |filters| == |topics|;
      for i := 0 to |topics|
        invariant Valid()
        invariant clients == old(clients)
        invariant unsubList == old(unsubList) + filters[..i]
        invariant subscriptions.counter == old(subscriptions.counter) + i
        invariant subscriptions.root == InsertEach(old(subscriptions.root), filters[..i], old(subscriptions.counter), value)
      {
        var subscription := value;
        IndexedAfterInsert(subscriptions.root, unsubList, topics[i].topicFilter, subscription);
        unsubList := unsubList + [topics[i].topicFilter];
        var handle := subscriptions.Insert(topics[i].topicFilter, subscription);
        assert filters[..i + 1] == filters[..i] + [topics[i].topicFilter];
        assert filters[..i + 1][..i] == filters[..i];
      }
      assert filters[..|topics|] == filters;
      ack := SubscribeAck(packet.packetId, [GrantedQoSZero]);
    }
  }

  // ---------------------------------------------------------------------------
  // Scenarios of the broker's unit tests
  // ---------------------------------------------------------------------------

  /** Two clients connect one after the other; both are accepted and recorded. */
  method ConnectTwoClients() returns (r1: ConnectAck, r2: ConnectAck, clients: seq<Subs>)
    ensures r1 == ConnectAck(true, Success, Some("1004"))
    ensures r2 == ConnectAck(true, Success, Some("1005"))
    ensures clients == [Subs("1004"), Subs("1005")]
  {
    var broker := new MBroker();
    r1 := broker.AcceptNewClient(ConnectPacket("1004"));
    r2 := broker.AcceptNewClient(ConnectPacket("1005"));
    clients := broker.clients;
  }

  /** A SUBSCRIBE with a single filter makes a single insert. */
  lemma InsertEachOne<T>(n: Node<T>, f: Filter, first: nat, v: T)
    ensures InsertEach(n, TopicFilters([SubscriptionTopic(f)]), first, v) == InsertAt(n, f, Entry(first, v))
  {
    assert TopicFilters([SubscriptionTopic(f)]) == [f];
  }

  /** Matching `a/b` after filing `a`, `a/b` and `a/c` in an empty trie. */
  lemma ThreeFiltersMatch<T>(root: Node<T>, a: string, b: string, c: string, v1: T, v2: T, v3: T)
    requires root.IsEmpty() && b != c
    ensures MatchAt(InsertAt(InsertAt(InsertAt(root, [Concrete(a)], Entry(0, v1)),
                                      [Concrete(a), Concrete(b)], Entry(1, v2)),
                             [Concrete(a), Concrete(c)], Entry(2, v3)),
                    [a, b]) == [v2]
  {
    var t: Topic := [a, b];
    var root1 := InsertAt(root, [Concrete(a)], Entry(0, v1));
    var root2 := InsertAt(root1, [Concrete(a), Concrete(b)], Entry(1, v2));
    assert Exact(t) == [Concrete(a), Concrete(b)];
    MatchAfterInsert(root, [Concrete(a)], Entry(0, v1), t);
    MatchAfterInsert(root1, [Concrete(a), Concrete(b)], Entry(1, v2), t);
    MatchAfterInsert(root2, [Concrete(a), Concrete(c)], Entry(2, v3), t);
  }

  /**
   * Subscriptions to `a`, `a/b` and `a/c` by packets 1, 2 and 3 (the tests use
   * `gwu`, `gwu/ccas` and `gwu/seas`): each ack echoes its packet id, and
   * publishing to `a/b` would reach exactly the subscription made by packet 2.
   */
  method SubscribeThreeFilters(a: string, b: string, c: string) returns (acks: seq<SubscribeAck>, matched: seq<Subs>)
    requires b != c
    ensures |acks| == 3
    ensures forall i :: 0 <= i < 3 ==> acks[i].packetId as int == i + 1
    ensures matched == [Subs("2")]
  {
    var f1, f2, f3 := [Concrete(a)], [Concrete(a), Concrete(b)], [Concrete(a), Concrete(c)];
    var v1, v2, v3 := Subs(Decimal(1)), Subs(Decimal(2)), Subs(Decimal(3));
    var broker := new MBroker();
    var root0 := broker.subscriptions.root;
    InsertEachOne(root0, f1, 0, v1);
    var a1 := broker.AcceptSub(SubscribePacket(1, [SubscriptionTopic(f1)]));
    var root1 := broker.subscriptions.root;
    InsertEachOne(root1, f2, 1, v2);
    var a2 := broker.AcceptSub(SubscribePacket(2, [SubscriptionTopic(f2)]));
    var root2 := broker.subscriptions.root;
    InsertEachOne(root2, f3, 2, v3);
    var a3 := broker.AcceptSub(SubscribePacket(3, [SubscriptionTopic(f3)]));
    acks := [a1, a2, a3];
    ThreeFiltersMatch(root0, a, b, c, v1, v2, v3);
    assert Decimal(2) == "2";
    matched := broker.subscriptions.MatchingSubscribers([a, b]);
  }
}
