/**
 * Topic names and topic filters, taken level by level (section 4.7 of the
 * OASIS MQTT Version 5.0 standard).  Splitting and validating the text form
 * is done by the `mqtt_v5` crate and is not part of this model: a filter
 * arrives here as its sequence of levels, a topic name as its sequence of
 * level strings.
 */
module Topics {

  /** One level of a topic filter: a literal, `+` (4.7.1.3) or `#` (4.7.1.2). */
  datatype Level = Concrete(name: string) | Single | Multi

  type Filter = seq<Level>

  /** A topic name never holds a wildcard, so its levels are plain strings. */
  type Topic = seq<string>

  /** A path without `#`. */
  predicate NoMulti(p: Filter)
  {
    forall i :: 0 <= i < |p| ==> !p[i].Multi?
  }

  /** `#` may only be the last level of a filter. */
  predicate MultiOnlyLast(f: Filter)
  {
    forall i :: 0 <= i < |f| - 1 ==> !f[i].Multi?
  }

  /** What an `mqtt_v5` `TopicFilter` guarantees: at least one level, `#` only last. */
  predicate ValidFilter(f: Filter)
  {
    |f| > 0 && MultiOnlyLast(f)
  }

  /** The levels the trie walks for `f`: those before its first `#`. */
  function Descent(f: Filter): (p: Filter)
    ensures |p| <= |f| && p == f[..|p|]
    ensures NoMulti(p)
    ensures |p| < |f| ==> f[|p|].Multi?
  {
    if |f| == 0 || f[0].Multi? then [] else [f[0]] + Descent(f[1..])
  }

  /** The filter under which `insert` files an entry: `f` cut just after its first `#`. */
  function Stored(f: Filter): (g: Filter)
    ensures g == if |Descent(f)| < |f| then Descent(f) + [Multi] else f
  {
    if |f| == 0 then []
    else if f[0].Multi? then [Multi]
    else [f[0]] + Stored(f[1..])
  }

  /** A valid filter is filed under itself. */
  lemma StoredValid(f: Filter)
    requires ValidFilter(f)
    ensures Stored(f) == f
  {
    if |Descent(f)| < |f| {
      assert |Descent(f)| == |f| - 1;
    }
  }

  /** The filter made of the topic's levels taken literally. */
  function Exact(t: Topic): (f: Filter)
    ensures |f| == |t|
    ensures forall i :: 0 <= i < |t| ==> f[i] == Concrete(t[i])
  {
    if |t| == 0 then [] else [Concrete(t[0])] + Exact(t[1..])
  }
}
