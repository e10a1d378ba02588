/**
 * The link store (`_links`, `add_link`, `pop_links`): for each triggering
 * message, the threads created because of it, in creation order. The store is
 * rewritten as a whole to its file after every change that matters; here a
 * write is a ghost snapshot of the map and a count of writes.
 */
module LinkStore {

  import opened Maybe
  import opened Collections

  type Links = map<int, seq<int>>

  /** The threads recorded for message `m`; none when `m` has no entry. */
  function Linked(links: Links, m: int): seq<int> {
    if m in links then links[m] else []
  }

  /** The map `add_link(m, t)` leaves: `t` appended to the entry of `m` unless it is already there. */
  function WithLink(links: Links, m: int, t: int): (r: Links)
    ensures t in Linked(r, m)
    ensures t in Linked(links, m) ==> r == links
    ensures t !in Linked(links, m) ==> Linked(r, m) == Linked(links, m) + [t]
    ensures forall m' :: m' != m ==> Linked(r, m') == Linked(links, m') && (m' in r <==> m' in links)
  {
    if t in Linked(links, m) then links else links[m := Linked(links, m) + [t]]
  }

  /** The map `pop_links(m)` leaves: the entry of `m` removed. */
  function WithoutEntry(links: Links, m: int): (r: Links)
    ensures m !in r && Linked(r, m) == []
    ensures forall m' :: m' != m ==> Linked(r, m') == Linked(links, m') && (m' in r <==> m' in links)
  {
    links - {m}
  }

  /** `load_links`: the stored map, or an empty one when the file is missing or unreadable. */
  function Loaded(stored: Option<Links>): Links {
    match stored
    case Some(links) => links
    case None => map[]
  }

  /** Every thread appears at most once in the whole store: once in its list, under one message. */
  predicate NoCrossLinks(links: Links) {
    && (forall m :: m in links ==> NoDuplicates(links[m]))
    && (forall m, m', t :: m in links && m' in links && t in links[m] && t in links[m'] ==> m == m')
  }

  class Store {
    var links: Links
    /** How many times the whole map has been written out. */
    ghost var flushes: nat
    /**
     * The map as last written out, or as loaded at start-up before any write.
     * When the file was missing or unreadable it stays as it is until the
     * first write, but `saved` starts as the empty map the bot then uses.
     */
    ghost var saved: Links

    /** `load_links` at start-up. */
    constructor Load(stored: Option<Links>)
      ensures links == Loaded(stored) && saved == links && flushes == 0
    {
      links := Loaded(stored);
      saved := links;
      flushes := 0;
    }

    /** `save_links`: writes the whole map. */
    method Flush()
      modifies this
      ensures links == old(links) && saved == links && flushes == old(flushes) + 1
    {
      saved := links;
      flushes := flushes + 1;
    }

    /** `add_link(m, t)`. */
    method AddLink(m: int, t: int)
      modifies this
      ensures links == WithLink(old(links), m, t)
      ensures t !in Linked(old(links), m) ==> flushes == old(flushes) + 1 && saved == links
      ensures t in Linked(old(links), m) ==> flushes == old(flushes) && saved == old(saved)
    {
      var entry := if m in links then links[m] else [];
      links := links[m := entry];
      if t !in links[m] {
        links := links[m := links[m] + [t]];
        Flush();
      } else {
        assert links == old(links);
      }
    }

    /** `pop_links(m)`: removes and returns the entry of `m`. */
    method PopLinks(m: int) returns (ids: seq<int>)
      modifies this
      ensures ids == Linked(old(links), m)
      ensures links == WithoutEntry(old(links), m)
      ensures ids != [] ==> flushes == old(flushes) + 1 && saved == links
      ensures ids == [] ==> flushes == old(flushes) && saved == old(saved)
    {
      ids := if m in links then links[m] else [];
      links := links - {m};
      if ids != [] {
        Flush();
      }
    }
  }

  /** After `add_link(m, t)`, `t` is recorded for `m`, and only once if the list had no repeats before. */
  lemma WithLinkRecords(links: Links, m: int, t: int)
    requires NoDuplicates(Linked(links, m))
    ensures t in Linked(WithLink(links, m, t), m)
    ensures NoDuplicates(Linked(WithLink(links, m, t), m))
    ensures multiset(Linked(WithLink(links, m, t), m))[t] == 1
  {
    var s := Linked(WithLink(links, m, t), m);
    NoDuplicatesOnce(s, t);
  }

  lemma {:induction false} NoDuplicatesOnce(s: seq<int>, t: int)
    requires NoDuplicates(s) && t in s
    ensures multiset(s)[t] == 1
  {
    assert s == [s[0]] + s[1..];
    if s[0] == t {
      assert t !in s[1..];
    } else {
      NoDuplicatesOnce(s[1..], t);
    }
  }

  /** Recording the same link twice is the same as recording it once. */
  lemma WithLinkIdempotent(links: Links, m: int, t: int)
    ensures WithLink(WithLink(links, m, t), m, t) == WithLink(links, m, t)
  {
  }

  /**
   * Round trip: recording `t` for a fresh message and then popping it returns
   * `[t]` and gives back the map as it was; popping again returns nothing.
   */
  lemma AddThenPop(links: Links, m: int, t: int)
    requires m !in links
    ensures Linked(WithLink(links, m, t), m) == [t]
    ensures WithoutEntry(WithLink(links, m, t), m) == links
    ensures Linked(WithoutEntry(WithLink(links, m, t), m), m) == []
  {
  }

  /** Two links for one fresh message come back together, in the order they were recorded. */
  lemma TwoLinksThenPop(links: Links, m: int, t1: int, t2: int)
    requires m !in links && t1 != t2
    ensures Linked(WithLink(WithLink(links, m, t1), m, t2), m) == [t1, t2]
    ensures WithoutEntry(WithLink(WithLink(links, m, t1), m, t2), m) == links
  {
    var one := WithLink(links, m, t1);
    assert Linked(links, m) == [] && [] + [t1] == [t1];
    assert one == links[m := [t1]];
    assert Linked(one, m) == [t1] && t2 !in [t1] && [t1] + [t2] == [t1, t2];
    assert WithLink(one, m, t2) == links[m := [t1, t2]];
  }

  /** Recording a thread that no message holds yet keeps every thread under at most one message. */
  lemma WithFreshLinkKeepsNoCrossLinks(links: Links, m: int, t: int)
    requires NoCrossLinks(links)
    requires forall m' :: m' in links ==> t !in links[m']
    ensures NoCrossLinks(WithLink(links, m, t))
  {
    var links' := WithLink(links, m, t);
    forall m1 | m1 in links' ensures NoDuplicates(links'[m1]) {
      if m1 == m {
        WithLinkRecords(links, m, t);
      }
    }
  }

  /** Without that freshness the store can hold one thread under two messages. */
  lemma CrossLinkPossible()
    ensures !NoCrossLinks(WithLink(WithLink(map[], 1, 7), 2, 7))
  {
    var links := WithLink(WithLink(map[], 1, 7), 2, 7);
    assert 7 in links[1] && 7 in links[2];
  }

  /** Removing an entry keeps every thread under at most one message. */
  lemma WithoutEntryKeepsNoCrossLinks(links: Links, m: int)
    requires NoCrossLinks(links)
    ensures NoCrossLinks(WithoutEntry(links, m))
  {
  }
}
