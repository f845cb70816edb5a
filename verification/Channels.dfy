/**
 The list of source channels, page by page (service/messages/channel.go). One call of `List` runs under
 a lock and sees one state of the channel map; between calls the map may change in any way.
 */
module Channels {
  import opened Bytes

  datatype Order = Asc | Desc

  /** The pattern of a request: none, a regular expression as the set of links it matches, or one that
      does not compile, which is reported as an error but lists every channel. */
  datatype Filter = Everything | Matching(matches: bytes -> bool) | Invalid {
    predicate Accepts(link: bytes) {
      Matching? ==> matches(link)
    }
  }

  datatype Channel = Channel(lastUpdate: int, link: bytes)

  // ----- the order of links -----

  /** `a < b` on Go strings: byte by byte, a proper prefix first. */
  predicate Less(a: bytes, b: bytes) {
    b != [] && (a == [] || a[0] < b[0] || (a[0] == b[0] && Less(a[1..], b[1..])))
  }

  predicate Before(order: Order, a: bytes, b: bytes) {
    if order.Desc? then Less(b, a) else Less(a, b)
  }

  predicate Ascending(order: Order, s: seq<bytes>) {
    forall i, j :: 0 <= i < j < |s| ==> Before(order, s[i], s[j])
  }

  lemma {:induction false} LessTransitive(a: bytes, b: bytes, c: bytes)
    requires Less(a, b) && Less(b, c)
    ensures Less(a, c)
  {
    if a != [] && a[0] == b[0] == c[0] {
      LessTransitive(a[1..], b[1..], c[1..]);
    }
  }

  lemma {:induction false} LessTrichotomy(a: bytes, b: bytes)
    ensures a == b <==> !Less(a, b) && !Less(b, a)
    ensures !(Less(a, b) && Less(b, a))
  {
    if a != [] && b != [] && a[0] == b[0] {
      LessTrichotomy(a[1..], b[1..]);
      assert a == [a[0]] + a[1..] && b == [b[0]] + b[1..];
    }
  }

  lemma BeforeTransitive(order: Order, a: bytes, b: bytes, c: bytes)
    requires Before(order, a, b) && Before(order, b, c)
    ensures Before(order, a, c)
  {
    if order.Desc? {
      LessTransitive(c, b, a);
    } else {
      LessTransitive(a, b, c);
    }
  }

  lemma BeforeTrichotomy(order: Order, a: bytes, b: bytes)
    ensures a == b <==> !Before(order, a, b) && !Before(order, b, a)
    ensures !(Before(order, a, b) && Before(order, b, a))
  {
    LessTrichotomy(a, b);
  }

  /** Two links are ordered by the first byte in which they differ, the smaller one first in ascending order
      and the greater one first in descending order. */
  lemma {:induction false} FirstDifferenceDecides(p: bytes, x: byte, s: bytes, y: byte, t: bytes)
    requires x < y
    ensures Before(Asc, p + [x] + s, p + [y] + t) && Before(Desc, p + [y] + t, p + [x] + s)
    decreases p
  {
    if p != [] {
      assert (p + [x] + s)[1..] == p[1..] + [x] + s && (p + [y] + t)[1..] == p[1..] + [y] + t;
      FirstDifferenceDecides(p[1..], x, s, y, t);
    }
  }

  /** A link that only continues another comes after it in ascending order and before it in descending order. */
  lemma {:induction false} PrefixComesFirst(p: bytes, s: bytes)
    requires s != []
    ensures Before(Asc, p, p + s) && Before(Desc, p + s, p)
    decreases p
  {
    if p != [] {
      assert (p + s)[1..] == p[1..] + s;
      PrefixComesFirst(p[1..], s);
    }
  }

  // ----- pages -----

  predicate PastCursor(order: Order, cursor: bytes, link: bytes) {
    cursor == [] || Before(order, cursor, link)
  }

  predicate Listed(keys: set<bytes>, filter: Filter, order: Order, cursor: bytes, link: bytes) {
    link in keys && filter.Accepts(link) && PastCursor(order, cursor, link)
  }

  /** A page holds, in order, links that are to be listed, at most `limit` of them; a link that is to be
      listed is left out only when the page is full and comes before it. */
  ghost predicate IsPage(page: seq<bytes>, keys: set<bytes>, filter: Filter, limit: nat, order: Order, cursor: bytes) {
    && |page| <= limit
    && Ascending(order, page)
    && (forall l <- page :: Listed(keys, filter, order, cursor, l))
    && (forall l: bytes :: Listed(keys, filter, order, cursor, l) && l !in page ==>
          |page| == limit && forall m <- page :: Before(order, m, l))
  }

  /** A pattern leaves, of the links listed without one, exactly those that it matches; a pattern that does not
      compile leaves all of them. */
  lemma PatternNarrows(keys: set<bytes>, filter: Filter, order: Order, cursor: bytes, link: bytes)
    ensures Listed(keys, filter, order, cursor, link)
       <==> Listed(keys, Everything, order, cursor, link)
            && match filter case Matching(matches) => matches(link) case _ => true
    ensures Listed(keys, Everything, order, [], link) <==> link in keys
  {
  }

  function LinksOf(page: seq<Channel>): (links: seq<bytes>)
    ensures |links| == |page| && forall i :: 0 <= i < |page| ==> links[i] == page[i].link
  {
    seq(|page|, i requires 0 <= i < |page| => page[i].link)
  }

  class ChanPostHandler {
    var channels: map<bytes, int>

    constructor (channels: map<bytes, int>)
      ensures this.channels == channels
    {
      this.channels := channels;
    }

    method List(filter: Filter, limit: nat, cursor: bytes, order: Order) returns (page: seq<Channel>, failed: bool)
      ensures failed == filter.Invalid?
      ensures IsPage(LinksOf(page), channels.Keys, filter, limit, order, cursor)
      ensures forall c <- page :: c.link in channels && c.lastUpdate == channels[c.link]
    {
      failed := filter.Invalid?;
      var chansSorted := SortedLinks(channels.Keys, order);
      page := [];
      var i := 0;
      while i < |chansSorted|
        invariant 0 <= i <= |chansSorted|
        invariant |page| <= limit
        invariant Ascending(order, LinksOf(page))
        invariant forall l <- LinksOf(page) :: l in chansSorted[..i] && Listed(channels.Keys, filter, order, cursor, l)
        invariant forall l <- chansSorted[..i] :: Listed(channels.Keys, filter, order, cursor, l) ==> l in LinksOf(page)
        invariant forall c <- page :: c.link in channels && c.lastUpdate == channels[c.link]
      {
        var l := chansSorted[i];
        if |page| == limit {
          break;
        }
        assert forall m <- chansSorted[..i] :: Before(order, m, l);
        assert chansSorted[..i + 1] == chansSorted[..i] + [l];
        i := i + 1;
        if cursor != [] && (if order.Desc? then !Less(l, cursor) else !Less(cursor, l)) {
          continue;
        }
        if filter.Matching? && !filter.matches(l) {
          continue;
        }
        ghost var before := LinksOf(page);
        page := page + [Channel(channels[l], l)];
        assert LinksOf(page) == before + [l];
      }
      forall l: bytes | Listed(channels.Keys, filter, order, cursor, l) && l !in LinksOf(page)
        ensures |page| == limit && forall m <- LinksOf(page) :: Before(order, m, l)
      {
        assert l in chansSorted;
        var k :| 0 <= k < |chansSorted| && chansSorted[k] == l;
        assert k >= i;
      }
    }
  }

  /** The keys of the map in order: collected in the map's arbitrary order, then sorted. */
  method SortedLinks(keys: set<bytes>, order: Order) returns (sorted: seq<bytes>)
    ensures Ascending(order, sorted)
    ensures forall l :: l in sorted <==> l in keys
  {
    var collected: seq<bytes> := [];
    var rest := keys;
    while rest != {}
      invariant forall l :: l in keys <==> l in collected || l in rest
      invariant forall l <- collected :: l !in rest
      invariant forall i, j :: 0 <= i < j < |collected| ==> collected[i] != collected[j]
    {
      var l :| l in rest;
      collected := collected + [l];
      rest := rest - {l};
    }
    sorted := [];
    for i := 0 to |collected|
      invariant Ascending(order, sorted)
      invariant forall l :: l in sorted <==> l in collected[..i]
    {
      assert forall l <- collected[..i] :: l != collected[i];
      assert collected[..i + 1] == collected[..i] + [collected[i]];
      sorted := Insert(sorted, collected[i], order);
    }
    assert collected[..|collected|] == collected;
  }

  method Insert(s: seq<bytes>, l: bytes, order: Order) returns (r: seq<bytes>)
    requires Ascending(order, s) && l !in s
    ensures Ascending(order, r)
    ensures forall x :: x in r <==> x in s || x == l
  {
    var k := 0;
    while k < |s| && Before(order, s[k], l)
      invariant 0 <= k <= |s|
      invariant forall j :: 0 <= j < k ==> Before(order, s[j], l)
    {
      k := k + 1;
    }
    r := s[..k] + [l] + s[k..];
    forall j | k <= j < |s| ensures Before(order, l, s[j]) {
      BeforeTrichotomy(order, l, s[k]);
      assert s[k] in s;
      if k < j {
        BeforeTransitive(order, l, s[k], s[j]);
      }
    }
    assert s == s[..k] + s[k..];
  }
}
