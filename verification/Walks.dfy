/**
 Walks through the channel list: calls of `List` one after the other, each continuing after the last
 link of the page before, while the channel map changes arbitrarily between calls. An empty cursor means
 the beginning, so a page that ends with an empty link sends the walk back.
 */
module Walks {
  import opened Bytes
  import opened Channels

  /** One call: the keys of the map at that moment, and the links it returned. */
  datatype Visit = Visit(keys: set<bytes>, page: seq<bytes>)

  function CursorAfter(visits: seq<Visit>): bytes {
    if visits == [] then []
    else
      var page := visits[|visits| - 1].page;
      if page == [] then [] else page[|page| - 1]
  }

  /** A walk goes on only from a page that has a last link. */
  ghost predicate IsWalk(visits: seq<Visit>, filter: Filter, limit: nat, order: Order) {
    && (forall k :: 0 <= k < |visits| ==>
          IsPage(visits[k].page, visits[k].keys, filter, limit, order, CursorAfter(visits[..k])))
    && (forall k :: 0 <= k < |visits| - 1 ==> visits[k].page != [])
  }

  /** No page but the last ends with the empty link. */
  ghost predicate NeverSentBack(visits: seq<Visit>) {
    forall k :: 0 <= k < |visits| - 1 && visits[k].page != [] ==> visits[k].page[|visits[k].page| - 1] != []
  }

  /** Everything the walk returned, in the order it was returned. */
  function Returned(visits: seq<Visit>): seq<bytes> {
    if visits == [] then []
    else Returned(visits[..|visits| - 1]) + visits[|visits| - 1].page
  }

  // ----- a changing map -----

  lemma WalkPrefix(visits: seq<Visit>, filter: Filter, limit: nat, order: Order)
    requires IsWalk(visits, filter, limit, order) && visits != []
    ensures IsWalk(visits[..|visits| - 1], filter, limit, order)
  {
    var before := visits[..|visits| - 1];
    forall k | 0 <= k < |before|
      ensures IsPage(before[k].page, before[k].keys, filter, limit, order, CursorAfter(before[..k]))
    {
      assert before[..k] == visits[..k] && before[k] == visits[k];
    }
  }

  /** The last page of a walk with its cursor. */
  lemma LastPage(visits: seq<Visit>, filter: Filter, limit: nat, order: Order)
    requires IsWalk(visits, filter, limit, order) && visits != []
    ensures var n := |visits| - 1;
            && IsPage(visits[n].page, visits[n].keys, filter, limit, order, CursorAfter(visits[..n]))
            && forall l <- visits[n].page :: l in visits[n].keys
  {
  }

  /** A page that continues after the last of the links returned so far. */
  lemma PageContinues(returned: seq<bytes>, v: Visit, filter: Filter, limit: nat, order: Order, cursor: bytes)
    requires Ascending(order, returned) && (returned != [] ==> cursor == returned[|returned| - 1] != [])
    requires IsPage(v.page, v.keys, filter, limit, order, cursor)
    ensures Ascending(order, returned + v.page)
  {
    forall i, j | 0 <= i < |returned| && 0 <= j < |v.page| ensures Before(order, returned[i], v.page[j]) {
      assert v.page[j] in v.page;
      if i < |returned| - 1 {
        BeforeTransitive(order, returned[i], returned[|returned| - 1], v.page[j]);
      }
    }
  }

  lemma CursorIsLast(visits: seq<Visit>)
    requires visits != [] && visits[|visits| - 1].page != []
    ensures Returned(visits) != [] && CursorAfter(visits) == Returned(visits)[|Returned(visits)| - 1]
  {
  }

  lemma NeverSentBackBefore(visits: seq<Visit>)
    requires visits != [] && NeverSentBack(visits)
    ensures NeverSentBack(visits[..|visits| - 1])
  {
    assert forall k :: 0 <= k < |visits| - 1 ==> visits[..|visits| - 1][k] == visits[k];
  }

  /** When no channel has an empty link, as long as the walk lasts, it is never sent back. */
  lemma NonEmptyLinksSuffice(visits: seq<Visit>, filter: Filter, limit: nat, order: Order)
    requires IsWalk(visits, filter, limit, order)
    requires forall k :: 0 <= k < |visits| ==> [] !in visits[k].keys
    ensures NeverSentBack(visits)
  {
    forall k | 0 <= k < |visits| - 1 ensures visits[k].page[|visits[k].page| - 1] != [] {
      var page := visits[k].page;
      assert page[|page| - 1] in page;
    }
  }

  /** A walk that is never sent back returns links in strict order, hence none twice. */
  lemma {:induction false} WalkAscends(visits: seq<Visit>, filter: Filter, limit: nat, order: Order)
    requires IsWalk(visits, filter, limit, order) && NeverSentBack(visits)
    ensures Ascending(order, Returned(visits))
  {
    if visits != [] {
      var n := |visits| - 1;
      var before := visits[..n];
      WalkPrefix(visits, filter, limit, order);
      NeverSentBackBefore(visits);
      WalkAscends(before, filter, limit, order);
      if n > 0 {
        assert before[n - 1] == visits[n - 1];
        CursorIsLast(before);
      }
      LastPage(visits, filter, limit, order);
      PageContinues(Returned(before), visits[n], filter, limit, order, CursorAfter(before));
    }
  }

  /** Every link a walk returns is an accepted one that was in the map at the call that returned it. */
  lemma {:induction false} ReturnedWasThere(visits: seq<Visit>, filter: Filter, limit: nat, order: Order, link: bytes)
    requires IsWalk(visits, filter, limit, order) && link in Returned(visits)
    ensures filter.Accepts(link) && exists k :: 0 <= k < |visits| && link in visits[k].keys && link in visits[k].page
  {
    var n := |visits| - 1;
    if link in visits[n].page {
      LastPage(visits, filter, limit, order);
    } else {
      WalkPrefix(visits, filter, limit, order);
      ReturnedWasThere(visits[..n], filter, limit, order, link);
      var k :| 0 <= k < n && link in visits[..n][k].keys && link in visits[..n][k].page;
      assert visits[k] == visits[..n][k];
    }
  }

  lemma StillAhead(v: Visit, cursor: bytes, filter: Filter, limit: nat, order: Order, link: bytes)
    requires IsPage(v.page, v.keys, filter, limit, order, cursor)
    requires Listed(v.keys, filter, order, cursor, link) && link !in v.page
    ensures |v.page| == limit
    ensures v.page != [] ==> Before(order, v.page[|v.page| - 1], link)
  {
    if v.page != [] {
      assert v.page[|v.page| - 1] in v.page;
    }
  }

  /** A link that is in the map at every call, as far as the call's cursor has not passed it. */
  ghost predicate ThereWhenAwaited(visits: seq<Visit>, order: Order, link: bytes) {
    forall k :: 0 <= k < |visits| && PastCursor(order, CursorAfter(visits[..k]), link) ==> link in visits[k].keys
  }

  lemma ThereWhenAwaitedBefore(visits: seq<Visit>, order: Order, link: bytes)
    requires visits != [] && ThereWhenAwaited(visits, order, link)
    ensures ThereWhenAwaited(visits[..|visits| - 1], order, link)
  {
    var before := visits[..|visits| - 1];
    forall k | 0 <= k < |before| && PastCursor(order, CursorAfter(before[..k]), link) ensures link in before[k].keys {
      assert before[..k] == visits[..k] && before[k] == visits[k];
    }
  }

  /** A link that was there whenever it was awaited is either returned, or still ahead of the cursor with
      every page so far full. */
  lemma {:induction false} ReturnedOrAhead(visits: seq<Visit>, filter: Filter, limit: nat, order: Order, link: bytes)
    requires IsWalk(visits, filter, limit, order)
    requires filter.Accepts(link) && ThereWhenAwaited(visits, order, link)
    ensures link in Returned(visits)
            || (AllFull(visits, limit) && PastCursor(order, CursorAfter(visits), link))
  {
    if visits != [] {
      var n := |visits| - 1;
      var before, last := visits[..n], visits[n];
      WalkPrefix(visits, filter, limit, order);
      ThereWhenAwaitedBefore(visits, order, link);
      ReturnedOrAhead(before, filter, limit, order, link);
      assert Returned(visits) == Returned(before) + last.page;
      if link !in Returned(visits) {
        LastPage(visits, filter, limit, order);
        StillAhead(last, CursorAfter(before), filter, limit, order, link);
        AllFullAfter(visits, limit);
      }
    }
  }

  ghost predicate AllFull(visits: seq<Visit>, limit: nat) {
    forall k :: 0 <= k < |visits| ==> |visits[k].page| == limit
  }

  lemma AllFullAfter(visits: seq<Visit>, limit: nat)
    requires visits != [] && AllFull(visits[..|visits| - 1], limit) && |visits[|visits| - 1].page| == limit
    ensures AllFull(visits, limit)
  {
    assert forall k :: 0 <= k < |visits| - 1 ==> visits[k] == visits[..|visits| - 1][k];
  }

  /** A completed walk, one that ends with a page that is not full, has returned every accepted link that
      was in the map at every call whose cursor had not passed it. */
  lemma CompletedWalkMissesNothing(visits: seq<Visit>, filter: Filter, limit: nat, order: Order, link: bytes)
    requires IsWalk(visits, filter, limit, order)
    requires visits != [] && |visits[|visits| - 1].page| < limit
    requires filter.Accepts(link) && ThereWhenAwaited(visits, order, link)
    ensures link in Returned(visits)
  {
    ReturnedOrAhead(visits, filter, limit, order, link);
  }

  // ----- a map that stays the same -----

  /** The links to be listed, in order, whichever way they were sorted. */
  ghost predicate IsListing(s: seq<bytes>, keys: set<bytes>, filter: Filter, order: Order, cursor: bytes) {
    && Ascending(order, s)
    && forall l: bytes :: l in s <==> Listed(keys, filter, order, cursor, l)
  }

  /** A page agrees, link by link, with the whole ordered listing. */
  lemma {:induction false} PageAt(page: seq<bytes>, s: seq<bytes>, keys: set<bytes>, filter: Filter, limit: nat,
                                  order: Order, cursor: bytes, i: nat)
    requires IsPage(page, keys, filter, limit, order, cursor) && IsListing(s, keys, filter, order, cursor)
    requires i < |page|
    ensures |s| >= i + 1 && page[..i + 1] == s[..i + 1]
  {
    if i > 0 {
      PageAt(page, s, keys, filter, limit, order, cursor, i - 1);
      assert forall j :: 0 <= j < i ==> page[j] == page[..i][j] == s[..i][j] == s[j];
    }
    assert page[i] in page;
    var k :| 0 <= k < |s| && s[k] == page[i];
    if k < i {
      assert page[k] == page[i];
      BeforeTrichotomy(order, page[k], page[i]);
    } else if i < k {
      NotSkipped(page, s, keys, filter, limit, order, cursor, i, k);
    }
    assert page[..i + 1] == page[..i] + [page[i]] && s[..i + 1] == s[..i] + [s[i]];
  }

  lemma NotSkipped(page: seq<bytes>, s: seq<bytes>, keys: set<bytes>, filter: Filter, limit: nat,
                   order: Order, cursor: bytes, i: nat, k: nat)
    requires IsPage(page, keys, filter, limit, order, cursor) && IsListing(s, keys, filter, order, cursor)
    requires i < |page| && k < |s| && page[i] == s[k]
    requires i <= |s| && forall j :: 0 <= j < i ==> page[j] == s[j]
    ensures k <= i
  {
    if i < k {
      assert s[i] in s && Before(order, s[i], s[k]) && page[i] in page;
      BeforeTrichotomy(order, s[i], s[k]);
      if s[i] in page {
        var j :| 0 <= j < |page| && page[j] == s[i];
        if j < i {
          BeforeTrichotomy(order, s[j], s[i]);
        } else if i < j {
          BeforeTrichotomy(order, page[i], page[j]);
        }
      }
    }
  }

  /** On one state of the map, a page is the first `limit` links of the ordered listing past the cursor. */
  lemma PageIsFirstOfListing(page: seq<bytes>, s: seq<bytes>, keys: set<bytes>, filter: Filter, limit: nat,
                             order: Order, cursor: bytes)
    requires IsPage(page, keys, filter, limit, order, cursor) && IsListing(s, keys, filter, order, cursor)
    ensures page == s[..if |s| < limit then |s| else limit]
  {
    if page != [] {
      PageAt(page, s, keys, filter, limit, order, cursor, |page| - 1);
      assert page[..|page|] == page;
    }
    if |page| < limit && |page| < |s| {
      assert s[|page|] in s;
      var j :| 0 <= j < |page| && page[j] == s[|page|];
      assert page[j] == s[..|page|][j] == s[j];
      BeforeTrichotomy(order, s[j], s[|page|]);
    }
  }

  /** Two ordered sequences with the same links are the same. */
  lemma ListingIsUnique(s: seq<bytes>, t: seq<bytes>, keys: set<bytes>, filter: Filter, order: Order, cursor: bytes)
    requires IsListing(s, keys, filter, order, cursor) && IsListing(t, keys, filter, order, cursor)
    ensures s == t
  {
    PageIsFirstOfListing(s, t, keys, filter, |s|, order, cursor);
    PageIsFirstOfListing(t, s, keys, filter, |t|, order, cursor);
  }

  /** When the map stays the same, the pages of a completed walk that was never sent back, put together, are
      the whole ordered list of accepted keys. */
  lemma StaticWalkListsAll(visits: seq<Visit>, keys: set<bytes>, filter: Filter, limit: nat, order: Order,
                           s: seq<bytes>)
    requires IsWalk(visits, filter, limit, order) && NeverSentBack(visits)
    requires visits != [] && |visits[|visits| - 1].page| < limit
    requires forall v <- visits :: v.keys == keys
    requires IsListing(s, keys, filter, order, [])
    ensures Returned(visits) == s
  {
    WalkAscends(visits, filter, limit, order);
    forall l: bytes ensures l in Returned(visits) <==> Listed(keys, filter, order, [], l) {
      if l in Returned(visits) {
        ReturnedWasThere(visits, filter, limit, order, l);
      }
      if Listed(keys, filter, order, [], l) {
        assert forall k :: 0 <= k < |visits| ==> visits[k] in visits;
        assert ThereWhenAwaited(visits, order, l);
        CompletedWalkMissesNothing(visits, filter, limit, order, l);
      }
    }
    ListingIsUnique(Returned(visits), s, keys, filter, order, []);
  }

  /** The links still ahead of a cursor. */
  function Ahead(keys: set<bytes>, filter: Filter, order: Order, cursor: bytes): set<bytes> {
    set l | l in keys && filter.Accepts(l) && PastCursor(order, cursor, l)
  }

  /** When the map stays the same, each page takes exactly its own links off those ahead of the cursor, so
      a walk ends: a non-empty page leaves strictly fewer. */
  lemma PageShortensAhead(page: seq<bytes>, keys: set<bytes>, filter: Filter, limit: nat, order: Order, cursor: bytes)
    requires IsPage(page, keys, filter, limit, order, cursor)
    requires page != [] && page[|page| - 1] != []
    ensures |Ahead(keys, filter, order, page[|page| - 1])| == |Ahead(keys, filter, order, cursor)| - |page|
  {
    var last := page[|page| - 1];
    var ahead, after := Ahead(keys, filter, order, cursor), Ahead(keys, filter, order, last);
    var here := set l | l in page;
    forall l ensures l in ahead <==> l in here || l in after {
      LinkAhead(page, keys, filter, limit, order, cursor, l);
    }
    forall l | l in here ensures l !in after {
      LinkAhead(page, keys, filter, limit, order, cursor, l);
    }
    assert ahead == here + after;
    AscendingSize(order, page);
  }

  lemma LinkAhead(page: seq<bytes>, keys: set<bytes>, filter: Filter, limit: nat, order: Order, cursor: bytes,
                  l: bytes)
    requires IsPage(page, keys, filter, limit, order, cursor)
    requires page != [] && page[|page| - 1] != []
    ensures var last := page[|page| - 1];
            && (Listed(keys, filter, order, cursor, l) <==> l in page || Listed(keys, filter, order, last, l))
            && (l in page ==> !Listed(keys, filter, order, last, l))
  {
    var last := page[|page| - 1];
    assert last in page;
    BeforeTrichotomy(order, last, l);
    if l in page {
      var i :| 0 <= i < |page| && page[i] == l;
      if i < |page| - 1 {
        assert Before(order, page[i], last);
      }
    } else if Listed(keys, filter, order, last, l) && cursor != [] {
      BeforeTransitive(order, cursor, last, l);
    }
  }

  lemma {:induction false} AscendingSize(order: Order, s: seq<bytes>)
    requires Ascending(order, s)
    ensures |set l | l in s| == |s|
  {
    if s != [] {
      var n := |s| - 1;
      AscendingSize(order, s[..n]);
      if s[n] in s[..n] {
        BeforeTrichotomy(order, s[n], s[n]);
      }
      assert (set l | l in s) == (set l | l in s[..n]) + {s[n]};
    }
  }

  // ----- when links may be empty -----

  /** What was returned up to some call comes first in all that was returned. */
  lemma {:induction false} ReturnedPrefix(visits: seq<Visit>, k: nat)
    requires k <= |visits|
    ensures Returned(visits[..k]) <= Returned(visits)
  {
    if k < |visits| {
      var before := visits[..|visits| - 1];
      ReturnedPrefix(before, k);
      assert before[..k] == visits[..k];
    } else {
      assert visits[..k] == visits;
    }
  }

  /** The page after one that ended with the empty link is not empty, and does not continue after that link:
      it begins at the beginning. */
  lemma SentBackPage(page: seq<bytes>, keys: set<bytes>, filter: Filter, limit: nat, order: Order)
    requires IsPage(page, keys, filter, limit, order, []) && limit > 0
    requires [] in keys && filter.Accepts([])
    ensures page != [] && !Before(order, [], page[0])
  {
    assert Listed(keys, filter, order, [], []);
    assert page != [];
    assert page[0] in page;
    BeforeTrichotomy(order, [], page[0]);
    if [] in page && page[0] != [] {
      var i :| 0 <= i < |page| && page[i] == [];
      assert Before(order, page[0], page[i]);
    }
  }

  /** When the map stays the same, and may hold an empty link, a walk returns links in strict order if and
      only if it was never sent back. */
  lemma StaticWalkAscends(visits: seq<Visit>, keys: set<bytes>, filter: Filter, limit: nat, order: Order)
    requires IsWalk(visits, filter, limit, order)
    requires forall k :: 0 <= k < |visits| ==> visits[k].keys == keys
    ensures Ascending(order, Returned(visits)) <==> NeverSentBack(visits)
  {
    if NeverSentBack(visits) {
      WalkAscends(visits, filter, limit, order);
    } else {
      var k :| 0 <= k < |visits| - 1 && visits[k].page != [] && visits[k].page[|visits[k].page| - 1] == [];
      SentBackBreaksOrder(visits, keys, filter, limit, order, k);
    }
  }

  lemma PageAfter(visits: seq<Visit>, filter: Filter, limit: nat, order: Order, k: nat)
    requires IsWalk(visits, filter, limit, order) && k < |visits| - 1
    ensures var next := visits[k + 1];
            IsPage(next.page, next.keys, filter, limit, order, visits[k].page[|visits[k].page| - 1])
    ensures forall l <- visits[k].page :: l in visits[k].keys && filter.Accepts(l)
    ensures |visits[k].page| <= limit
  {
    assert visits[..k + 1][k] == visits[k];
  }

  lemma SentBackBreaksOrder(visits: seq<Visit>, keys: set<bytes>, filter: Filter, limit: nat, order: Order, k: nat)
    requires IsWalk(visits, filter, limit, order)
    requires forall j :: 0 <= j < |visits| ==> visits[j].keys == keys
    requires k < |visits| - 1 && visits[k].page != [] && visits[k].page[|visits[k].page| - 1] == []
    ensures !Ascending(order, Returned(visits))
  {
    PageAfter(visits, filter, limit, order, k);
    assert [] in visits[k].page;
    SentBackPage(visits[k + 1].page, keys, filter, limit, order);
    NotContinued(visits, order, k);
  }

  lemma NotContinued(visits: seq<Visit>, order: Order, k: nat)
    requires k < |visits| - 1 && visits[k].page != [] && visits[k + 1].page != []
    requires !Before(order, visits[k].page[|visits[k].page| - 1], visits[k + 1].page[0])
    ensures !Ascending(order, Returned(visits))
  {
    var i := WhereReturned(visits, k);
  }

  /** Where the last link of one page and the first of the next are among all that was returned. */
  lemma WhereReturned(visits: seq<Visit>, k: nat) returns (i: nat)
    requires k < |visits| - 1 && visits[k].page != [] && visits[k + 1].page != []
    ensures i + 1 < |Returned(visits)|
    ensures Returned(visits)[i] == visits[k].page[|visits[k].page| - 1]
    ensures Returned(visits)[i + 1] == visits[k + 1].page[0]
  {
    var upTo, more := visits[..k + 1], visits[..k + 2];
    assert upTo[k] == visits[k] && upTo[..k] == visits[..k];
    assert more[..k + 1] == upTo && more[k + 1] == visits[k + 1];
    var before := Returned(upTo);
    assert before == Returned(visits[..k]) + visits[k].page;
    assert Returned(more) == before + visits[k + 1].page;
    ReturnedPrefix(visits, k + 2);
    i := |before| - 1;
  }
}
