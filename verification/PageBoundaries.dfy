/**
 * Keyset pagination with one page size (store.ts): exactly which traversals are read whole, and
 * what is read of the others.
 */
module PageBoundaries {
  import opened Wrappers
  import opened KeysetPaging

  /** Two edges of one parent that a cursor cannot tell apart. */
  predicate SameSpot(e: Edge, f: Edge) {
    e.from == f.from && KeyOf(e) == KeyOf(f)
  }

  /** Each list holds the edges of a parent of its own. */
  predicate Owned(lists: Lists) {
    && (forall i, e, f :: 0 <= i < |lists| && e in lists[i] && f in lists[i] ==> e.from == f.from)
    && forall i, j, e, f :: 0 <= i < j < |lists| && e in lists[i] && f in lists[j] ==> e.from != f.from
  }

  /** No page of the given size ends between two edges that a cursor cannot tell apart. */
  predicate Unsplit(s: seq<Edge>, limit: nat)
    requires limit > 0
    decreases |s|
  {
    |s| <= limit || (!SameSpot(s[limit - 1], s[limit]) && Unsplit(s[limit..], limit))
  }

  predicate Within(a: seq<Edge>, b: seq<Edge>) {
    a == [] || (b != [] && ((a[0] == b[0] && Within(a[1..], b[1..])) || Within(a, b[1..])))
  }

  // ---- behind a cursor ------------------------------------------------------------------------

  /** In a sorted list, what comes after a first edge behind the cursor is behind it too. */
  lemma {:induction false} RestFull(list: seq<Edge>, c: Option<Key>)
    requires Sorted(list) && (list != [] ==> After(c, list[0]))
    ensures Rest(list, c) == list
  {
    hide Precedes, KeyOf;
    if |list| > 1 {
      if c.Some? {
        PrecedesOrder(KeyOf(list[0]), KeyOf(list[1]));
        if Precedes(KeyOf(list[0]), KeyOf(list[1])) {
          PrecedesTransitive(c.value, KeyOf(list[0]), KeyOf(list[1]));
        }
      }
      RestFull(list[1..], c);
    }
  }

  /** What is behind a cursor is the end of the list. */
  lemma {:induction false} RestSuffix(list: seq<Edge>, c: Option<Key>)
    requires Sorted(list)
    ensures Rest(list, c) == list[|list| - |Rest(list, c)|..]
  {
    hide Precedes, KeyOf;
    if list != [] {
      if After(c, list[0]) {
        RestFull(list, c);
      } else {
        RestSuffix(list[1..], c);
      }
    }
  }

  /** Behind edge i comes edge i + 1, unless the two tie. */
  lemma {:induction false} RestBehind(list: seq<Edge>, i: nat)
    requires Sorted(list) && i < |list|
    ensures var rest := Rest(list, Some(KeyOf(list[i])));
            && |rest| <= |list| - 1 - i && rest == list[|list| - |rest|..]
            && (rest == list[i + 1..] <==> i + 1 == |list| || KeyOf(list[i]) != KeyOf(list[i + 1]))
  {
    hide Precedes, KeyOf;
    var e := list[i];
    RestShrinks(list, i);
    RestSuffix(list, Some(KeyOf(e)));
    PrecedesOrder(KeyOf(e), KeyOf(list[0]));
    if i > 0 {
      RestBehind(list[1..], i - 1);
      assert list[1..][i - 1] == e && list[1..][i..] == list[i + 1..];
    } else if |list| > 1 {
      PrecedesOrder(KeyOf(e), KeyOf(list[1]));
      if KeyOf(e) != KeyOf(list[1]) {
        RestFull(list[1..], Some(KeyOf(e)));
      } else {
        assert Rest(list, Some(KeyOf(e))) == Rest(list[2..], Some(KeyOf(e))) by {
          assert list[1..][1..] == list[2..];
        }
      }
    }
  }

  // ---- behind a page --------------------------------------------------------------------------

  /** A page with a cursor leaves the end of the traversal: all of it, unless the page splits a tie. */
  ghost predicate LeavesEnd(lists: Lists, left: seq<Edge>, limit: nat, page: Page)
    requires limit > 0
  {
    page.next.Some? ==>
      var rest := Remaining(lists, page.next.value.parentIndex, Some(page.next.value.key));
      && |rest| <= |left| - limit && rest == left[|left| - |rest|..]
      && (rest == left[limit..] <==> |left| == limit || !SameSpot(left[limit - 1], left[limit]))
  }

  lemma {:induction false} RemainingFrom(lists: Lists, parent: nat, c: Option<Key>, e: Edge)
    requires e in Remaining(lists, parent, c)
    ensures exists q :: parent <= q < |lists| && e in lists[q]
    decreases |lists| - parent
  {
    if parent < |lists| {
      if e in Rest(lists[parent], c) {
        assert e in lists[parent];
      } else {
        RemainingFrom(lists, parent + 1, None, e);
      }
    }
  }

  /** Edges of one list are told apart by their keys, edges of different lists by their parents. */
  lemma Neighbours(lists: Lists, parent: nat, list: seq<Edge>, tail: seq<Edge>, limit: nat)
    requires Owned(lists) && parent < |lists| && 0 < limit <= |list| && forall e :: e in list ==> e in lists[parent]
    requires tail == Remaining(lists, parent + 1, None)
    ensures var left := list + tail;
            limit < |left| ==>
              (SameSpot(left[limit - 1], left[limit])
               <==> limit < |list| && KeyOf(list[limit - 1]) == KeyOf(list[limit]))
  {
    hide Remaining, KeyOf;
    var last := list[limit - 1];
    assert last in list;
    if limit < |list| {
      assert list[limit] in list && last.from == list[limit].from;
    } else if tail != [] {
      RemainingFrom(lists, parent + 1, None, tail[0]);
      var q :| parent + 1 <= q < |lists| && tail[0] in lists[q];
      assert last in lists[parent] && last.from != tail[0].from;
    }
  }

  lemma FillsEnd(lists: Lists, parent: nat, c: Option<Key>, limit: nat)
    requires AllSorted(lists) && Owned(lists) && limit > 0 && parent < |lists| && |Rest(lists[parent], c)| >= limit
    ensures LeavesEnd(lists, Remaining(lists, parent, c), limit, PageFrom(lists, parent, c, limit))
  {
    hide Rest, Sorted, NoTies, KeyOf, Owned, SameSpot;
    var list, tail := Rest(lists[parent], c), Remaining(lists, parent + 1, None);
    RestSorted(lists[parent], c);
    var last := list[limit - 1];
    assert last in list;
    RestOfRest(lists[parent], c, last);
    RestBehind(list, limit - 1);
    assert Take(list, limit)[limit - 1] == last;
    Neighbours(lists, parent, list, tail, limit);
    SuffixConcat(list, Rest(list, Some(KeyOf(last))), tail, limit);
  }

  lemma SuffixConcat(list: seq<Edge>, behind: seq<Edge>, tail: seq<Edge>, limit: nat)
    requires |behind| <= |list| - limit && behind == list[|list| - |behind|..]
    ensures var all, rest := list + tail, behind + tail;
            rest == all[|all| - |rest|..] && (rest == all[limit..] <==> behind == list[limit..])
  {
    assert (list + tail)[limit..] == list[limit..] + tail;
    if behind + tail == list[limit..] + tail {
      assert |behind| == |list[limit..]|;
    }
  }

  lemma ContinuesEnd(lists: Lists, list: seq<Edge>, tail: seq<Edge>, limit: nat, page: Page)
    requires |list| < limit && LeavesEnd(lists, tail, limit - |list|, page)
    ensures LeavesEnd(lists, list + tail, limit, Page(list + page.edges, page.next))
  {
    hide Remaining, SameSpot;
    if page.next.Some? {
      assert (list + tail)[limit..] == tail[limit - |list|..];
      assert (list + tail)[limit - 1] == tail[limit - |list| - 1];
    }
  }

  lemma {:induction false} PageLeavesEnd(lists: Lists, parent: nat, c: Option<Key>, limit: nat)
    requires AllSorted(lists) && Owned(lists) && limit > 0
    ensures LeavesEnd(lists, Remaining(lists, parent, c), limit, PageFrom(lists, parent, c, limit))
    decreases |lists| - parent
  {
    hide Rest, AllSorted, Owned, LeavesEnd;
    if parent >= |lists| {
      EndLeavesEnd(lists, limit);
    } else {
      var list, tail := Rest(lists[parent], c), Remaining(lists, parent + 1, None);
      if |list| < limit {
        assert Take(list, limit) == list;
        PageLeavesEnd(lists, parent + 1, None, limit - |list|);
        ContinuesEnd(lists, list, tail, limit, PageFrom(lists, parent + 1, None, limit - |list|));
      } else {
        FillsEnd(lists, parent, c, limit);
      }
    }
  }

  lemma EndLeavesEnd(lists: Lists, limit: nat)
    requires limit > 0
    ensures LeavesEnd(lists, [], limit, Page([], None))
  {
  }

  // ---- all pages ------------------------------------------------------------------------------

  /** Paging from a cursor reads all that remains exactly when no page splits a tie. */
  lemma {:induction false} PagesExact(lists: Lists, parent: nat, c: Option<Key>, limit: nat)
    requires AllSorted(lists) && Owned(lists) && limit > 0
    ensures AllPages(lists, parent, c, limit) == Remaining(lists, parent, c)
            <==> Unsplit(Remaining(lists, parent, c), limit)
    decreases |Remaining(lists, parent, c)|
  {
    hide PageFrom, Remaining, SameSpot, Owned, AllSorted;
    PageIsNext(lists, parent, c, limit);
    PageLeavesEnd(lists, parent, c, limit);
    var left, page := Remaining(lists, parent, c), PageFrom(lists, parent, c, limit);
    if page.next.Some? {
      var p, key := page.next.value.parentIndex, Some(page.next.value.key);
      PagesExact(lists, p, key, limit);
      PagesBounded(lists, p, key, limit);
      assert left == left[..limit] + left[limit..];
    }
  }

  lemma {:induction false} WithinSuffix(a: seq<Edge>, b: seq<Edge>, k: nat)
    requires k <= |b| && Within(a, b[k..])
    ensures Within(a, b)
  {
    if k > 0 {
      assert b[1..][k - 1..] == b[k..];
      WithinSuffix(a, b[1..], k - 1);
    } else {
      assert b[0..] == b;
    }
  }

  lemma {:induction false} WithinBehind(front: seq<Edge>, a: seq<Edge>, b: seq<Edge>)
    requires Within(a, b)
    ensures Within(front + a, front + b)
  {
    if front == [] {
      assert front + a == a && front + b == b;
    } else {
      WithinBehind(front[1..], a, b);
      assert (front + a)[1..] == front[1..] + a && (front + b)[1..] == front[1..] + b;
    }
  }

  /** Whatever is skipped, nothing is repeated or out of order. */
  lemma {:induction false} PagesWithin(lists: Lists, parent: nat, c: Option<Key>, limit: nat)
    requires AllSorted(lists) && Owned(lists) && limit > 0
    ensures Within(AllPages(lists, parent, c, limit), Remaining(lists, parent, c))
    decreases |Remaining(lists, parent, c)|
  {
    hide PageFrom, Remaining, SameSpot, Owned, AllSorted, Within;
    PageIsNext(lists, parent, c, limit);
    PageLeavesEnd(lists, parent, c, limit);
    var left, page := Remaining(lists, parent, c), PageFrom(lists, parent, c, limit);
    NothingWithin();
    if page.next.Some? {
      var p, key := page.next.value.parentIndex, Some(page.next.value.key);
      var rest := Remaining(lists, p, key);
      PagesWithin(lists, p, key, limit);
      assert left[limit..][|left| - |rest| - limit..] == rest;
      WithinSuffix(AllPages(lists, p, key, limit), left[limit..], |left| - |rest| - limit);
      WithinBehind(left[..limit], AllPages(lists, p, key, limit), left[limit..]);
      assert left == left[..limit] + left[limit..];
      assert AllPages(lists, parent, c, limit) == left[..limit] + AllPages(lists, p, key, limit);
    } else {
      WithinBehind(left, [], []);
      assert left + [] == left && AllPages(lists, parent, c, limit) == left;
    }
  }

  lemma NothingWithin()
    ensures Within([], [])
  {
  }

  /** With one page size: the traversal is read whole if and only if no page splits a tie. */
  lemma PagingExactFor(lists: Lists, limit: nat)
    requires AllSorted(lists) && Owned(lists) && limit > 0
    ensures AllPages(lists, 0, None, limit) == Flatten(lists) <==> Unsplit(Flatten(lists), limit)
    ensures Within(AllPages(lists, 0, None, limit), Flatten(lists))
  {
    hide Unsplit, Within, AllPages, Owned;
    PagesExact(lists, 0, None, limit);
    PagesWithin(lists, 0, None, limit);
    RemainingIsFlatten(lists, 0);
    assert lists[0..] == lists;
  }

  lemma {:induction false} SelectedFrom(table: seq<Edge>, parent: string, floor: int, e: Edge)
    requires e in Listing(table, parent, floor)
    ensures e.from == parent
  {
    ListingComplete(table, parent, floor, e);
    assert multiset(Listing(table, parent, floor))[e] > 0;
  }

  lemma ListingsOwned(table: seq<Edge>, parents: seq<string>, floor: int)
    requires forall i, j :: 0 <= i < j < |parents| ==> parents[i] != parents[j]
    ensures Owned(Listings(table, parents, floor))
  {
    hide Listing;
    var lists := Listings(table, parents, floor);
    forall i, e: Edge | 0 <= i < |lists| && e in lists[i] ensures e.from == parents[i] {
      SelectedFrom(table, parents[i], floor, e);
    }
  }

  /** A client that follows nextAfter to the end. */
  method ReadAll(table: seq<Edge>, parents: seq<string>, floor: int, limit: nat) returns (all: seq<Edge>)
    requires limit > 0
    ensures var whole := Flatten(Listings(table, Unique(parents), floor));
            (all == whole <==> Unsplit(whole, limit)) && Within(all, whole)
  {
    hide Unique, Listings, PageFrom, Remaining, Flatten, Unsplit, Within, Owned;
    ghost var lists := Listings(table, Unique(parents), floor);
    ListingsSorted(table, Unique(parents), floor);
    ListingsOwned(table, Unique(parents), floor);
    PagingExactFor(lists, limit);
    all := [];
    var after: Option<Cursor> := None;
    ghost var whole := AllPages(lists, 0, None, limit);
    ghost var parent: nat, key: Option<Key> := 0, None;
    while true
      invariant after.None? ==> parent == 0 && key.None?
      invariant after.Some? ==> parent == after.value.parentIndex && key == Some(after.value.key)
      invariant all + AllPages(lists, parent, key, limit) == whole
      decreases |Remaining(lists, parent, key)|
    {
      PageIsNext(lists, parent, key, limit);
      var page := GetOutEdgesFromParents(table, parents, floor, limit, after);
      all := all + page.edges;
      if page.next.None? {
        return;
      }
      after := page.next;
      parent, key := after.value.parentIndex, Some(after.value.key);
    }
  }
}
