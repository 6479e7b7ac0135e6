/**
 * Keyset pagination over the out-edges of several parents (store.ts): pages cut by a cursor on
 * amount and target, and when they add up to the whole traversal.
 */
module KeysetPaging {
  import opened Wrappers

  datatype Edge = Edge(from: string, to: string, txid: string, amount: int, outgoing: bool)

  datatype Key = Key(amount: int, to: string)

  datatype Cursor = Cursor(parentIndex: nat, key: Key)

  function KeyOf(e: Edge): Key {
    Key(e.amount, e.to)
  }

  // ---- the order of a page ----------------------------------------------------------------

  /** Texts compared character by character, as SQLite compares them. */
  predicate Less(a: string, b: string) {
    b != [] && (a == [] || a[0] < b[0] || (a[0] == b[0] && Less(a[1..], b[1..])))
  }

  /** Amount descending, then target ascending. */
  predicate Precedes(a: Key, b: Key) {
    a.amount > b.amount || (a.amount == b.amount && Less(a.to, b.to))
  }

  lemma {:induction false} LessOrder(a: string, b: string)
    ensures Less(a, b) ==> !Less(b, a) && a != b
    ensures Less(a, b) || Less(b, a) || a == b
  {
    if a != [] && b != [] {
      LessOrder(a[1..], b[1..]);
      assert a == [a[0]] + a[1..] && b == [b[0]] + b[1..];
    }
  }

  lemma {:induction false} LessTransitive(a: string, b: string, c: string)
    requires Less(a, b) && Less(b, c)
    ensures Less(a, c)
  {
    if a != [] && a[0] == b[0] == c[0] {
      LessTransitive(a[1..], b[1..], c[1..]);
    }
  }

  lemma PrecedesOrder(a: Key, b: Key)
    ensures Precedes(a, b) ==> !Precedes(b, a) && a != b
    ensures Precedes(a, b) || Precedes(b, a) || a == b
  {
    LessOrder(a.to, b.to);
  }

  lemma PrecedesTransitive(a: Key, b: Key, c: Key)
    requires Precedes(a, b) && Precedes(b, c)
    ensures Precedes(a, c)
  {
    if a.amount == b.amount == c.amount {
      LessTransitive(a.to, b.to, c.to);
    }
  }

  /** Not out of order; ties in any order. */
  predicate Sorted(list: seq<Edge>) {
    forall i, j :: 0 <= i < j < |list| ==> !Precedes(KeyOf(list[j]), KeyOf(list[i]))
  }

  /** No two edges share amount and target. */
  predicate NoTies(list: seq<Edge>) {
    forall i, j :: 0 <= i < j < |list| ==> KeyOf(list[i]) != KeyOf(list[j])
  }

  // ---- one query --------------------------------------------------------------------------

  predicate Eligible(parent: string, floor: int, e: Edge) {
    e.from == parent && e.outgoing && (floor > 0 ==> e.amount >= floor)
  }

  /** outEdgeKeysetAfter. */
  predicate After(c: Option<Key>, e: Edge) {
    c.None? || Precedes(c.value, KeyOf(e))
  }

  function Insert(e: Edge, list: seq<Edge>): (r: seq<Edge>)
    ensures |r| == |list| + 1
  {
    if list != [] && Precedes(KeyOf(list[0]), KeyOf(e)) then [list[0]] + Insert(e, list[1..]) else [e] + list
  }

  /** The rows of the table that satisfy the WHERE clause, in the order of the ORDER BY clause. */
  function Select(table: seq<Edge>, parent: string, floor: int, after: Option<Key>): seq<Edge> {
    if table == [] then []
    else
      var rest := Select(table[1..], parent, floor, after);
      if Eligible(parent, floor, table[0]) && After(after, table[0]) then Insert(table[0], rest) else rest
  }

  function Take<T>(s: seq<T>, n: nat): seq<T> {
    if n < |s| then s[..n] else s
  }

  /** The edges of an ordered list that come after a cursor. */
  function Rest(list: seq<Edge>, c: Option<Key>): (r: seq<Edge>)
    ensures |r| <= |list|
    ensures forall e :: e in r ==> e in list && After(c, e)
  {
    if list == [] then [] else if After(c, list[0]) then [list[0]] + Rest(list[1..], c) else Rest(list[1..], c)
  }

  lemma {:induction false} InsertSorted(e: Edge, list: seq<Edge>)
    requires Sorted(list)
    ensures Sorted(Insert(e, list)) && forall x :: x in Insert(e, list) ==> x == e || x in list
  {
    hide Precedes, KeyOf;
    if list != [] {
      PrecedesOrder(KeyOf(list[0]), KeyOf(e));
      if Precedes(KeyOf(list[0]), KeyOf(e)) {
        InsertSorted(e, list[1..]);
        var tail := Insert(e, list[1..]);
        forall j | 0 <= j < |tail| ensures !Precedes(KeyOf(tail[j]), KeyOf(list[0])) {
          assert tail[j] in tail;
          PrecedesOrder(KeyOf(list[0]), KeyOf(e));
        }
      } else {
        forall j | 0 <= j < |list| ensures !Precedes(KeyOf(list[j]), KeyOf(e)) {
          if Precedes(KeyOf(list[j]), KeyOf(e)) && j > 0 {
            SortedTransitive(list, j, e);
          }
        }
      }
    }
  }

  lemma SortedTransitive(list: seq<Edge>, j: nat, e: Edge)
    requires Sorted(list) && j < |list| && Precedes(KeyOf(list[j]), KeyOf(e))
    ensures Precedes(KeyOf(list[0]), KeyOf(e))
  {
    hide Precedes, KeyOf;
    PrecedesOrder(KeyOf(list[0]), KeyOf(list[j]));
    if Precedes(KeyOf(list[0]), KeyOf(list[j])) {
      PrecedesTransitive(KeyOf(list[0]), KeyOf(list[j]), KeyOf(e));
    }
  }

  /** Filtering by the cursor and inserting commute. */
  lemma {:induction false} InsertRest(e: Edge, list: seq<Edge>, c: Option<Key>)
    requires Sorted(list)
    ensures Rest(Insert(e, list), c) == if After(c, e) then Insert(e, Rest(list, c)) else Rest(list, c)
  {
    hide Precedes, KeyOf;
    if list != [] {
      var x := list[0];
      if Precedes(KeyOf(x), KeyOf(e)) {
        InsertRest(e, list[1..], c);
        assert Insert(e, list)[1..] == Insert(e, list[1..]);
        if After(c, x) && c.Some? {
          PrecedesTransitive(c.value, KeyOf(x), KeyOf(e));
        }
      } else {
        assert Insert(e, list)[1..] == list;
        var r := Rest(list, c);
        if r != [] {
          RestFirst(list, c, e);
        }
      }
    }
  }

  lemma RestFirst(list: seq<Edge>, c: Option<Key>, e: Edge)
    requires Sorted(list) && Rest(list, c) != [] && !Precedes(KeyOf(list[0]), KeyOf(e))
    ensures !Precedes(KeyOf(Rest(list, c)[0]), KeyOf(e))
  {
    var y := Rest(list, c)[0];
    assert y in list;
    var j :| 0 <= j < |list| && list[j] == y;
    if Precedes(KeyOf(y), KeyOf(e)) {
      SortedTransitive(list, j, e);
    }
  }

  /** The listing of a parent: every eligible edge, in order. */
  function Listing(table: seq<Edge>, parent: string, floor: int): seq<Edge> {
    Select(table, parent, floor, None)
  }

  /** A query with a cursor returns what the parent's listing has after the cursor. */
  lemma {:induction false} SelectIsRest(table: seq<Edge>, parent: string, floor: int, c: Option<Key>)
    ensures Sorted(Listing(table, parent, floor))
    ensures Select(table, parent, floor, c) == Rest(Listing(table, parent, floor), c)
  {
    hide Precedes, After, Eligible, Sorted;
    if table == [] {
      EmptySorted();
    } else {
      SelectIsRest(table[1..], parent, floor, c);
      var list := Listing(table[1..], parent, floor);
      InsertSorted(table[0], list);
      InsertRest(table[0], list, c);
      AfterNothing(table[0]);
    }
  }

  lemma {:induction false} InsertKeepsRows(e: Edge, list: seq<Edge>)
    ensures multiset(Insert(e, list)) == multiset(list) + multiset{e}
  {
    hide Precedes, KeyOf;
    if list != [] && Precedes(KeyOf(list[0]), KeyOf(e)) {
      InsertKeepsRows(e, list[1..]);
    }
    assert list != [] ==> list == [list[0]] + list[1..];
  }

  /** A query without LIMIT holds every row that it asks for as often as the table does. */
  lemma {:induction false} SelectComplete(table: seq<Edge>, parent: string, floor: int, c: Option<Key>, e: Edge)
    ensures multiset(Select(table, parent, floor, c))[e]
            == if Eligible(parent, floor, e) && After(c, e) then multiset(table)[e] else 0
  {
    hide Eligible, After, Insert;
    if table != [] {
      SelectComplete(table[1..], parent, floor, c, e);
      InsertKeepsRows(table[0], Select(table[1..], parent, floor, c));
      assert table == [table[0]] + table[1..];
    }
  }

  /** A listing holds every eligible row of the table as often as the table does. */
  lemma ListingComplete(table: seq<Edge>, parent: string, floor: int, e: Edge)
    ensures multiset(Listing(table, parent, floor))[e] == if Eligible(parent, floor, e) then multiset(table)[e] else 0
  {
    SelectComplete(table, parent, floor, None, e);
  }

  lemma EmptySorted()
    ensures Sorted([])
  {
  }

  lemma AfterNothing(e: Edge)
    ensures After(None, e)
  {
  }

  // ---- pages ------------------------------------------------------------------------------

  type Lists = seq<seq<Edge>>

  datatype Page = Page(edges: seq<Edge>, next: Option<Cursor>)

  /** getOutEdgesFromParents from a parent and a cursor on, over the parents' listings. */
  function PageFrom(lists: Lists, parent: nat, c: Option<Key>, limit: int): Page
    decreases |lists| - parent
  {
    if parent >= |lists| || limit <= 0 then Page([], None)
    else
      var rows := Take(Rest(lists[parent], c), limit);
      if |rows| < limit then
        var page := PageFrom(lists, parent + 1, None, limit - |rows|);
        Page(rows + page.edges, page.next)
      else Page(rows, Some(Cursor(parent, KeyOf(rows[|rows| - 1]))))
  }

  /** What a traversal has left after a cursor. */
  function Remaining(lists: Lists, parent: nat, c: Option<Key>): seq<Edge>
    decreases |lists| - parent
  {
    if parent >= |lists| then [] else Rest(lists[parent], c) + Remaining(lists, parent + 1, None)
  }

  /** The whole traversal: parents in order, each parent's edges in order. */
  function Flatten(lists: Lists): seq<Edge> {
    if lists == [] then [] else lists[0] + Flatten(lists[1..])
  }

  predicate AllSorted(lists: Lists) {
    forall i :: 0 <= i < |lists| ==> Sorted(lists[i])
  }

  predicate AllTieFree(lists: Lists) {
    forall i :: 0 <= i < |lists| ==> NoTies(lists[i])
  }

  lemma {:induction false} RestAll(list: seq<Edge>)
    ensures Rest(list, None) == list
  {
    if list != [] {
      RestAll(list[1..]);
    }
  }

  /** A later cursor looks at less. */
  lemma {:induction false} RestOfRest(list: seq<Edge>, c: Option<Key>, e: Edge)
    requires After(c, e)
    ensures Rest(list, Some(KeyOf(e))) == Rest(Rest(list, c), Some(KeyOf(e)))
  {
    hide Precedes, KeyOf;
    if list != [] {
      RestOfRest(list[1..], c, e);
      if c.Some? && Precedes(KeyOf(e), KeyOf(list[0])) {
        PrecedesTransitive(c.value, KeyOf(e), KeyOf(list[0]));
      }
    }
  }

  lemma {:induction false} RestSorted(list: seq<Edge>, c: Option<Key>)
    requires Sorted(list)
    ensures Sorted(Rest(list, c)) && (NoTies(list) ==> NoTies(Rest(list, c)))
  {
    hide Precedes, KeyOf, After;
    if list != [] {
      RestSorted(list[1..], c);
      KeptInFront(list, Rest(list[1..], c));
    }
  }

  /** Some of the later edges, put behind the first one again. */
  lemma KeptInFront(list: seq<Edge>, kept: seq<Edge>)
    requires list != [] && Sorted(list) && Sorted(kept) && (NoTies(list[1..]) ==> NoTies(kept))
    requires forall e :: e in kept ==> e in list[1..]
    ensures Sorted([list[0]] + kept) && (NoTies(list) ==> NoTies([list[0]] + kept))
  {
    hide Precedes, KeyOf;
    forall j | 0 <= j < |kept| ensures exists i :: 1 <= i < |list| && list[i] == kept[j] {
      assert kept[j] in list[1..];
    }
  }

  /** The edge a cursor names is behind it, so something is always consumed. */
  lemma {:induction false} RestShrinks(list: seq<Edge>, i: nat)
    requires Sorted(list) && i < |list|
    ensures |Rest(list, Some(KeyOf(list[i])))| <= |list| - 1 - i
    ensures NoTies(list) ==> Rest(list, Some(KeyOf(list[i]))) == list[i + 1..]
  {
    hide Precedes, KeyOf;
    var e := list[i];
    PrecedesOrder(KeyOf(e), KeyOf(list[0]));
    if i > 0 {
      RestShrinks(list[1..], i - 1);
      assert list[1..][i - 1] == e && list[1..][i..] == list[i + 1..];
    } else if |list| > 1 {
      RestTail(list[1..], e);
    }
  }

  lemma {:induction false} RestTail(list: seq<Edge>, e: Edge)
    requires forall j :: 0 <= j < |list| ==> !Precedes(KeyOf(list[j]), KeyOf(e))
    ensures |Rest(list, Some(KeyOf(e)))| <= |list|
    ensures (forall j :: 0 <= j < |list| ==> KeyOf(list[j]) != KeyOf(e)) ==> Rest(list, Some(KeyOf(e))) == list
  {
    hide Precedes, KeyOf;
    if list != [] {
      PrecedesOrder(KeyOf(e), KeyOf(list[0]));
      RestTail(list[1..], e);
    }
  }

  // ---- following the cursor ---------------------------------------------------------------

  /** A page is the next `limit` edges; a cursor is handed out when there were that many. */
  ghost predicate IsNextPage(lists: Lists, left: seq<Edge>, limit: nat, page: Page) {
    && page.edges == Take(left, limit)
    && (page.next.None? <==> |left| < limit)
    && (page.next.Some? ==>
          var rest := Remaining(lists, page.next.value.parentIndex, Some(page.next.value.key));
          |rest| <= |left| - limit && (AllTieFree(lists) ==> rest == left[limit..]))
  }

  /** A parent with enough edges fills the page. */
  lemma PageFills(lists: Lists, parent: nat, c: Option<Key>, limit: nat)
    requires AllSorted(lists) && limit > 0 && parent < |lists| && |Rest(lists[parent], c)| >= limit
    ensures IsNextPage(lists, Remaining(lists, parent, c), limit, PageFrom(lists, parent, c, limit))
  {
    hide Rest, Sorted, NoTies, KeyOf;
    var list, tail := Rest(lists[parent], c), Remaining(lists, parent + 1, None);
    RestSorted(lists[parent], c);
    var last := list[limit - 1];
    assert last in list;
    RestOfRest(lists[parent], c, last);
    RestShrinks(list, limit - 1);
    assert Take(list, limit) == Take(list + tail, limit) && Take(list, limit)[limit - 1] == last;
    assert (list + tail)[limit..] == list[limit..] + tail;
  }

  /** A parent with too few edges is followed by a page of the rest. */
  lemma PageContinues(lists: Lists, list: seq<Edge>, tail: seq<Edge>, limit: nat, page: Page)
    requires |list| < limit && IsNextPage(lists, tail, limit - |list|, page)
    ensures IsNextPage(lists, list + tail, limit, Page(list + page.edges, page.next))
  {
    hide Remaining, AllTieFree;
    assert Take(list + tail, limit) == list + Take(tail, limit - |list|);
    assert |list + tail| >= limit ==> (list + tail)[limit..] == tail[limit - |list|..];
  }

  lemma PageAtEnd(lists: Lists, limit: nat)
    requires limit > 0
    ensures IsNextPage(lists, [], limit, Page([], None))
  {
  }

  lemma {:induction false} PageIsNext(lists: Lists, parent: nat, c: Option<Key>, limit: nat)
    requires AllSorted(lists) && limit > 0
    ensures IsNextPage(lists, Remaining(lists, parent, c), limit, PageFrom(lists, parent, c, limit))
    decreases |lists| - parent
  {
    hide Rest, AllSorted, IsNextPage;
    if parent >= |lists| {
      PageAtEnd(lists, limit);
    } else {
      var list, tail := Rest(lists[parent], c), Remaining(lists, parent + 1, None);
      if |list| < limit {
        assert Take(list, limit) == list;
        PageIsNext(lists, parent + 1, None, limit - |list|);
        PageContinues(lists, list, tail, limit, PageFrom(lists, parent + 1, None, limit - |list|));
      } else {
        PageFills(lists, parent, c, limit);
      }
    }
  }

  /** The concatenation of all pages from a cursor on. */
  function AllPages(lists: Lists, parent: nat, c: Option<Key>, limit: nat): seq<Edge>
    requires AllSorted(lists) && limit > 0
    decreases |Remaining(lists, parent, c)|
  {
    PageIsNext(lists, parent, c, limit);
    var page := PageFrom(lists, parent, c, limit);
    if page.next.None? then page.edges
    else page.edges + AllPages(lists, page.next.value.parentIndex, Some(page.next.value.key), limit)
  }

  lemma {:induction false} PagesAreRemaining(lists: Lists, parent: nat, c: Option<Key>, limit: nat)
    requires AllSorted(lists) && AllTieFree(lists) && limit > 0
    ensures AllPages(lists, parent, c, limit) == Remaining(lists, parent, c)
    decreases |Remaining(lists, parent, c)|
  {
    hide PageFrom, Remaining;
    PageIsNext(lists, parent, c, limit);
    var page := PageFrom(lists, parent, c, limit);
    if page.next.Some? {
      PagesAreRemaining(lists, page.next.value.parentIndex, Some(page.next.value.key), limit);
    }
  }

  lemma {:induction false} RemainingIsFlatten(lists: Lists, parent: nat)
    requires parent <= |lists|
    ensures Remaining(lists, parent, None) == Flatten(lists[parent..])
    decreases |lists| - parent
  {
    if parent < |lists| {
      RestAll(lists[parent]);
      RemainingIsFlatten(lists, parent + 1);
      assert lists[parent..][1..] == lists[parent + 1..];
    }
  }

  /** Without ties, pages of any size make up the whole traversal. */
  lemma PagesAreWhole(lists: Lists, limit: nat)
    requires AllSorted(lists) && AllTieFree(lists) && limit > 0
    ensures AllPages(lists, 0, None, limit) == Flatten(lists)
  {
    PagesAreRemaining(lists, 0, None, limit);
    RemainingIsFlatten(lists, 0);
    assert lists[0..] == lists;
  }

  // ---- ties -------------------------------------------------------------------------------

  lemma {:induction false} PagesBounded(lists: Lists, parent: nat, c: Option<Key>, limit: nat)
    requires AllSorted(lists) && limit > 0
    ensures |AllPages(lists, parent, c, limit)| <= |Remaining(lists, parent, c)|
    decreases |Remaining(lists, parent, c)|
  {
    hide PageFrom, Remaining;
    PageIsNext(lists, parent, c, limit);
    var page := PageFrom(lists, parent, c, limit);
    if page.next.Some? {
      PagesBounded(lists, page.next.value.parentIndex, Some(page.next.value.key), limit);
    }
  }

  ghost predicate TieAhead(lists: Lists, parent: nat, c: Option<Key>) {
    || (parent < |lists| && !NoTies(Rest(lists[parent], c)))
    || exists q :: parent < q < |lists| && !NoTies(lists[q])
  }

  /** Behind the first of two tied edges, the other one is gone. */
  lemma TieBehindCursor(list: seq<Edge>)
    requires Sorted(list) && !NoTies(list)
    ensures |list| >= 2
    ensures var rest := Rest(list, Some(KeyOf(list[0])));
            |rest| <= |list| - 2 || (|rest| == |list| - 1 && !NoTies(rest))
  {
    hide Precedes, KeyOf;
    var i, j :| 0 <= i < j < |list| && KeyOf(list[i]) == KeyOf(list[j]);
    PrecedesOrder(KeyOf(list[0]), KeyOf(list[0]));
    assert Rest(list, Some(KeyOf(list[0]))) == Rest(list[1..], Some(KeyOf(list[0])));
    if KeyOf(list[0]) == KeyOf(list[1]) {
      RestShrinks(list[1..], 0);
    } else {
      forall k | 1 <= k < |list| ensures KeyOf(list[k]) != KeyOf(list[0]) {
        PrecedesOrder(KeyOf(list[0]), KeyOf(list[1]));
      }
      RestTail(list[1..], list[0]);
      assert list[1..][i - 1] == list[i] && list[1..][j - 1] == list[j];
    }
  }

  /** With pages of one, a parent without edges left is passed over. */
  lemma PagesSkip(lists: Lists, parent: nat, c: Option<Key>)
    requires AllSorted(lists) && parent < |lists| && Rest(lists[parent], c) == []
    ensures AllPages(lists, parent, c, 1) == AllPages(lists, parent + 1, None, 1)
    ensures Remaining(lists, parent, c) == Remaining(lists, parent + 1, None)
  {
    hide Rest, AllSorted, IsNextPage;
    assert Take(Rest(lists[parent], c), 1) == [];
    assert PageFrom(lists, parent, c, 1) == PageFrom(lists, parent + 1, None, 1);
  }

  /** Otherwise the page is the first edge, and paging goes on behind it. */
  lemma PagesAdvance(lists: Lists, parent: nat, c: Option<Key>)
    requires AllSorted(lists) && parent < |lists| && Rest(lists[parent], c) != []
    ensures var list := Rest(lists[parent], c);
            var key := Some(KeyOf(list[0]));
            && AllPages(lists, parent, c, 1) == [list[0]] + AllPages(lists, parent, key, 1)
            && Remaining(lists, parent, c) == list + Remaining(lists, parent + 1, None)
            && Remaining(lists, parent, key) == Rest(list, key) + Remaining(lists, parent + 1, None)
  {
    hide Rest, Sorted, IsNextPage, KeyOf;
    var list := Rest(lists[parent], c);
    RestSorted(lists[parent], c);
    assert list[0] in list;
    RestOfRest(lists[parent], c, list[0]);
    assert Take(list, 1) == [list[0]];
  }

  lemma {:induction false} TieLosesEdge(lists: Lists, parent: nat, c: Option<Key>)
    requires AllSorted(lists) && TieAhead(lists, parent, c)
    ensures |AllPages(lists, parent, c, 1)| < |Remaining(lists, parent, c)|
    decreases |Remaining(lists, parent, c)|, |lists| - parent
  {
    hide AllPages, Remaining, Rest, Sorted, NoTies, KeyOf, PageFrom;
    var list := Rest(lists[parent], c);
    if list == [] {
      TieFree([]);
      PagesSkip(lists, parent, c);
      var q :| parent < q < |lists| && !NoTies(lists[q]);
      RestAll(lists[parent + 1]);
      TieLosesEdge(lists, parent + 1, None);
    } else {
      var key := Some(KeyOf(list[0]));
      RestSorted(lists[parent], c);
      assert list[0] in list;
      RestOfRest(lists[parent], c, list[0]);
      PagesAdvance(lists, parent, c);
      PagesBounded(lists, parent, key, 1);
      RestShrinks(list, 0);
      if !NoTies(list) {
        TieBehindCursor(list);
        if |Rest(list, key)| == |list| - 1 {
          TieLosesEdge(lists, parent, key);
        }
      } else {
        TieLosesEdge(lists, parent, key);
      }
    }
  }

  lemma TieFree(list: seq<Edge>)
    requires |list| <= 1
    ensures NoTies(list)
  {
  }

  /** Paging returns the whole traversal for every page size exactly when no parent has a tie. */
  lemma PagingExact(lists: Lists)
    requires AllSorted(lists)
    ensures (forall limit: nat :: limit > 0 ==> AllPages(lists, 0, None, limit) == Flatten(lists))
            <==> AllTieFree(lists)
  {
    if AllTieFree(lists) {
      forall limit: nat | limit > 0 ensures AllPages(lists, 0, None, limit) == Flatten(lists) {
        PagesAreWhole(lists, limit);
      }
    } else {
      var q :| 0 <= q < |lists| && !NoTies(lists[q]);
      RestAll(lists[0]);
      assert TieAhead(lists, 0, None);
      TieLosesEdge(lists, 0, None);
      RemainingIsFlatten(lists, 0);
      assert lists[0..] == lists;
      assert AllPages(lists, 0, None, 1) != Flatten(lists);
    }
  }

  // ---- what a page is, in terms of amounts and characters ----------------------------------

  /** The first k characters agree; there a ends or has the smaller character. */
  predicate SmallerAt(a: string, b: string, k: nat) {
    k <= |a| && k < |b| && a[..k] == b[..k] && (k == |a| || a[k] < b[k])
  }

  ghost predicate Earlier(a: string, b: string) {
    exists k: nat :: SmallerAt(a, b, k)
  }

  lemma FirstAgrees(a: string, b: string, k: nat)
    requires SmallerAt(a, b, k) && k > 0
    ensures a[0] == b[0]
  {
    assert a[..k][0] == a[0] && b[..k][0] == b[0];
  }

  lemma {:induction false} LessIsEarlier(a: string, b: string)
    ensures Less(a, b) <==> Earlier(a, b)
  {
    if a == [] || b == [] || a[0] != b[0] {
      if Less(a, b) {
        assert SmallerAt(a, b, 0);
      }
      if k: nat :| SmallerAt(a, b, k) && k > 0 {
        FirstAgrees(a, b, k);
      }
    } else {
      LessIsEarlier(a[1..], b[1..]);
      if k: nat :| SmallerAt(a[1..], b[1..], k) {
        assert a[..k + 1] == [a[0]] + a[1..][..k] && b[..k + 1] == [b[0]] + b[1..][..k];
        assert SmallerAt(a, b, k + 1);
      }
      if k: nat :| SmallerAt(a, b, k) {
        assert k > 0;
        assert a[1..][..k - 1] == a[..k][1..] && b[1..][..k - 1] == b[..k][1..];
        assert SmallerAt(a[1..], b[1..], k - 1);
      }
    }
  }

  /** Amounts descend; among equal amounts, targets do not. */
  ghost predicate InOrder(e: Edge, f: Edge) {
    e.amount > f.amount || (e.amount == f.amount && !Earlier(f.to, e.to))
  }

  /** An outgoing edge of the parent, not below the floor, behind the cursor. */
  ghost predicate Asked(e: Edge, parent: string, floor: int, after: Option<Key>) {
    && e.from == parent && e.outgoing && (floor <= 0 || e.amount >= floor)
    && (after.Some? ==>
          e.amount < after.value.amount || (e.amount == after.value.amount && Earlier(after.value.to, e.to)))
  }

  lemma AskedExact(e: Edge, parent: string, floor: int, after: Option<Key>)
    ensures Asked(e, parent, floor, after) <==> Eligible(parent, floor, e) && After(after, e)
  {
    if after.Some? {
      LessIsEarlier(after.value.to, e.to);
    }
    hide Less, Earlier;
  }

  lemma InOrderExact(e: Edge, f: Edge)
    ensures InOrder(e, f) <==> !Precedes(KeyOf(f), KeyOf(e))
  {
    LessIsEarlier(f.to, e.to);
    hide Less, Earlier;
  }

  /**
   * ORDER BY ... LIMIT: rows that are asked for, in order, no more than the limit; a row that is
   * asked for and left out finds the page full, and comes after every row of it.
   */
  ghost predicate IsPage(table: seq<Edge>, parent: string, floor: int, after: Option<Key>, limit: nat,
                         rows: seq<Edge>)
  {
    && |rows| <= limit
    && (forall e :: multiset(rows)[e] <= if Asked(e, parent, floor, after) then multiset(table)[e] else 0)
    && AllInOrder(rows)
    && forall e :: Asked(e, parent, floor, after) && multiset(rows)[e] < multiset(table)[e] ==>
         |rows| == limit && forall i :: 0 <= i < |rows| ==> InOrder(rows[i], e)
  }

  lemma TakenRows<T>(s: seq<T>, n: nat)
    ensures multiset(s) == multiset(Take(s, n)) + multiset(s[|Take(s, n)|..])
    ensures |Take(s, n)| == if n < |s| then n else |s|
    ensures forall i :: 0 <= i < |Take(s, n)| ==> Take(s, n)[i] == s[i]
  {
    var k := |Take(s, n)|;
    assert s == s[..k] + s[k..] && Take(s, n) == s[..k];
  }

  lemma SelectInOrder(table: seq<Edge>, parent: string, floor: int, after: Option<Key>)
    ensures AllInOrder(Select(table, parent, floor, after))
  {
    hide Precedes, KeyOf, After, Eligible, InOrder, Select, Rest, Listing;
    var all := Select(table, parent, floor, after);
    SelectIsRest(table, parent, floor, after);
    RestSorted(Listing(table, parent, floor), after);
    forall i, j | 0 <= i < j < |all| ensures InOrder(all[i], all[j]) {
      InOrderExact(all[i], all[j]);
    }
  }

  ghost predicate AllInOrder(rows: seq<Edge>) {
    forall i, j :: 0 <= i < j < |rows| ==> InOrder(rows[i], rows[j])
  }

  /** A row of which some are cut off comes after those that are not. */
  lemma CutOff(all: seq<Edge>, limit: nat, e: Edge)
    requires AllInOrder(all)
    requires multiset(Take(all, limit))[e] < multiset(all)[e]
    ensures var rows := Take(all, limit);
            |rows| == limit && forall i :: 0 <= i < |rows| ==> InOrder(rows[i], e)
  {
    hide InOrder, Take;
    TakenRows(all, limit);
    var rows := Take(all, limit);
    var left := all[|rows|..];
    assert e in left;
    var k :| 0 <= k < |left| && left[k] == e;
    assert e == all[|rows| + k];
  }

  lemma QueryIsPage(table: seq<Edge>, parent: string, floor: int, after: Option<Key>, limit: nat)
    ensures IsPage(table, parent, floor, after, limit, Take(Select(table, parent, floor, after), limit))
  {
    hide After, Eligible, Asked, InOrder, Select, Take;
    var all := Select(table, parent, floor, after);
    SelectInOrder(table, parent, floor, after);
    TakenRows(all, limit);
    forall e
      ensures multiset(all)[e] == if Asked(e, parent, floor, after) then multiset(table)[e] else 0
    {
      SelectComplete(table, parent, floor, after, e);
      AskedExact(e, parent, floor, after);
    }
    forall e | multiset(Take(all, limit))[e] < multiset(all)[e] {
      CutOff(all, limit, e);
    }
  }

  /** Where a query for the q-th parent begins when the traversal goes on from a parent and a key. */
  function CursorAt(q: nat, parent: nat, c: Option<Key>): Option<Key> {
    if q == parent then c else None
  }

  /** The position of a name, or the length when it is missing. */
  function IndexOf(names: seq<string>, name: string): (k: nat)
    ensures k <= |names| && (k < |names| ==> names[k] == name) && name !in names[..k]
  {
    if names == [] || names[0] == name then 0 else 1 + IndexOf(names[1..], name)
  }

  /** Rows behind the cursor, parent by parent, in order within each. */
  ghost predicate Traverses(parents: seq<string>, floor: int, parent: nat, c: Option<Key>, rows: seq<Edge>) {
    && (forall i :: 0 <= i < |rows| ==>
          var q := IndexOf(parents, rows[i].from);
          parent <= q < |parents| && Asked(rows[i], parents[q], floor, CursorAt(q, parent, c)))
    && forall i, j :: 0 <= i < j < |rows| ==>
         && IndexOf(parents, rows[i].from) <= IndexOf(parents, rows[j].from)
         && (rows[i].from == rows[j].from ==> InOrder(rows[i], rows[j]))
  }

  predicate AllDistinct(parents: seq<string>) {
    forall i, j :: 0 <= i < j < |parents| ==> parents[i] != parents[j]
  }

  lemma {:induction false} IndexOfAt(parents: seq<string>, k: nat)
    requires AllDistinct(parents) && k < |parents|
    ensures IndexOf(parents, parents[k]) == k
  {
    if k > 0 {
      assert parents[0] != parents[k];
      IndexOfAt(parents[1..], k - 1);
    }
  }

  lemma QueryTraverses(table: seq<Edge>, parents: seq<string>, floor: int, parent: nat, c: Option<Key>, limit: nat)
    requires AllDistinct(parents) && parent < |parents|
    ensures var rows := Take(Rest(Listing(table, parents[parent], floor), c), limit);
            && Traverses(parents, floor, parent, c, rows)
            && forall i :: 0 <= i < |rows| ==> rows[i].from == parents[parent]
  {
    hide Rest, Listing, Take, InOrder, Select, IndexOf;
    SelectIsRest(table, parents[parent], floor, c);
    QueryIsPage(table, parents[parent], floor, c, limit);
    IndexOfAt(parents, parent);
    var rows := Take(Rest(Listing(table, parents[parent], floor), c), limit);
    forall i | 0 <= i < |rows| ensures Asked(rows[i], parents[parent], floor, c) {
      assert rows[i] in rows;
      assert multiset(rows)[rows[i]] > 0;
    }
  }

  /** A later parent's rows follow. */
  lemma TraversesOn(parents: seq<string>, floor: int, parent: nat, c: Option<Key>, rows: seq<Edge>, more: seq<Edge>)
    requires AllDistinct(parents) && parent < |parents|
    requires Traverses(parents, floor, parent, c, rows) && Traverses(parents, floor, parent + 1, None, more)
    requires forall i :: 0 <= i < |rows| ==> rows[i].from == parents[parent]
    ensures Traverses(parents, floor, parent, c, rows + more)
  {
    hide InOrder, Asked, IndexOf;
    IndexOfAt(parents, parent);
  }

  lemma NothingTraversed(parents: seq<string>, floor: int, parent: nat, c: Option<Key>)
    ensures Traverses(parents, floor, parent, c, [])
  {
  }

  lemma {:induction false} PageTraverses(table: seq<Edge>, parents: seq<string>, floor: int, parent: nat,
                                         c: Option<Key>, limit: int)
    requires AllDistinct(parents)
    ensures Traverses(parents, floor, parent, c, PageFrom(Listings(table, parents, floor), parent, c, limit).edges)
    decreases |parents| - parent
  {
    hide Rest, Listing, Take, Traverses, AllDistinct;
    var lists := Listings(table, parents, floor);
    PageUnfold(lists, parent, c, limit);
    if parent >= |lists| || limit <= 0 {
      NothingTraversed(parents, floor, parent, c);
    } else {
      var rows := Take(Rest(lists[parent], c), limit);
      QueryTraverses(table, parents, floor, parent, c, limit);
      if |rows| < limit {
        PageTraverses(table, parents, floor, parent + 1, None, limit - |rows|);
        TraversesOn(parents, floor, parent, c, rows, PageFrom(lists, parent + 1, None, limit - |rows|).edges);
      }
    }
  }

  // ---- the programs -----------------------------------------------------------------------

  /** [...new Set(parents)].filter(Boolean): first occurrences, empty names dropped. */
  function Unique(parents: seq<string>): (r: seq<string>)
    ensures forall p :: p in r <==> p in parents && p != ""
    ensures forall i, j :: 0 <= i < j < |r| ==> r[i] != r[j]
  {
    if parents == [] then []
    else
      var front, last := Unique(parents[..|parents| - 1]), parents[|parents| - 1];
      if last == "" || last in front then front else front + [last]
  }

  /** The parents keep the order of their first occurrences. */
  lemma {:induction false} UniqueInOrder(parents: seq<string>, i: nat, j: nat)
    requires i < j < |Unique(parents)|
    ensures exists k :: 0 <= k < |parents| && parents[k] == Unique(parents)[i]
                        && Unique(parents)[j] !in parents[..k + 1]
  {
    var n := |parents| - 1;
    var front := Unique(parents[..n]);
    if j < |front| {
      UniqueInOrder(parents[..n], i, j);
      var k :| 0 <= k < n && parents[..n][k] == front[i] && front[j] !in parents[..n][..k + 1];
      assert parents[..n][..k + 1] == parents[..k + 1];
    } else {
      assert front[i] in front;
      var k :| 0 <= k < n && parents[..n][k] == front[i];
      assert parents[..k + 1] == parents[..n][..k + 1];
      assert parents[n] !in parents[..n] by {
        assert parents[n] != "" && parents[n] !in front;
      }
    }
  }

  function Listings(table: seq<Edge>, parents: seq<string>, floor: int): (r: Lists)
    ensures |r| == |parents|
    ensures forall i :: 0 <= i < |parents| ==> r[i] == Listing(table, parents[i], floor)
  {
    seq(|parents|, i requires 0 <= i < |parents| => Listing(table, parents[i], floor))
  }

  lemma ListingsSorted(table: seq<Edge>, parents: seq<string>, floor: int)
    ensures AllSorted(Listings(table, parents, floor))
  {
    forall i | 0 <= i < |parents| ensures Sorted(Listing(table, parents[i], floor)) {
      SelectIsRest(table, parents[i], floor, None);
    }
  }

  method GetOutEdgesFromAddress(table: seq<Edge>, parent: string, floor: int, limit: nat, after: Option<Key>)
    returns (rows: seq<Edge>)
    ensures rows == Take(Rest(Listing(table, parent, floor), after), limit)
    ensures IsPage(table, parent, floor, after, limit, rows)
  {
    hide Rest, Listing, IsPage;
    SelectIsRest(table, parent, floor, after);
    QueryIsPage(table, parent, floor, after, limit);
    rows := Take(Select(table, parent, floor, after), limit);
  }

  lemma TakeBound<T>(s: seq<T>, n: nat)
    ensures |Take(s, n)| <= n
  {
  }

  lemma PageUnfold(lists: Lists, parent: nat, c: Option<Key>, limit: int)
    ensures PageFrom(lists, parent, c, limit) ==
            if parent >= |lists| || limit <= 0 then Page([], None)
            else
              var rows := Take(Rest(lists[parent], c), limit);
              if |rows| < limit then
                var page := PageFrom(lists, parent + 1, None, limit - |rows|);
                Page(rows + page.edges, page.next)
              else Page(rows, Some(Cursor(parent, KeyOf(rows[|rows| - 1]))))
  {
  }

  method GetOutEdgesFromParents(table: seq<Edge>, parents: seq<string>, floor: int, limit: int, after: Option<Cursor>)
    returns (page: Page)
    ensures var lists := Listings(table, Unique(parents), floor);
            page == if after.None? then PageFrom(lists, 0, None, limit)
                    else PageFrom(lists, after.value.parentIndex, Some(after.value.key), limit)
    ensures Traverses(Unique(parents), floor, if after.Some? then after.value.parentIndex else 0,
                      if after.Some? then Some(after.value.key) else None, page.edges)
  {
    hide Rest, Listing, Unique, PageFrom, Take, Traverses, IsPage;
    var unique := Unique(parents);
    ghost var lists := Listings(table, unique, floor);
    var result: seq<Edge> := [];
    var parentIndex: nat := if after.Some? then after.value.parentIndex else 0;
    var edgeAfter := if after.Some? then Some(after.value.key) else None;
    ghost var whole := PageFrom(lists, parentIndex, edgeAfter, limit);
    PageTraverses(table, unique, floor, parentIndex, edgeAfter, limit);
    while parentIndex < |unique| && |result| < limit
      invariant limit <= 0 ==> result == []
      invariant limit > 0 ==> |result| <= limit
      invariant var more := PageFrom(lists, parentIndex, edgeAfter, limit - |result|);
                whole == Page(result + more.edges, more.next)
    {
      var remaining := limit - |result|;
      PageUnfold(lists, parentIndex, edgeAfter, remaining);
      var rows := GetOutEdgesFromAddress(table, unique[parentIndex], floor, remaining, edgeAfter);
      result := result + rows;
      assert |rows| <= remaining by {
        TakeBound(Rest(Listing(table, unique[parentIndex], floor), edgeAfter), remaining);
      }
      if |rows| < remaining {
        parentIndex := parentIndex + 1;
        edgeAfter := None;
      } else {
        return Page(result, Some(Cursor(parentIndex, KeyOf(rows[|rows| - 1]))));
      }
    }
    PageUnfold(lists, parentIndex, edgeAfter, limit - |result|);
    page := Page(result, None);
  }
}
