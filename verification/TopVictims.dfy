/**
 * The largest victims of a hacker (store.ts): three ways to find them, one meaning. A query
 * with ORDER BY ... DESC LIMIT is known only by its contract, so ties may fall either way.
 */
module TopVictims {
  import opened Wrappers
  import opened LedgerTable
  import opened EdgeBatch

  // ---- ORDER BY ... DESC LIMIT -------------------------------------------------------------

  ghost predicate TopRows<K(!new)>(table: map<K, int>, limit: nat, rows: seq<K>) {
    && |rows| == Min(limit, |table|)
    && (forall i :: 0 <= i < |rows| ==> rows[i] in table)
    && (forall i, j :: 0 <= i < j < |rows| ==> rows[i] != rows[j] && table[rows[i]] >= table[rows[j]])
    && forall i, k :: 0 <= i < |rows| && k in table && k !in rows ==> table[rows[i]] >= table[k]
  }

  method LargestKey<K(!new)>(table: map<K, int>, keys: set<K>) returns (best: K)
    requires keys != {} && keys <= table.Keys
    ensures best in keys && forall k :: k in keys ==> table[best] >= table[k]
  {
    best :| best in keys;
    var rest := keys - {best};
    while rest != {}
      invariant rest <= keys && best in keys
      invariant forall k :: k in keys - rest ==> table[best] >= table[k]
    {
      var k :| k in rest;
      if table[k] > table[best] {
        best := k;
      }
      rest := rest - {k};
    }
  }

  method SelectTop<K(!new)>(table: map<K, int>, limit: nat) returns (rows: seq<K>)
    ensures TopRows(table, limit, rows)
  {
    rows := [];
    var rest := table.Keys;
    while |rows| < limit && rest != {}
      invariant |rows| <= limit && rest <= table.Keys && |rows| + |rest| == |table|
      invariant forall k :: k in table <==> k in rest || k in rows
      invariant forall i :: 0 <= i < |rows| ==> rows[i] in table && rows[i] !in rest
      invariant forall i, j :: 0 <= i < j < |rows| ==> rows[i] != rows[j] && table[rows[i]] >= table[rows[j]]
      invariant forall i, k :: 0 <= i < |rows| && k in rest ==> table[rows[i]] >= table[k]
      decreases |rest|
    {
      var k := LargestKey(table, rest);
      rows := rows + [k];
      rest := rest - {k};
    }
  }

  // ---- the meaning ------------------------------------------------------------------------

  predicate Eligible(edges: Edges, hacker: string, floor: Option<int>, k: EdgeKey) {
    && k in edges && edges[k].direction.InToHacker? && k.to == hacker
    && (floor.Some? ==> edges[k].amount >= floor.value)
  }

  function Inbound(edges: Edges, hacker: string, floor: Option<int>): map<EdgeKey, int> {
    map k | k in edges && Eligible(edges, hacker, floor, k) :: edges[k].amount
  }

  function Victims(edges: Edges, hacker: string, floor: Option<int>): set<string> {
    set k | k in Inbound(edges, hacker, floor) :: k.from
  }

  /** The largest payment of v is at least that of w. */
  ghost predicate Beats(edges: Edges, hacker: string, floor: Option<int>, v: string, w: string) {
    forall k :: Eligible(edges, hacker, floor, k) && k.from == w ==>
      exists k' :: Eligible(edges, hacker, floor, k') && k'.from == v && edges[k'].amount >= edges[k].amount
  }

  /** As many victims as there are, up to the limit, none of them beaten by one left out. */
  ghost predicate IsTop(edges: Edges, hacker: string, floor: Option<int>, limit: nat, s: set<string>) {
    var victims := Victims(edges, hacker, floor);
    && s <= victims && |s| == Min(limit, |victims|)
    && forall v, w :: v in s && w in victims - s ==> Beats(edges, hacker, floor, v, w)
  }

  /** The edge is a payment of v to the hacker, not below the floor. */
  predicate Pays(edges: Edges, hacker: string, floor: Option<int>, k: EdgeKey, v: string) {
    && k in edges && edges[k].direction == InToHacker && k.to == hacker && k.from == v
    && (floor.None? || edges[k].amount >= floor.value)
  }

  ghost predicate IsPayer(edges: Edges, hacker: string, floor: Option<int>, v: string) {
    exists k :: Pays(edges, hacker, floor, k, v)
  }

  /** Every payment of w is matched by a payment of v that is as large. */
  ghost predicate Matches(edges: Edges, hacker: string, floor: Option<int>, v: string, w: string) {
    forall k :: Pays(edges, hacker, floor, k, w) ==>
      exists k' :: Pays(edges, hacker, floor, k', v) && edges[k'].amount >= edges[k].amount
  }

  /** A top set: payers only, as many as asked for or all, and none left out has paid more at once. */
  lemma TopMeans(edges: Edges, hacker: string, floor: Option<int>, limit: nat, s: set<string>)
    ensures IsTop(edges, hacker, floor, limit, s) <==>
            && (forall v :: v in s ==> IsPayer(edges, hacker, floor, v))
            && |s| <= limit && (|s| < limit ==> forall v :: IsPayer(edges, hacker, floor, v) ==> v in s)
            && forall v, w :: v in s && w !in s ==> Matches(edges, hacker, floor, v, w)
  {
    hide IsPayer, Matches, Beats, Victims;
    var victims := Victims(edges, hacker, floor);
    forall v { VictimPays(edges, hacker, floor, v); }
    forall v, w { BeatsMatches(edges, hacker, floor, v, w); }
    NobodyLeft(edges, hacker, floor);
    if s <= victims {
      SubsetCount(s, victims);
      if victims <= s {
        assert victims == s;
      }
    }
  }

  lemma VictimPays(edges: Edges, hacker: string, floor: Option<int>, v: string)
    ensures v in Victims(edges, hacker, floor) <==> IsPayer(edges, hacker, floor, v)
  {
    if k :| Pays(edges, hacker, floor, k, v) {
      assert k in Inbound(edges, hacker, floor);
    }
    if k :| k in Inbound(edges, hacker, floor) && k.from == v {
      assert Pays(edges, hacker, floor, k, v);
    }
  }

  lemma NobodyLeft(edges: Edges, hacker: string, floor: Option<int>)
    ensures forall v, w :: !IsPayer(edges, hacker, floor, w) ==> Matches(edges, hacker, floor, v, w)
  {
  }

  lemma BeatsMatches(edges: Edges, hacker: string, floor: Option<int>, v: string, w: string)
    ensures Beats(edges, hacker, floor, v, w) <==> Matches(edges, hacker, floor, v, w)
  {
    assert forall k :: Pays(edges, hacker, floor, k, w) <==> Eligible(edges, hacker, floor, k) && k.from == w;
    assert forall k :: Pays(edges, hacker, floor, k, v) <==> Eligible(edges, hacker, floor, k) && k.from == v;
  }

  // ---- the three programs -----------------------------------------------------------------

  lemma SubsetCount(a: set<string>, b: set<string>)
    requires a <= b
    ensures |a| <= |b| && (|a| == |b| ==> a == b)
  {
    assert |b| == |a| + |b - a| by {
      assert b == a + (b - a);
    }
  }

  lemma PrefixIsTop(edges: Edges, hacker: string, floor: Option<int>, fetch: nat, rows: seq<EdgeKey>, n: nat,
                    out: set<string>)
    requires TopRows(Inbound(edges, hacker, floor), fetch, rows) && n < |rows|
    requires out == set i | 0 <= i <= n :: rows[i].from
    ensures IsTop(edges, hacker, floor, |out|, out)
  {
    var table := Inbound(edges, hacker, floor);
    forall v | v in out ensures v in Victims(edges, hacker, floor) {
      var i :| 0 <= i <= n && rows[i].from == v;
      assert rows[i] in table;
    }
    SubsetCount(out, Victims(edges, hacker, floor));
    forall v, w | v in out && w !in out ensures Beats(edges, hacker, floor, v, w) {
      var i :| 0 <= i <= n && rows[i].from == v;
      assert rows[i] in table;
      forall k | Eligible(edges, hacker, floor, k) && k.from == w
        ensures Eligible(edges, hacker, floor, rows[i]) && edges[rows[i]].amount >= edges[k].amount
      {
        assert k in table;
        if j :| 0 <= j < |rows| && rows[j] == k {
          assert rows[j].from !in out;
        }
      }
    }
  }

  /** Walking rows in descending order, the first distinct victims are the largest. */
  method FirstDistinct(edges: Edges, hacker: string, floor: Option<int>, limit: nat, fetch: nat, rows: seq<EdgeKey>)
    returns (out: set<string>)
    requires limit > 0 && TopRows(Inbound(edges, hacker, floor), fetch, rows)
    ensures |out| == limit ==> IsTop(edges, hacker, floor, limit, out)
    ensures |out| <= limit && (|out| < limit ==> out == set i | 0 <= i < |rows| :: rows[i].from)
  {
    hide IsTop, TopRows;
    out := {};
    for n := 0 to |rows|
      invariant |out| < limit && out == set i | 0 <= i < n :: rows[i].from
    {
      var next := out + {rows[n].from};
      assert next == set i | 0 <= i <= n :: rows[i].from;
      out := next;
      if |out| >= limit {
        PrefixIsTop(edges, hacker, floor, fetch, rows, n, out);
        return;
      }
    }
  }

  /** A full fetch of so many rows names fewer victims than asked for. */
  ghost predicate GivenUp(edges: Edges, hacker: string, floor: Option<int>, limit: nat, fetch: nat,
                          rows: seq<EdgeKey>)
  {
    && TopRows(Inbound(edges, hacker, floor), fetch, rows) && |rows| == fetch
    && |set i | 0 <= i < |rows| :: rows[i].from| < limit
  }

  /** Descending scan with a doubling fetch limit; None when it gives up. */
  method CollectByScan(edges: Edges, hacker: string, floor: Option<int>, limit: nat) returns (out: Option<set<string>>)
    requires limit > 0
    ensures out.Some? ==> IsTop(edges, hacker, floor, limit, out.value)
    ensures out.None? ==> exists rows :: GivenUp(edges, hacker, floor, limit, limit * 128, rows)
  {
    var fetchLimit := limit * 4;
    var maxFetch := limit * 128;
    while fetchLimit <= maxFetch
      invariant fetchLimit in [limit * 4, limit * 8, limit * 16, limit * 32, limit * 64, limit * 128, limit * 256]
      invariant fetchLimit == limit * 256 ==> exists rows :: GivenUp(edges, hacker, floor, limit, limit * 128, rows)
      decreases maxFetch - fetchLimit
    {
      var rows := SelectTop(Inbound(edges, hacker, floor), fetchLimit);
      var found := FirstDistinct(edges, hacker, floor, limit, fetchLimit, rows);
      if |found| >= limit {
        return Some(found);
      }
      if |rows| < fetchLimit {
        ScannedAll(edges, hacker, floor, fetchLimit, rows, found);
        return Some(found);
      }
      assert GivenUp(edges, hacker, floor, limit, fetchLimit, rows);
      fetchLimit := fetchLimit * 2;
    }
    return None;
  }

  lemma ScannedAll(edges: Edges, hacker: string, floor: Option<int>, fetch: nat, rows: seq<EdgeKey>, found: set<string>)
    requires TopRows(Inbound(edges, hacker, floor), fetch, rows) && |rows| < fetch
    requires found == set i | 0 <= i < |rows| :: rows[i].from
    ensures found == Victims(edges, hacker, floor)
  {
    var table := Inbound(edges, hacker, floor);
    AllRows(table.Keys, rows);
    forall v | v in Victims(edges, hacker, floor) ensures v in found {
      var k :| k in table && k.from == v;
      var i :| 0 <= i < |rows| && rows[i] == k;
    }
    forall i | 0 <= i < |rows| ensures rows[i].from in Victims(edges, hacker, floor) {
      assert rows[i] in table;
    }
  }

  /** As many distinct rows as keys are all the keys. */
  lemma {:induction false} AllRows<K(!new)>(keys: set<K>, rows: seq<K>)
    requires |rows| == |keys|
    requires forall i :: 0 <= i < |rows| ==> rows[i] in keys
    requires forall i, j :: 0 <= i < j < |rows| ==> rows[i] != rows[j]
    ensures forall k :: k in keys ==> k in rows
  {
    if rows != [] {
      AllRows(keys - {rows[0]}, rows[1..]);
      assert rows == [rows[0]] + rows[1..];
      forall k | k in keys ensures k in rows {
        assert k == rows[0] || k in rows[1..];
      }
    }
  }

  function PeaksOf(peaks: Peaks, hacker: string, floor: Option<int>): map<Pair, int> {
    map pair | pair in peaks && pair.0 == hacker && (floor.Some? ==> peaks[pair] >= floor.value) :: peaks[pair]
  }

  function Seconds(pairs: set<Pair>): set<string> {
    set p | p in pairs :: p.1
  }

  lemma {:induction false} SecondsCount(pairs: set<Pair>, hacker: string)
    requires forall p :: p in pairs ==> p.0 == hacker
    ensures |Seconds(pairs)| == |pairs|
  {
    if p :| p in pairs {
      SecondsCount(pairs - {p}, hacker);
      assert p.1 !in Seconds(pairs - {p});
      assert Seconds(pairs) == Seconds(pairs - {p}) + {p.1};
    }
  }

  /** The peaks of one hacker are exact, whatever the others are. */
  ghost predicate PeaksExactFor(edges: Edges, peaks: Peaks, hacker: string) {
    && (forall pair :: pair in peaks && pair.0 == hacker ==> IsMax(edges, pair, peaks[pair]))
    && forall pair: Pair, k :: pair.0 == hacker && PairEdge(edges, pair, k) ==> pair in peaks
  }

  /** The names of the largest peaks, in whatever order ties come. */
  ghost predicate NamesTopPeaks(peaks: Peaks, hacker: string, floor: Option<int>, limit: nat, s: set<string>) {
    exists rows: seq<Pair> :: TopRows(PeaksOf(peaks, hacker, floor), limit, rows)
      && s == set i | 0 <= i < |rows| :: rows[i].1
  }

  /** Exact peaks name exactly the victims. */
  lemma PeaksNameVictims(edges: Edges, peaks: Peaks, hacker: string, floor: Option<int>)
    requires PeaksExactFor(edges, peaks, hacker)
    ensures Seconds(PeaksOf(peaks, hacker, floor).Keys) == Victims(edges, hacker, floor)
    ensures |PeaksOf(peaks, hacker, floor)| == |Victims(edges, hacker, floor)|
  {
    var table := PeaksOf(peaks, hacker, floor);
    SecondsCount(table.Keys, hacker);
    forall v | v in Victims(edges, hacker, floor) ensures v in Seconds(table.Keys) {
      var k :| k in Inbound(edges, hacker, floor) && k.from == v;
      assert PairEdge(edges, (hacker, v), k);
      assert (hacker, v) in table;
    }
    forall v | v in Seconds(table.Keys) ensures v in Victims(edges, hacker, floor) {
      var pair :| pair in table && pair.1 == v;
      var k :| PairEdge(edges, pair, k) && edges[k].amount == peaks[pair];
      assert k in Inbound(edges, hacker, floor);
    }
  }

  lemma SecondsOf(rows: seq<Pair>)
    ensures (set i | 0 <= i < |rows| :: rows[i].1) == Seconds(set i | 0 <= i < |rows| :: rows[i])
  {
    var picked := set i | 0 <= i < |rows| :: rows[i];
    forall i | 0 <= i < |rows| ensures rows[i].1 in Seconds(picked) {
      assert rows[i] in picked;
    }
  }

  lemma PeakRowsAreTop(edges: Edges, peaks: Peaks, hacker: string, floor: Option<int>, limit: nat, rows: seq<Pair>)
    requires PeaksExactFor(edges, peaks, hacker) && TopRows(PeaksOf(peaks, hacker, floor), limit, rows)
    ensures IsTop(edges, hacker, floor, limit, set i | 0 <= i < |rows| :: rows[i].1)
  {
    hide PeaksExactFor, Victims, Beats;
    PeaksNameVictims(edges, peaks, hacker, floor);
    var picked := set i | 0 <= i < |rows| :: rows[i];
    var s := set i | 0 <= i < |rows| :: rows[i].1;
    SecondsOf(rows);
    SecondsCount(picked, hacker);
    DistinctCount(rows);
    forall v, w | v in s && w in Victims(edges, hacker, floor) - s ensures Beats(edges, hacker, floor, v, w) {
      var i :| 0 <= i < |rows| && rows[i].1 == v;
      PeakBeats(edges, peaks, hacker, floor, rows[i], w);
    }
  }

  lemma PeakBeats(edges: Edges, peaks: Peaks, hacker: string, floor: Option<int>, pair: Pair, w: string)
    requires PeaksExactFor(edges, peaks, hacker) && pair in PeaksOf(peaks, hacker, floor)
    requires (hacker, w) in PeaksOf(peaks, hacker, floor) ==> peaks[pair] >= peaks[(hacker, w)]
    ensures Beats(edges, hacker, floor, pair.1, w)
  {
    var best :| PairEdge(edges, pair, best) && edges[best].amount == peaks[pair];
    forall k | Eligible(edges, hacker, floor, k) && k.from == w
      ensures Eligible(edges, hacker, floor, best) && best.from == pair.1 && edges[best].amount >= edges[k].amount
    {
      assert PairEdge(edges, (hacker, w), k);
    }
  }

  lemma {:induction false} DistinctCount<K(!new)>(rows: seq<K>)
    requires forall i, j :: 0 <= i < j < |rows| ==> rows[i] != rows[j]
    ensures |set i | 0 <= i < |rows| :: rows[i]| == |rows|
  {
    if rows != [] {
      var n := |rows| - 1;
      var front := rows[..n];
      DistinctCount(front);
      assert (set i | 0 <= i < |rows| :: rows[i]) == (set i | 0 <= i < |front| :: front[i]) + {rows[n]};
      assert rows[n] !in (set i | 0 <= i < |front| :: front[i]);
    }
  }

  lemma NoPeaksNoEdges(edges: Edges, peaks: Peaks, hacker: string, floor: Option<int>)
    requires PeaksExactFor(edges, peaks, hacker) && |PeaksOf(peaks, hacker, floor)| == 0
    ensures Inbound(edges, hacker, floor) == map[]
  {
    PeaksNameVictims(edges, peaks, hacker, floor);
    assert forall k :: k in Inbound(edges, hacker, floor) ==> k.from in Victims(edges, hacker, floor);
  }

  lemma NobodyIsTop(edges: Edges, hacker: string, floor: Option<int>, limit: nat)
    requires Inbound(edges, hacker, floor) == map[]
    ensures IsTop(edges, hacker, floor, limit, {})
  {
    assert Victims(edges, hacker, floor) == {};
  }

  /** From the peak table; None sends the caller on to the scan. */
  method CollectFromPeaks(edges: Edges, peaks: Peaks, hacker: string, floor: Option<int>, limit: nat)
    returns (out: Option<set<string>>)
    requires limit > 0
    ensures PeaksExactFor(edges, peaks, hacker) ==> out.Some?
    ensures out.Some? && (PeaksExactFor(edges, peaks, hacker) || PeaksOf(peaks, hacker, floor) == map[]) ==>
              IsTop(edges, hacker, floor, limit, out.value)
    ensures PeaksOf(peaks, hacker, floor) != map[] ==>
            out.Some? && NamesTopPeaks(peaks, hacker, floor, limit, out.value)
    ensures out.None? <==> PeaksOf(peaks, hacker, floor) == map[] && Inbound(edges, hacker, floor) != map[]
  {
    hide IsTop, PeaksExactFor, Beats, PeaksOf;
    var rows := SelectTop(PeaksOf(peaks, hacker, floor), limit);
    if |rows| > 0 {
      out := Some(set i | 0 <= i < |rows| :: rows[i].1);
      if PeaksExactFor(edges, peaks, hacker) {
        PeakRowsAreTop(edges, peaks, hacker, floor, limit, rows);
      }
      return;
    }
    if PeaksExactFor(edges, peaks, hacker) {
      NoPeaksNoEdges(edges, peaks, hacker, floor);
    }
    if Inbound(edges, hacker, floor) == map[] {
      NobodyIsTop(edges, hacker, floor, limit);
      return Some({});
    }
    return None;
  }

  /** The largest payment of each victim. */
  ghost predicate Grouped(groups: map<string, int>, table: map<EdgeKey, int>) {
    && groups.Keys == (set k | k in table.Keys :: k.from)
    && (forall k :: k in table ==> table[k] <= groups[k.from])
    && forall v :: v in groups ==> exists k :: k in table && k.from == v && table[k] == groups[v]
  }

  lemma GroupsAreTop(edges: Edges, hacker: string, floor: Option<int>, limit: nat, groups: map<string, int>,
                     rows: seq<string>)
    requires Grouped(groups, Inbound(edges, hacker, floor)) && TopRows(groups, limit, rows)
    ensures IsTop(edges, hacker, floor, limit, set i | 0 <= i < |rows| :: rows[i])
  {
    hide Beats;
    var table := Inbound(edges, hacker, floor);
    var out := set i | 0 <= i < |rows| :: rows[i];
    DistinctCount(rows);
    forall v, w | v in out && w in Victims(edges, hacker, floor) - out ensures Beats(edges, hacker, floor, v, w) {
      GroupBeats(edges, hacker, floor, groups, v, w);
    }
  }

  lemma GroupBeats(edges: Edges, hacker: string, floor: Option<int>, groups: map<string, int>, v: string, w: string)
    requires Grouped(groups, Inbound(edges, hacker, floor)) && v in groups && w in groups && groups[v] >= groups[w]
    ensures Beats(edges, hacker, floor, v, w)
  {
    var table := Inbound(edges, hacker, floor);
    var best :| best in table && best.from == v && table[best] == groups[v];
    forall k | Eligible(edges, hacker, floor, k) && k.from == w
      ensures Eligible(edges, hacker, floor, best) && edges[best].amount >= edges[k].amount
    {
      assert k in table;
    }
  }

  /** GROUP BY victim, ordered by the largest payment of each. */
  method CollectByGroupBy(edges: Edges, hacker: string, floor: Option<int>, limit: nat) returns (out: set<string>)
    ensures IsTop(edges, hacker, floor, limit, out)
  {
    var groups: map<string, int> := map[];
    var table := Inbound(edges, hacker, floor);
    var rest := table.Keys;
    while rest != {}
      invariant rest <= table.Keys
      invariant groups.Keys == set k | k in table.Keys - rest :: k.from
      invariant forall k :: k in table.Keys - rest ==> table[k] <= groups[k.from]
      invariant forall v :: v in groups ==> exists k :: k in table && k.from == v && table[k] == groups[v]
    {
      var k :| k in rest;
      groups := groups[k.from := if k.from in groups then Max(groups[k.from], table[k]) else table[k]];
      rest := rest - {k};
    }
    assert table.Keys - rest == table.Keys;
    var rows := SelectTop(groups, limit);
    out := set i | 0 <= i < |rows| :: rows[i];
    GroupsAreTop(edges, hacker, floor, limit, groups, rows);
  }

  /** getVictimAddressSetForHacker: peaks, then the scan, then GROUP BY. */
  method GetVictimAddressSet(edges: Edges, peaks: Peaks, hacker: string, limit: int, floor: Option<int>)
    returns (out: set<string>)
    ensures PeaksExactFor(edges, peaks, hacker) || PeaksOf(peaks, hacker, floor) == map[] ==>
              IsTop(edges, hacker, floor, if limit < 0 then 0 else limit, out)
    ensures limit > 0 && PeaksOf(peaks, hacker, floor) != map[] ==> NamesTopPeaks(peaks, hacker, floor, limit, out)
    ensures limit <= 0 ==> out == {}
  {
    var cap: nat := if limit < 0 then 0 else limit;
    if cap == 0 { return {}; }
    var fromPeaks := CollectFromPeaks(edges, peaks, hacker, floor, cap);
    if fromPeaks.Some? { return fromPeaks.value; }
    var scanned := CollectByScan(edges, hacker, floor, cap);
    if scanned.Some? { return scanned.value; }
    out := CollectByGroupBy(edges, hacker, floor, cap);
  }

  /** A peak left behind by a deletion still names its payer. */
  lemma StalePeakNamed()
    ensures var peaks: Peaks := map[("hacker", "payer") := 5];
            && !PeaksExactFor(map[], peaks, "hacker") && Victims(map[], "hacker", None) == {}
            && forall s :: NamesTopPeaks(peaks, "hacker", None, 1, s) ==> s == {"payer"}
  {
    var pair: Pair := ("hacker", "payer");
    var peaks: Peaks := map[pair := 5];
    var table := PeaksOf(peaks, "hacker", None);
    assert pair in peaks;
    assert !IsMax(map[], pair, 5);
    assert table == map[pair := 5];
    forall s | NamesTopPeaks(peaks, "hacker", None, 1, s) ensures s == {"payer"} {
      var rows: seq<Pair> :| TopRows(table, 1, rows) && s == set i | 0 <= i < |rows| :: rows[i].1;
      assert |rows| == 1 && rows[0] in table;
    }
  }
}
