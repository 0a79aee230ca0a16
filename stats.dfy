/**
  Visit statistics: one row per shortlink holding its visit count and the
  latest visit time. A visit is recorded with a single insert-or-update
  statement. Reads fall back to the "never visited" values when a
  shortlink has no row.
*/
module Stats {
  import opened Wrappers
  import opened SlugCodec
  import opened ShortlinkModels
  import opened ShortlinkService

  /** A row of the statistics table; `shortlinkId` is both its primary key and a reference to a shortlink. */
  datatype ShortlinkStat = ShortlinkStat(shortlinkId: Id, visits: nat, lastVisit: Timestamp)

  /** What the top-stats query can be ranked by. */
  datatype StatMetric = Visits | LastVisit

  /** A shortlink together with its statistics, as the service returns it. */
  datatype ShortlinkWithStats = ShortlinkWithStats(
    slug: string,
    shortUrl: string,
    longUrl: string,
    visits: nat,
    lastVisit: Option<Timestamp>)

  /** The statistics table as a value: shortlink id to row. */
  type StatTable = map<Id, ShortlinkStat>

  /** Every row is stored under its own shortlink id, so there is at most one row per shortlink. */
  ghost predicate StatsKeyed(stats: StatTable)
  {
    forall id :: id in stats ==> stats[id].shortlinkId == id
  }

  /** Every row refers to an existing shortlink (the foreign key on `shortlink_id`). */
  ghost predicate References(stats: StatTable, links: Links)
  {
    stats.Keys <= links.Keys
  }

  function Max(a: int, b: int): int
  {
    if a < b then b else a
  }

  /** The later of two optional times; an absent time is earlier than any present one. */
  function Later(a: Option<Timestamp>, b: Option<Timestamp>): (r: Option<Timestamp>)
  {
    match (a, b)
    case (None, _) => b
    case (_, None) => a
    case (Some(x), Some(y)) => Some(Max(x, y))
  }

  // ---------------------------------------------------------------------------
  // Reading one shortlink's statistics

  /**
    Combines a shortlink and its statistics row, either of which may be
    missing. A missing shortlink gives empty strings; a missing row gives
    the "never visited" values: no visits and no last visit.
  */
  function FromModels(link: Option<Shortlink>, stat: Option<ShortlinkStat>, serviceRoot: string): (r: ShortlinkWithStats)
    ensures r.slug != "" <==> link.Some?
    ensures link.Some? ==> r.slug == link.value.Slug()
    ensures link.Some? ==> r.shortUrl == link.value.ShortUrl(serviceRoot) && r.longUrl == link.value.longUrl
    ensures link.None? ==> r.shortUrl == "" && r.longUrl == ""
    ensures r.lastVisit.Some? <==> stat.Some?
    ensures stat.None? ==> r.visits == 0
    ensures stat.Some? ==> r.visits == stat.value.visits && r.lastVisit == Some(stat.value.lastVisit)
  {
    ShortlinkWithStats(
      if link.Some? then link.value.Slug() else "",
      if link.Some? then link.value.ShortUrl(serviceRoot) else "",
      if link.Some? then link.value.longUrl else "",
      if stat.Some? then stat.value.visits else 0,
      if stat.Some? then Some(stat.value.lastVisit) else None)
  }

  /** The statistics of one stored shortlink; having no row is not an error. */
  function GetShortlinkStats(stats: StatTable, link: Shortlink, serviceRoot: string): ShortlinkWithStats
  {
    FromModels(Some(link), Get(stats, link.id), serviceRoot)
  }

  /** The visit count a read reports for `id` (0 when there is no row). */
  function VisitsOf(stats: StatTable, id: Id): nat
  {
    if id in stats then stats[id].visits else 0
  }

  /** The last visit a read reports for `id` (None when there is no row). */
  function LastVisitOf(stats: StatTable, id: Id): Option<Timestamp>
  {
    if id in stats then Some(stats[id].lastVisit) else None
  }

  /** Reading a shortlink reports its slug, URLs and the zero-defaulted counters. */
  lemma GetShortlinkStatsReads(stats: StatTable, link: Shortlink, serviceRoot: string)
    ensures GetShortlinkStats(stats, link, serviceRoot)
      == ShortlinkWithStats(link.Slug(), link.ShortUrl(serviceRoot), link.longUrl,
                            VisitsOf(stats, link.id), LastVisitOf(stats, link.id))
  {
  }

  /** A shortlink that was never visited reads as zero visits and no last visit. */
  lemma NeverVisitedReadsZero(stats: StatTable, link: Shortlink, serviceRoot: string)
    requires link.id !in stats
    ensures GetShortlinkStats(stats, link, serviceRoot).visits == 0
    ensures GetShortlinkStats(stats, link, serviceRoot).lastVisit == None
    ensures GetShortlinkStats(stats, link, serviceRoot).slug == link.Slug()
  {
  }

  // ---------------------------------------------------------------------------
  // Recording a visit

  /**
    The insert-or-update of one visit: with no row, insert one visit at `t`;
    otherwise add one visit and move the last visit to `t` when the stored
    one is earlier.
  */
  function Upsert(stats: StatTable, id: Id, t: Timestamp): (r: StatTable)
    ensures r.Keys == stats.Keys + {id}
    ensures forall k :: k in stats && k != id ==> r[k] == stats[k]
    ensures StatsKeyed(stats) ==> StatsKeyed(r)
  {
    if id !in stats then
      stats[id := ShortlinkStat(id, 1, t)]
    else
      var row := stats[id];
      stats[id := ShortlinkStat(id, row.visits + 1, if row.lastVisit < t then t else row.lastVisit)]
  }

  /** The first visit creates exactly one row: one visit, at the given time. */
  lemma FirstVisitCreatesRow(stats: StatTable, id: Id, t: Timestamp)
    requires id !in stats
    ensures Upsert(stats, id, t)[id] == ShortlinkStat(id, 1, t)
    ensures |Upsert(stats, id, t)| == |stats| + 1
  {
    assert Upsert(stats, id, t).Keys == stats.Keys + {id};
  }

  /** A later visit adds exactly one, and the last visit never moves backwards. */
  lemma LaterVisitMergesRow(stats: StatTable, id: Id, t: Timestamp)
    requires id in stats
    ensures Upsert(stats, id, t)[id].visits == stats[id].visits + 1
    ensures Upsert(stats, id, t)[id].lastVisit == Max(stats[id].lastVisit, t)
    ensures |Upsert(stats, id, t)| == |stats|
  {
    assert Upsert(stats, id, t).Keys == stats.Keys;
  }

  /** Seen through a read, a visit is the same merge whether or not a row existed. */
  lemma UpsertAsRead(stats: StatTable, id: Id, t: Timestamp, other: Id)
    ensures VisitsOf(Upsert(stats, id, t), id) == VisitsOf(stats, id) + 1
    ensures LastVisitOf(Upsert(stats, id, t), id) == Later(LastVisitOf(stats, id), Some(t))
    ensures other != id ==> VisitsOf(Upsert(stats, id, t), other) == VisitsOf(stats, other)
    ensures other != id ==> LastVisitOf(Upsert(stats, id, t), other) == LastVisitOf(stats, other)
  {
  }

  /** No count goes down and no last visit moves backwards, for any row. */
  lemma UpsertMonotone(stats: StatTable, id: Id, t: Timestamp)
    ensures forall k :: k in stats ==>
      && k in Upsert(stats, id, t)
      && stats[k].visits <= Upsert(stats, id, t)[k].visits
      && stats[k].lastVisit <= Upsert(stats, id, t)[k].lastVisit
  {
  }

  /** Two visits give the same table in either order. */
  lemma {:induction false} UpsertCommutes(stats: StatTable, a: Id, ta: Timestamp, b: Id, tb: Timestamp)
    ensures Upsert(Upsert(stats, a, ta), b, tb) == Upsert(Upsert(stats, b, tb), a, ta)
  {
    var ab := Upsert(Upsert(stats, a, ta), b, tb);
    var ba := Upsert(Upsert(stats, b, tb), a, ta);
    assert ab.Keys == stats.Keys + {a} + {b} == ba.Keys;
    forall k | k in ab
      ensures ab[k] == ba[k]
    {
      UpsertCommutesAt(stats, a, ta, b, tb, k);
    }
  }

  lemma UpsertCommutesAt(stats: StatTable, a: Id, ta: Timestamp, b: Id, tb: Timestamp, k: Id)
    requires k in stats || k == a || k == b
    ensures Upsert(Upsert(stats, a, ta), b, tb)[k] == Upsert(Upsert(stats, b, tb), a, ta)[k]
  {
    if k == a && k == b && k in stats {
      assert Upsert(Upsert(stats, a, ta), b, tb)[k].lastVisit == Max(Max(stats[k].lastVisit, ta), tb);
      assert Upsert(Upsert(stats, b, tb), a, ta)[k].lastVisit == Max(Max(stats[k].lastVisit, tb), ta);
    }
  }

  /** Two visits to a shortlink with no row leave two visits at the later time, in either order. */
  lemma TwoFirstVisits(stats: StatTable, id: Id, t1: Timestamp, t2: Timestamp)
    requires id !in stats
    ensures Upsert(Upsert(stats, id, t1), id, t2)[id] == ShortlinkStat(id, 2, Max(t1, t2))
    ensures Upsert(Upsert(stats, id, t2), id, t1)[id] == ShortlinkStat(id, 2, Max(t1, t2))
  {
  }

  // ---------------------------------------------------------------------------
  // Histories of visits

  /** One submitted visit. */
  datatype Visit = Visit(shortlinkId: Id, at: Timestamp)

  /** The table after processing `h` in order. */
  function Replay(stats: StatTable, h: seq<Visit>): StatTable
  {
    if h == [] then stats
    else Upsert(Replay(stats, h[..|h| - 1]), h[|h| - 1].shortlinkId, h[|h| - 1].at)
  }

  /** How many visits in `h` are to `id`. */
  function Count(h: seq<Visit>, id: Id): nat
  {
    if h == [] then 0
    else Count(h[..|h| - 1], id) + (if h[|h| - 1].shortlinkId == id then 1 else 0)
  }

  /** The latest time submitted for `id` in `h`, if any. */
  function Latest(h: seq<Visit>, id: Id): Option<Timestamp>
  {
    if h == [] then None
    else if h[|h| - 1].shortlinkId == id then Later(Latest(h[..|h| - 1], id), Some(h[|h| - 1].at))
    else Latest(h[..|h| - 1], id)
  }

  /**
    After any history, a shortlink's count has grown by exactly its number of
    visits, and its last visit is the latest time ever submitted for it, in
    whatever order the visits were processed.
  */
  lemma {:induction false} ReplayReads(stats: StatTable, h: seq<Visit>, id: Id)
    ensures VisitsOf(Replay(stats, h), id) == VisitsOf(stats, id) + Count(h, id)
    ensures LastVisitOf(Replay(stats, h), id) == Later(LastVisitOf(stats, id), Latest(h, id))
  {
    if h != [] {
      var v := h[|h| - 1];
      ReplayReads(stats, h[..|h| - 1], id);
      UpsertAsRead(Replay(stats, h[..|h| - 1]), v.shortlinkId, v.at, id);
    }
  }

  /** Processing one visit out of its place gives the same table as processing it last. */
  lemma {:induction false} ReplayMoveToEnd(stats: StatTable, a: seq<Visit>, v: Visit, b: seq<Visit>)
    ensures Replay(stats, a + [v] + b) == Upsert(Replay(stats, a + b), v.shortlinkId, v.at)
    decreases |b|
  {
    if b == [] {
      assert a + [v] + b == a + [v];
      assert (a + [v])[..|a|] == a;
      assert a + b == a;
    } else {
      var w := b[|b| - 1];
      var b' := b[..|b| - 1];
      assert (a + [v] + b)[..|a + [v] + b| - 1] == a + [v] + b';
      assert (a + b)[..|a + b| - 1] == a + b';
      ReplayMoveToEnd(stats, a, v, b');
      UpsertCommutes(Replay(stats, a + b'), v.shortlinkId, v.at, w.shortlinkId, w.at);
    }
  }

  /** The table depends only on which visits were submitted, not on the order they were processed in. */
  lemma {:induction false} ReplayOrderIrrelevant(stats: StatTable, h1: seq<Visit>, h2: seq<Visit>)
    requires multiset(h1) == multiset(h2)
    ensures Replay(stats, h1) == Replay(stats, h2)
    decreases |h1|
  {
    if h1 != [] {
      var v := h1[|h1| - 1];
      var j := RemoveMatching(h1, h2);
      var a, b := h2[..j], h2[j + 1..];
      ReplayOrderIrrelevant(stats, h1[..|h1| - 1], a + b);
      ReplayMoveToEnd(stats, a, v, b);
    } else {
      assert |h2| == |multiset(h2)| == 0;
    }
  }

  /** The last visit of `h1` occurs in `h2`; taking it out of both leaves equal multisets. */
  lemma RemoveMatching(h1: seq<Visit>, h2: seq<Visit>) returns (j: nat)
    requires multiset(h1) == multiset(h2) && h1 != []
    ensures j < |h2| && h2[j] == h1[|h1| - 1]
    ensures h2 == h2[..j] + [h2[j]] + h2[j + 1..]
    ensures multiset(h1[..|h1| - 1]) == multiset(h2[..j] + h2[j + 1..])
  {
    var v := h1[|h1| - 1];
    var init := h1[..|h1| - 1];
    assert h1 == init + [v];
    assert v in multiset(h2);
    j :| 0 <= j < |h2| && h2[j] == v;
    var a, b := h2[..j], h2[j + 1..];
    assert h2 == a + [v] + b;
    assert multiset(init) == multiset(h1) - multiset{v};
    assert multiset(a + b) == multiset(h2) - multiset{v};
  }

  // ---------------------------------------------------------------------------
  // The top-stats query

  /** The value a row is ranked by. */
  function Rank(s: ShortlinkStat, metric: StatMetric): int
  {
    match metric
    case Visits => s.visits
    case LastVisit => s.lastVisit
  }

  /** The shortlink ids of a list of rows. */
  function IdsOf(rows: seq<ShortlinkStat>): set<Id>
  {
    set i | 0 <= i < |rows| :: rows[i].shortlinkId
  }

  /** Each listed row is the table's row for its id, and no id is listed twice. */
  ghost predicate RowsOf(stats: StatTable, selected: seq<ShortlinkStat>)
  {
    && (forall i :: 0 <= i < |selected| ==> selected[i].shortlinkId in stats && stats[selected[i].shortlinkId] == selected[i])
    && (forall i, j :: 0 <= i < j < |selected| ==> selected[i].shortlinkId != selected[j].shortlinkId)
  }

  /** The listed rows come in non-increasing order of the metric. */
  ghost predicate Ranked(metric: StatMetric, selected: seq<ShortlinkStat>)
  {
    forall i, j :: 0 <= i < j < |selected| ==> Rank(selected[j], metric) <= Rank(selected[i], metric)
  }

  /** No row of the table that is left out ranks above a listed one. */
  ghost predicate Dominates(stats: StatTable, metric: StatMetric, selected: seq<ShortlinkStat>)
  {
    forall id, i :: id in stats && id !in IdsOf(selected) && 0 <= i < |selected| ==> Rank(stats[id], metric) <= Rank(selected[i], metric)
  }

  /**
    What `ORDER BY metric DESC LIMIT limit` may return: `limit` rows (or all
    of them, if fewer), each a distinct row of the table, in non-increasing
    order of the metric, and no row left out ranks above one returned. Rows
    with equal metric may come in any order.
  */
  ghost predicate IsTopSelection(stats: StatTable, metric: StatMetric, limit: nat, selected: seq<ShortlinkStat>)
  {
    && |selected| == (if limit < |stats| then limit else |stats|)
    && RowsOf(stats, selected)
    && Ranked(metric, selected)
    && Dominates(stats, metric, selected)
  }

  /** A table with at least one row has a row ranked at least as high as every other. */
  lemma {:induction false} HighestRow(stats: StatTable, metric: StatMetric) returns (top: Id)
    requires |stats| > 0
    ensures top in stats
    ensures forall id :: id in stats ==> Rank(stats[id], metric) <= Rank(stats[top], metric)
    decreases |stats|
  {
    var k :| k in stats;
    var rest := stats - {k};
    if |rest| == 0 {
      assert stats.Keys == {k};
      top := k;
    } else {
      assert |rest| < |stats|;
      var best := HighestRow(rest, metric);
      top := if Rank(stats[best], metric) < Rank(stats[k], metric) then k else best;
      forall id | id in stats
        ensures Rank(stats[id], metric) <= Rank(stats[top], metric)
      {
        if id != k {
          assert id in rest && rest[id] == stats[id];
        }
      }
    }
  }

  /** For every table, metric and limit there is a result the query may return. */
  lemma {:induction false} TopSelectionExists(stats: StatTable, metric: StatMetric, limit: nat)
    requires StatsKeyed(stats)
    ensures exists selected :: IsTopSelection(stats, metric, limit, selected)
    decreases limit
  {
    if limit == 0 || |stats| == 0 {
      assert IsTopSelection(stats, metric, limit, []);
    } else {
      var top := HighestRow(stats, metric);
      var rest := stats - {top};
      assert |rest| == |stats| - 1;
      TopSelectionExists(rest, metric, limit - 1);
      var tail: seq<ShortlinkStat> :| IsTopSelection(rest, metric, limit - 1, tail);
      PrependHighest(stats, metric, limit, top, tail);
    }
  }

  /** The highest row followed by a top selection of the other rows is a top selection. */
  lemma PrependHighest(stats: StatTable, metric: StatMetric, limit: nat, top: Id, tail: seq<ShortlinkStat>)
    requires StatsKeyed(stats) && limit > 0 && top in stats
    requires forall id :: id in stats ==> Rank(stats[id], metric) <= Rank(stats[top], metric)
    requires IsTopSelection(stats - {top}, metric, limit - 1, tail)
    ensures IsTopSelection(stats, metric, limit, [stats[top]] + tail)
  {
    assert |stats - {top}| == |stats| - 1;
    PrependRows(stats, top, tail);
    PrependRanked(stats, metric, top, tail);
    PrependDominates(stats, metric, top, tail);
  }

  lemma PrependRows(stats: StatTable, top: Id, tail: seq<ShortlinkStat>)
    requires StatsKeyed(stats) && top in stats
    requires RowsOf(stats - {top}, tail)
    ensures RowsOf(stats, [stats[top]] + tail)
  {
    var rest := stats - {top};
    var selected := [stats[top]] + tail;
    forall i | 0 <= i < |selected|
      ensures selected[i].shortlinkId in stats && stats[selected[i].shortlinkId] == selected[i]
    {
      if i > 0 { assert selected[i] == tail[i - 1] && rest[tail[i - 1].shortlinkId] == tail[i - 1]; }
    }
    forall i, j | 0 <= i < j < |selected|
      ensures selected[i].shortlinkId != selected[j].shortlinkId
    {
      assert selected[j] == tail[j - 1] && tail[j - 1].shortlinkId in rest;
      if i > 0 { assert selected[i] == tail[i - 1]; }
    }
  }

  lemma PrependRanked(stats: StatTable, metric: StatMetric, top: Id, tail: seq<ShortlinkStat>)
    requires top in stats
    requires forall id :: id in stats ==> Rank(stats[id], metric) <= Rank(stats[top], metric)
    requires RowsOf(stats - {top}, tail) && Ranked(metric, tail)
    ensures Ranked(metric, [stats[top]] + tail)
  {
    var selected := [stats[top]] + tail;
    forall i, j | 0 <= i < j < |selected|
      ensures Rank(selected[j], metric) <= Rank(selected[i], metric)
    {
      assert selected[j] == tail[j - 1] && tail[j - 1].shortlinkId in stats - {top};
      if i > 0 { assert selected[i] == tail[i - 1]; }
    }
  }

  lemma PrependDominates(stats: StatTable, metric: StatMetric, top: Id, tail: seq<ShortlinkStat>)
    requires StatsKeyed(stats) && top in stats
    requires forall id :: id in stats ==> Rank(stats[id], metric) <= Rank(stats[top], metric)
    requires Dominates(stats - {top}, metric, tail)
    ensures Dominates(stats, metric, [stats[top]] + tail)
  {
    var rest := stats - {top};
    var selected := [stats[top]] + tail;
    assert IdsOf(selected) == {top} + IdsOf(tail) by {
      assert selected[0].shortlinkId == top;
      forall id | id in IdsOf(tail) ensures id in IdsOf(selected) {
        var i :| 0 <= i < |tail| && tail[i].shortlinkId == id;
        assert selected[i + 1] == tail[i];
      }
      forall id | id in IdsOf(selected) ensures id in {top} + IdsOf(tail) {
        var i :| 0 <= i < |selected| && selected[i].shortlinkId == id;
        if i > 0 { assert tail[i - 1].shortlinkId == id; } else { assert id == top; }
      }
    }
    forall id, i | id in stats && id !in IdsOf(selected) && 0 <= i < |selected|
      ensures Rank(stats[id], metric) <= Rank(selected[i], metric)
    {
      assert id in rest && rest[id] == stats[id] && id !in IdsOf(tail);
      if i > 0 { assert selected[i] == tail[i - 1]; }
    }
  }

  /** The first row returned ranks at least as high as every row of the table. */
  lemma TopSelectionLeadsWithMax(stats: StatTable, metric: StatMetric, limit: nat, selected: seq<ShortlinkStat>)
    requires IsTopSelection(stats, metric, limit, selected) && |selected| > 0
    ensures forall id :: id in stats ==> Rank(stats[id], metric) <= Rank(selected[0], metric)
  {
    forall id | id in stats
      ensures Rank(stats[id], metric) <= Rank(selected[0], metric)
    {
      if id in IdsOf(selected) {
        var k :| 0 <= k < |selected| && selected[k].shortlinkId == id;
        assert stats[id] == selected[k];
      }
    }
  }

  /**
    Ties may come back in any order, but the metric values themselves are
    determined: any two results the query may return agree position by
    position on the value they are ranked by.
  */
  lemma TopSelectionRanksAgree(stats: StatTable, metric: StatMetric, limit: nat,
                               s1: seq<ShortlinkStat>, s2: seq<ShortlinkStat>, i: nat)
    requires IsTopSelection(stats, metric, limit, s1) && IsTopSelection(stats, metric, limit, s2)
    requires i < |s1|
    ensures i < |s2| && Rank(s1[i], metric) == Rank(s2[i], metric)
  {
    NotRankedAbove(stats, metric, limit, s1, s2, i);
    NotRankedAbove(stats, metric, limit, s2, s1, i);
  }

  /**
    Position `i` of one result cannot rank above position `i` of another:
    otherwise the first `i + 1` rows of the one would all have to sit in the
    first `i` positions of the other.
  */
  lemma NotRankedAbove(stats: StatTable, metric: StatMetric, limit: nat,
                       s1: seq<ShortlinkStat>, s2: seq<ShortlinkStat>, i: nat)
    requires IsTopSelection(stats, metric, limit, s1) && IsTopSelection(stats, metric, limit, s2)
    requires i < |s1|
    ensures i < |s2| && Rank(s1[i], metric) <= Rank(s2[i], metric)
  {
    if Rank(s2[i], metric) < Rank(s1[i], metric) {
      var front1, front2 := s1[..i + 1], s2[..i];
      forall id | id in IdsOf(front1)
        ensures id in IdsOf(front2)
      {
        var p :| 0 <= p < |front1| && front1[p].shortlinkId == id;
        assert front1[p] == s1[p];
        RankedAboveIsInFront(stats, metric, limit, s1, s2, i, p);
      }
      DistinctIdsCount(front1);
      IdsCountBound(front2);
      SubsetCardinality(IdsOf(front1), IdsOf(front2));
      assert false;
    }
  }

  /** A row of one result that ranks above position `i` of another sits before position `i` in it. */
  lemma RankedAboveIsInFront(stats: StatTable, metric: StatMetric, limit: nat,
                             s1: seq<ShortlinkStat>, s2: seq<ShortlinkStat>, i: nat, p: nat)
    requires IsTopSelection(stats, metric, limit, s1) && IsTopSelection(stats, metric, limit, s2)
    requires p <= i < |s1| && i < |s2| && Rank(s2[i], metric) < Rank(s1[i], metric)
    ensures s1[p].shortlinkId in IdsOf(s2[..i])
  {
    var id := s1[p].shortlinkId;
    assert stats[id] == s1[p];
    assert Rank(s2[i], metric) < Rank(stats[id], metric);
    assert id in IdsOf(s2);
    var q :| 0 <= q < |s2| && s2[q].shortlinkId == id;
    assert stats[id] == s2[q];
    assert q < i;
    assert s2[..i][q] == s2[q];
  }

  /** Rows with pairwise distinct ids have as many ids as rows. */
  lemma {:induction false} DistinctIdsCount(rows: seq<ShortlinkStat>)
    requires forall i, j :: 0 <= i < j < |rows| ==> rows[i].shortlinkId != rows[j].shortlinkId
    ensures |IdsOf(rows)| == |rows|
  {
    if rows != [] {
      var init := rows[..|rows| - 1];
      DistinctIdsCount(init);
      IdsOfSnoc(rows);
      assert rows[|rows| - 1].shortlinkId !in IdsOf(init);
    }
  }

  /** A list of rows has at most as many ids as rows. */
  lemma {:induction false} IdsCountBound(rows: seq<ShortlinkStat>)
    ensures |IdsOf(rows)| <= |rows|
  {
    if rows != [] {
      IdsCountBound(rows[..|rows| - 1]);
      IdsOfSnoc(rows);
    }
  }

  lemma IdsOfSnoc(rows: seq<ShortlinkStat>)
    requires rows != []
    ensures IdsOf(rows) == IdsOf(rows[..|rows| - 1]) + {rows[|rows| - 1].shortlinkId}
  {
    var init := rows[..|rows| - 1];
    forall id | id in IdsOf(rows) ensures id in IdsOf(init) + {rows[|rows| - 1].shortlinkId} {
      var k :| 0 <= k < |rows| && rows[k].shortlinkId == id;
      if k < |init| { assert init[k] == rows[k]; }
    }
    forall id | id in IdsOf(init) ensures id in IdsOf(rows) {
      var k :| 0 <= k < |init| && init[k].shortlinkId == id;
      assert rows[k] == init[k];
    }
  }

  lemma {:induction false} SubsetCardinality(a: set<Id>, b: set<Id>)
    requires a <= b
    ensures |a| <= |b|
  {
    if a != {} {
      var x :| x in a;
      SubsetCardinality(a - {x}, b - {x});
    }
  }

  /**
    The top shortlinks by `metric`. `selected` is what the statistics query
    returned. The shortlinks are loaded in one batch, and the loop pairs each
    row with its shortlink, or with none when the shortlink is missing.
  */
  method GetTopStats(
    metric: StatMetric,
    limit: nat,
    stats: StatTable,
    links: Links,
    serviceRoot: string,
    selected: seq<ShortlinkStat>)
    returns (out: seq<ShortlinkWithStats>)
    requires IsTopSelection(stats, metric, limit, selected)
    ensures |out| == |selected| <= limit
    ensures forall i :: 0 <= i < |out| ==>
      out[i] == FromModels(Get(links, selected[i].shortlinkId), Some(selected[i]), serviceRoot)
    ensures forall i :: 0 <= i < |out| ==>
      out[i].visits == selected[i].visits && out[i].lastVisit == Some(selected[i].lastVisit)
    ensures forall i :: 0 <= i < |out| ==> (out[i].slug != "" <==> selected[i].shortlinkId in links)
    ensures metric == Visits ==> forall i, j :: 0 <= i < j < |out| ==> out[j].visits <= out[i].visits
    ensures metric == LastVisit ==> forall i, j :: 0 <= i < j < |out| ==> out[j].lastVisit.value <= out[i].lastVisit.value
  {
    var ids := seq(|selected|, i requires 0 <= i < |selected| => selected[i].shortlinkId);
    var byId := GetByIds(links, ids);
    out := [];
    for i := 0 to |selected|
      invariant |out| == i
      invariant forall k :: 0 <= k < i ==>
        out[k] == FromModels(Get(byId, selected[k].shortlinkId), Some(selected[k]), serviceRoot)
    {
      var stat := selected[i];
      out := out + [FromModels(Get(byId, stat.shortlinkId), Some(stat), serviceRoot)];
    }
    forall k | 0 <= k < |selected|
      ensures Get(byId, selected[k].shortlinkId) == Get(links, selected[k].shortlinkId)
    {
      assert ids[k] == selected[k].shortlinkId;
    }
    ResultsFollowRows(metric, links, serviceRoot, selected, out);
  }

  /** Results built row by row carry each row's counters and keep the rows' order by the metric. */
  lemma ResultsFollowRows(metric: StatMetric, links: Links, serviceRoot: string,
                          selected: seq<ShortlinkStat>, out: seq<ShortlinkWithStats>)
    requires Ranked(metric, selected) && |out| == |selected|
    requires forall i :: 0 <= i < |out| ==>
      out[i] == FromModels(Get(links, selected[i].shortlinkId), Some(selected[i]), serviceRoot)
    ensures forall i :: 0 <= i < |out| ==>
      out[i].visits == selected[i].visits && out[i].lastVisit == Some(selected[i].lastVisit)
    ensures forall i :: 0 <= i < |out| ==> (out[i].slug != "" <==> selected[i].shortlinkId in links)
    ensures metric == Visits ==> forall i, j :: 0 <= i < j < |out| ==> out[j].visits <= out[i].visits
    ensures metric == LastVisit ==> forall i, j :: 0 <= i < j < |out| ==> out[j].lastVisit.value <= out[i].lastVisit.value
  {
    forall i | 0 <= i < |out|
      ensures out[i].visits == selected[i].visits && out[i].lastVisit == Some(selected[i].lastVisit)
      ensures out[i].slug != "" <==> selected[i].shortlinkId in links
    {
    }
    forall i, j | 0 <= i < j < |out|
      ensures Rank(selected[j], metric) <= Rank(selected[i], metric)
    {
    }
  }

  /** When every row refers to an existing shortlink, every result carries that shortlink's slug. */
  lemma TopStatsWithReferences(stats: StatTable, links: Links, metric: StatMetric, limit: nat,
                               selected: seq<ShortlinkStat>, i: nat)
    requires References(stats, links) && IsTopSelection(stats, metric, limit, selected)
    requires i < |selected|
    ensures Get(links, selected[i].shortlinkId).Some?
  {
  }

  // ---------------------------------------------------------------------------
  // The table

  /** The statistics table of the database. Rows are created by the first visit and never deleted. */
  class StatsTable {
    var rows: StatTable

    ghost predicate Valid()
      reads this
    {
      StatsKeyed(rows)
    }

    constructor ()
      ensures Valid() && rows == map[]
    {
      rows := map[];
    }

    /**
      Records a visit at time `lastVisit` as one atomic insert-or-update.
      The row must refer to an existing shortlink; a visit to an unknown
      id is refused by the foreign key and changes nothing.
    */
    method RecordVisit(shortlinkId: Id, lastVisit: Timestamp, links: ShortlinkTable) returns (ok: bool)
      requires Valid()
      modifies this
      ensures Valid()
      ensures ok <==> shortlinkId in links.rows
      ensures ok ==> rows == Upsert(old(rows), shortlinkId, lastVisit)
      ensures !ok ==> rows == old(rows)
      ensures References(old(rows), links.rows) ==> References(rows, links.rows)
    {
      if shortlinkId !in links.rows {
        return false;
      }
      rows := Upsert(rows, shortlinkId, lastVisit);
      return true;
    }
  }
}
