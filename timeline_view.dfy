/** The timeline of a consortium: its contemplations bucketed by month, the
    quota occupancy of its active members and the payment summary, computed
    after the payment schedule has been brought up to date. */
module TimelineView {
  import opened Records
  import opened Tables
  import Ledger
  import Contemplations

  /** One line of a month's bucket: the contemplated member, the quota count
      of its active membership, and the contemplation row it comes from. */
  datatype Entry = Entry(participant: ParticipantId, quotas: real, contemplation: ContemplationId)

  datatype Timeline = Timeline(
    byMonth: map<int, seq<Entry>>,     // contemplacoesPorMes
    totalQuotas: real,                 // totalCotas (= cotasPreenchidas)
    available: real,                   // cotasDisponiveis
    activeMembers: nat,                // participantes.length
    payments: Ledger.PaymentSummary)

  // ------------------------------------------------- the contemplation query

  /** The ids of the consortium's contemplation rows below `n`, in increasing order. */
  function IdsOf(cs: map<ContemplationId, Contemplation>, cid: ConsortiumId, n: nat): (r: seq<ContemplationId>)
    ensures forall k :: 0 <= k < |r| ==> r[k] < n && r[k] in cs && cs[r[k]].consortium == cid
    ensures forall i, j :: 0 <= i < j < |r| ==> r[i] < r[j]
  {
    if n == 0 then []
    else IdsOf(cs, cid, n - 1) + (if n - 1 in cs && cs[n - 1].consortium == cid then [n - 1] else [])
  }

  /** The query returns every row of the consortium and nothing else. */
  lemma {:induction false} IdsOfComplete(cs: map<ContemplationId, Contemplation>, cid: ConsortiumId, n: nat, id: ContemplationId)
    ensures id in IdsOf(cs, cid, n) <==> id < n && id in cs && cs[id].consortium == cid
  {
    if n > 0 {
      IdsOfComplete(cs, cid, n - 1, id);
    }
  }

  // ------------------------------------------------------------ the buckets

  /** The entry contemplation `id` contributes: one only when its member has
      an active membership of the consortium, which supplies the quota count. */
  function EntryOf(cs: map<ContemplationId, Contemplation>, ms: seq<Membership>, cid: ConsortiumId,
                   id: ContemplationId): (r: Option<Entry>)
    requires id in cs
    ensures r.Some? <==> FindActiveMember(ms, cid, cs[id].participant).Some?
    ensures r.Some? ==> r.value.participant == cs[id].participant && r.value.contemplation == id
  {
    match FindActiveMember(ms, cid, cs[id].participant)
    case None => None
    case Some(k) => Some(Entry(cs[id].participant, ms[k].quotas, id))
  }

  /** The entries of month `m`, in query order. */
  function MonthEntries(cs: map<ContemplationId, Contemplation>, ms: seq<Membership>, cid: ConsortiumId,
                        ids: seq<ContemplationId>, m: int): seq<Entry>
    requires forall k :: 0 <= k < |ids| ==> ids[k] in cs
  {
    if |ids| == 0 then []
    else
      var last := ids[|ids| - 1];
      MonthEntries(cs, ms, cid, ids[..|ids| - 1], m)
        + (if cs[last].month == m && EntryOf(cs, ms, cid, last).Some? then [EntryOf(cs, ms, cid, last).value] else [])
  }

  /** The months in which the query has a row. */
  function MonthsOf(cs: map<ContemplationId, Contemplation>, ids: seq<ContemplationId>): set<int>
    requires forall k :: 0 <= k < |ids| ==> ids[k] in cs
  {
    set k | 0 <= k < |ids| :: cs[ids[k]].month
  }

  /** `contemplacoesPorMes`: a bucket for every month that has a row, even a
      bucket left empty because no row of that month has an active member. */
  function Buckets(cs: map<ContemplationId, Contemplation>, ms: seq<Membership>, cid: ConsortiumId,
                   ids: seq<ContemplationId>): map<int, seq<Entry>>
    requires forall k :: 0 <= k < |ids| ==> ids[k] in cs
  {
    map m | m in MonthsOf(cs, ids) :: MonthEntries(cs, ms, cid, ids, m)
  }

  /** Row `id` belongs to month `m` and yields entry `e`. */
  predicate RowYields(cs: map<ContemplationId, Contemplation>, ms: seq<Membership>, cid: ConsortiumId,
                      id: ContemplationId, m: int, e: Entry)
    requires id in cs
  {
    cs[id].month == m && EntryOf(cs, ms, cid, id) == Some(e)
  }

  /** A bucket lists exactly the entries of the rows of its month whose member
      is active: an entry appears iff some queried row of that month yields it. */
  lemma {:induction false} MonthEntriesIff(cs: map<ContemplationId, Contemplation>, ms: seq<Membership>, cid: ConsortiumId,
                                           ids: seq<ContemplationId>, m: int, e: Entry)
    requires forall k :: 0 <= k < |ids| ==> ids[k] in cs
    ensures e in MonthEntries(cs, ms, cid, ids, m) <==>
      exists k :: 0 <= k < |ids| && RowYields(cs, ms, cid, ids[k], m, e)
  {
    if |ids| > 0 {
      var n := |ids| - 1;
      var init := ids[..n];
      var tail := if cs[ids[n]].month == m && EntryOf(cs, ms, cid, ids[n]).Some? then [EntryOf(cs, ms, cid, ids[n]).value] else [];
      assert MonthEntries(cs, ms, cid, ids, m) == MonthEntries(cs, ms, cid, init, m) + tail;
      assert e in tail <==> RowYields(cs, ms, cid, ids[n], m, e);
      MonthEntriesIff(cs, ms, cid, init, m, e);
      if e in MonthEntries(cs, ms, cid, ids, m) {
        if e in MonthEntries(cs, ms, cid, init, m) {
          var k :| 0 <= k < |init| && RowYields(cs, ms, cid, init[k], m, e);
          assert ids[k] == init[k];
          assert RowYields(cs, ms, cid, ids[k], m, e);
        } else {
          assert RowYields(cs, ms, cid, ids[n], m, e);
        }
      }
      if exists k :: 0 <= k < |ids| && RowYields(cs, ms, cid, ids[k], m, e) {
        var k :| 0 <= k < |ids| && RowYields(cs, ms, cid, ids[k], m, e);
        if k < n {
          assert init[k] == ids[k];
          assert e in MonthEntries(cs, ms, cid, init, m);
        } else {
          assert k == n;
          assert RowYields(cs, ms, cid, ids[n], m, e);
        }
        assert e in MonthEntries(cs, ms, cid, ids, m);
      }
    }
  }

  /** A bucket never holds more entries than its month has rows. */
  lemma {:induction false} MonthEntriesAtMostRows(cs: map<ContemplationId, Contemplation>, ms: seq<Membership>, cid: ConsortiumId,
                                                  ids: seq<ContemplationId>, m: int)
    requires forall k :: 0 <= k < |ids| ==> ids[k] in cs
    ensures |MonthEntries(cs, ms, cid, ids, m)| <= |set k | 0 <= k < |ids| && cs[ids[k]].month == m|
  {
    if |ids| > 0 {
      var n := |ids| - 1;
      var init := ids[..n];
      MonthEntriesAtMostRows(cs, ms, cid, init, m);
      var before := set k | 0 <= k < n && cs[init[k]].month == m;
      var after := set k | 0 <= k < |ids| && cs[ids[k]].month == m;
      assert before <= after by {
        forall k | k in before ensures k in after {
          assert init[k] == ids[k];
        }
      }
      if cs[ids[n]].month == m {
        assert n in after && n !in before;
        assert before + {n} <= after;
        assert |before + {n}| == |before| + 1;
        SubsetCardinality(before + {n}, after);
      } else {
        SubsetCardinality(before, after);
      }
    }
  }

  lemma SubsetCardinality(a: set<int>, b: set<int>)
    requires a <= b
    ensures |a| <= |b|
  {
    assert b == a + (b - a);
  }

  lemma {:induction false} MonthEntriesOutside(cs: map<ContemplationId, Contemplation>, ms: seq<Membership>, cid: ConsortiumId,
                                               ids: seq<ContemplationId>, m: int)
    requires forall k :: 0 <= k < |ids| ==> ids[k] in cs
    requires m !in MonthsOf(cs, ids)
    ensures MonthEntries(cs, ms, cid, ids, m) == []
  {
    if |ids| > 0 {
      var init := ids[..|ids| - 1];
      assert MonthsOf(cs, init) <= MonthsOf(cs, ids) by {
        forall x | x in MonthsOf(cs, init) ensures x in MonthsOf(cs, ids) {
          var k :| 0 <= k < |init| && cs[init[k]].month == x;
          assert init[k] == ids[k];
        }
      }
      assert cs[ids[|ids| - 1]].month in MonthsOf(cs, ids);
      MonthEntriesOutside(cs, ms, cid, init, m);
    }
  }

  /** One more row adds its month to the months of the query. */
  lemma MonthsOfSnoc(cs: map<ContemplationId, Contemplation>, ids: seq<ContemplationId>)
    requires forall k :: 0 <= k < |ids| ==> ids[k] in cs
    requires |ids| > 0
    ensures MonthsOf(cs, ids) == MonthsOf(cs, ids[..|ids| - 1]) + {cs[ids[|ids| - 1]].month}
  {
    var init := ids[..|ids| - 1];
    forall x | x in MonthsOf(cs, ids) ensures x in MonthsOf(cs, init) + {cs[ids[|ids| - 1]].month} {
      var k :| 0 <= k < |ids| && cs[ids[k]].month == x;
      if k < |init| { assert ids[k] == init[k]; }
    }
    forall x | x in MonthsOf(cs, init) ensures x in MonthsOf(cs, ids) {
      var k :| 0 <= k < |init| && cs[init[k]].month == x;
      assert init[k] == ids[k];
    }
  }

  /** The grouping loop of the timeline handler: walk the rows in query
      order, open a month's bucket at its first row, and append an entry
      when the row's member has an active membership. */
  method GroupByMonth(cs: map<ContemplationId, Contemplation>, ms: seq<Membership>, cid: ConsortiumId,
                      ids: seq<ContemplationId>) returns (byMonth: map<int, seq<Entry>>)
    requires forall k :: 0 <= k < |ids| ==> ids[k] in cs
    ensures byMonth.Keys == MonthsOf(cs, ids)
    ensures forall m :: m in byMonth ==> byMonth[m] == MonthEntries(cs, ms, cid, ids, m)
  {
    byMonth := map[];
    for i := 0 to |ids|
      invariant byMonth.Keys == MonthsOf(cs, ids[..i])
      invariant forall m :: m in byMonth ==> byMonth[m] == MonthEntries(cs, ms, cid, ids[..i], m)
    {
      var id := ids[i];
      var month := cs[id].month;
      assert ids[..i + 1][..i] == ids[..i];
      MonthsOfSnoc(cs, ids[..i + 1]);
      if month !in byMonth {
        MonthEntriesOutside(cs, ms, cid, ids[..i], month);
        byMonth := byMonth[month := []];
      }
      var entry := EntryOf(cs, ms, cid, id);
      if entry.Some? {
        byMonth := byMonth[month := byMonth[month] + [entry.value]];
      }
    }
    assert ids[..|ids|] == ids;
  }

  // ------------------------------------------------------------ the totals

  /** `participantes.reduce`: the quota total of the consortium's active memberships. */
  function ActiveQuotas(ms: seq<Membership>, cid: ConsortiumId): real {
    if |ms| == 0 then 0.0
    else ActiveQuotas(ms[..|ms| - 1], cid)
         + (if ms[|ms| - 1].consortium == cid && ms[|ms| - 1].active then ms[|ms| - 1].quotas else 0.0)
  }

  /** `participantes.length`: the number of the consortium's active memberships. */
  function ActiveCount(ms: seq<Membership>, cid: ConsortiumId): (r: nat)
    ensures r <= |ms|
  {
    if |ms| == 0 then 0
    else ActiveCount(ms[..|ms| - 1], cid) + (if ms[|ms| - 1].consortium == cid && ms[|ms| - 1].active then 1 else 0)
  }

  /** With valid quota counts, each active member holds between half a quota
      and three quotas, so the occupied total is bounded by the head count;
      in particular it is zero exactly when there is no active member. */
  lemma {:induction false} ActiveQuotasBounds(ms: seq<Membership>, cid: ConsortiumId)
    requires forall i :: 0 <= i < |ms| ==> ValidMembership(ms[i])
    ensures 0.5 * ActiveCount(ms, cid) as real <= ActiveQuotas(ms, cid) <= 3.0 * ActiveCount(ms, cid) as real
    ensures ActiveQuotas(ms, cid) == 0.0 <==> ActiveCount(ms, cid) == 0
  {
    if |ms| > 0 {
      ActiveQuotasBounds(ms[..|ms| - 1], cid);
      assert ValidMembership(ms[|ms| - 1]);
    }
  }

  /** The view of consortium `cid` over the given tables. */
  function View(c: Consortium, cs: map<ContemplationId, Contemplation>, ms: seq<Membership>,
                ps: map<PaymentId, Payment>, cid: ConsortiumId, next: nat): (v: Timeline)
    ensures v.available + v.totalQuotas == c.totalQuotas as real
    ensures v.byMonth.Keys == set id | id in cs && id < next && cs[id].consortium == cid :: cs[id].month
  {
    var ids := IdsOf(cs, cid, next);
    var total := ActiveQuotas(ms, cid);
    assert MonthsOf(cs, ids) == set id | id in cs && id < next && cs[id].consortium == cid :: cs[id].month by {
      forall id | id in cs && id < next && cs[id].consortium == cid ensures cs[id].month in MonthsOf(cs, ids) {
        IdsOfComplete(cs, cid, next, id);
        var k :| 0 <= k < |ids| && ids[k] == id;
      }
    }
    Timeline(Buckets(cs, ms, cid, ids), total, c.totalQuotas as real - total, ActiveCount(ms, cid),
             Ledger.Summarize(ps, cid))
  }

  /** GET /consorcios/:id/timeline: NotFound unless the consortium is the
      manager's; otherwise the missing payment rows are generated first, and
      the view is taken over the tables as they then stand. */
  method ShowTimeline(db: Database, manager: ManagerId, cid: ConsortiumId) returns (r: Result<Timeline>)
    requires db.Valid()
    modifies db
    ensures db.Valid()
    ensures db.consortia == old(db.consortia) && db.profiles == old(db.profiles)
    ensures db.memberships == old(db.memberships) && db.contemplations == old(db.contemplations)
    ensures db.nextContemplationId == old(db.nextContemplationId)
    ensures !Contemplations.Owns(old(db.consortia), manager, cid) ==> r == Err(NotFound) && unchanged(db)
    ensures Contemplations.Owns(old(db.consortia), manager, cid) ==>
      && r.Ok?
      && Ledger.Extends(db.payments, old(db.payments))
      && Ledger.Covered(db.payments, db.memberships, cid, db.consortia[cid].termMonths)
      && Ledger.NewRowsScheduled(old(db.payments), db.payments, db.memberships, cid, db.consortia[cid])
      && r.value == View(db.consortia[cid], db.contemplations, db.memberships, db.payments, cid, db.nextContemplationId)
  {
    if !Contemplations.Owns(db.consortia, manager, cid) {
      return Err(NotFound);
    }
    var _ := Ledger.GenerateSchedule(db, cid);
    var ids := IdsOf(db.contemplations, cid, db.nextContemplationId);
    var byMonth := GroupByMonth(db.contemplations, db.memberships, cid, ids);
    var total := ActiveQuotas(db.memberships, cid);
    r := Ok(Timeline(byMonth, total, db.consortia[cid].totalQuotas as real - total, ActiveCount(db.memberships, cid),
                     Ledger.Summarize(db.payments, cid)));
  }
}
