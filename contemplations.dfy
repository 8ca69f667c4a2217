/** The contemplation handlers that work row by row: manual contemplation of
    one or two members in a month, editing a contemplation and deleting one.
    Each keeps the members' contemplation flags (`contemplado`,
    `mes_contemplacao`, `status_pagamento`) in step with the rows. */
module Contemplations {
  import opened Records
  import opened Tables
  import opened Slots

  /** The consortium exists and belongs to the manager making the request. */
  predicate Owns(consortia: map<ConsortiumId, Consortium>, manager: ManagerId, cid: ConsortiumId) {
    cid in consortia && consortia[cid].manager == manager
  }

  /** The date of a contemplation in month `month`: the start date moved on
      month - 1 months. */
  function AwardDate(c: Consortium, month: int): (d: Date)
    ensures d.day == c.start.day && d.month - c.start.month == month - 1
  {
    AddMonths(c.start, month - 1)
  }

  /** A contemplation row as the handlers create it: the award is the
      consortium's whole pool. */
  function NewRow(cid: ConsortiumId, c: Consortium, pid: ParticipantId, month: int,
                  kind: ContemplationKind, bid: Option<real>, notes: Option<string>): (r: Contemplation)
    ensures r.consortium == cid && r.participant == pid && r.month == month
    ensures r.awarded == c.totalAmount && r.date == AwardDate(c, month)
    ensures r.kind == kind && r.bid == bid && r.notes == notes
    ensures ValidConsortium(c) && 1 <= month <= MaxTerm && (bid.Some? ==> bid.value > 0.0) ==> ValidContemplation(r)
  {
    Contemplation(cid, pid, month, AwardDate(c, month), c.totalAmount, kind, bid, notes)
  }

  /** The contemplation table after inserting `news` under the ids next,
      next + 1, ... that the auto-increment hands out. */
  function Inserted(cs: map<ContemplationId, Contemplation>, next: nat, news: seq<Contemplation>)
    : (r: map<ContemplationId, Contemplation>)
    ensures forall id :: id in r <==> id in cs || next <= id < next + |news|
    ensures forall k :: 0 <= k < |news| ==> r[next + k] == news[k]
    ensures forall id :: id in cs && !(next <= id < next + |news|) ==> r[id] == cs[id]
  {
    if |news| == 0 then cs
    else Inserted(cs, next, news[..|news| - 1])[next + |news| - 1 := news[|news| - 1]]
  }

  lemma InsertedValid(cs: map<ContemplationId, Contemplation>, next: nat, news: seq<Contemplation>)
    requires ContemplationsValid(cs, next)
    requires forall k :: 0 <= k < |news| ==> ValidContemplation(news[k])
    ensures ContemplationsValid(Inserted(cs, next, news), next + |news|)
  {
    var r := Inserted(cs, next, news);
    forall id | id in r ensures id < next + |news| && ValidContemplation(r[id]) {
      if next <= id < next + |news| {
        assert r[next + (id - next)] == news[id - next];
      }
    }
  }

  /** A membership row after `update({contemplado: true, mes_contemplacao:
      month, status_pagamento: 'contemplado'})`, when a month is given. */
  function Marked(m: Membership, cid: ConsortiumId, month: Option<int>): Membership {
    if m.consortium == cid && month.Some?
    then m.(contemplated := true, contemplationMonth := Some(month.value), paymentStatus := Some(Contemplado))
    else m
  }

  /** A membership row after `update({contemplado: false, mes_contemplacao:
      null, status_pagamento: 'em_dia'})`. */
  function Cleared(m: Membership): Membership {
    m.(contemplated := false, contemplationMonth := None, paymentStatus := Some(EmDia))
  }

  /** The member updates of a list of marks applied in order: each member of
      the consortium ends up with the month of its last mark. */
  function ApplyMarks(ms: seq<Membership>, cid: ConsortiumId, marks: seq<Placement>): (r: seq<Membership>)
    ensures SameRows(ms, r)
    ensures forall i :: 0 <= i < |r| ==> r[i] == Marked(ms[i], cid, LastMonth(marks, ms[i].participant))
  {
    if |marks| == 0 then ms
    else
      var last := marks[|marks| - 1];
      MarkContemplated(ApplyMarks(ms, cid, marks[..|marks| - 1]), cid, last.participant, last.month)
  }

  // ------------------------------------------------ manual contemplation

  /** The request schema of the manual route: one or two ids, a month in
      [1, 120], a positive bid and a non-empty note when given. */
  predicate ManualRequestOk(ids: seq<ParticipantId>, month: int, bid: Option<real>, notes: Option<string>) {
    && 1 <= |ids| <= 2
    && 1 <= month <= MaxTerm
    && (bid.Some? ==> bid.value > 0.0)
    && (notes.Some? ==> |notes.value| > 0)
  }

  predicate Picked(m: Membership, cid: ConsortiumId, ids: seq<ParticipantId>) {
    m.consortium == cid && m.active && m.participant in ids
  }

  /** The query for the requested members: their active memberships in
      the consortium, in table order. */
  function Selected(ms: seq<Membership>, cid: ConsortiumId, ids: seq<ParticipantId>): (r: seq<Membership>)
    ensures forall m :: m in r ==> m in ms && Picked(m, cid, ids)
  {
    if |ms| == 0 then []
    else
      var init, m := ms[..|ms| - 1], ms[|ms| - 1];
      var r := Selected(init, cid, ids) + (if Picked(m, cid, ids) then [m] else []);
      assert forall x :: x in init ==> x in ms;
      r
  }

  /** The members the query finds. */
  function PickedMembers(ms: seq<Membership>, cid: ConsortiumId, ids: seq<ParticipantId>): set<ParticipantId> {
    set i | 0 <= i < |ms| && Picked(ms[i], cid, ids) :: ms[i].participant
  }

  lemma {:induction false} SelectedCount(ms: seq<Membership>, cid: ConsortiumId, ids: seq<ParticipantId>)
    requires MembershipPairsUnique(ms)
    ensures |Selected(ms, cid, ids)| == |PickedMembers(ms, cid, ids)|
  {
    if |ms| > 0 {
      var init, m := ms[..|ms| - 1], ms[|ms| - 1];
      PickedMembersSnoc(ms, cid, ids);
      SelectedCount(init, cid, ids);
      assert Selected(ms, cid, ids) == Selected(init, cid, ids) + (if Picked(m, cid, ids) then [m] else []);
    }
  }

  /** Adding a row to the table adds its member to the picked set when it is
      picked, and that member was not picked before. */
  lemma PickedMembersSnoc(ms: seq<Membership>, cid: ConsortiumId, ids: seq<ParticipantId>)
    requires MembershipPairsUnique(ms) && |ms| > 0
    ensures MembershipPairsUnique(ms[..|ms| - 1])
    ensures PickedMembers(ms, cid, ids) == PickedMembers(ms[..|ms| - 1], cid, ids)
              + (if Picked(ms[|ms| - 1], cid, ids) then {ms[|ms| - 1].participant} else {})
    ensures Picked(ms[|ms| - 1], cid, ids) ==> ms[|ms| - 1].participant !in PickedMembers(ms[..|ms| - 1], cid, ids)
  {
    var init, m := ms[..|ms| - 1], ms[|ms| - 1];
    var before, after := PickedMembers(init, cid, ids), PickedMembers(ms, cid, ids);
    forall x | x in after ensures x in before || (Picked(m, cid, ids) && x == m.participant) {
      var i :| 0 <= i < |ms| && Picked(ms[i], cid, ids) && ms[i].participant == x;
      if i < |init| {
        assert init[i] == ms[i];
      }
    }
    forall x | x in before ensures x in after {
      var i :| 0 <= i < |init| && Picked(init[i], cid, ids) && init[i].participant == x;
      assert ms[i] == init[i];
    }
    if Picked(m, cid, ids) {
      assert m.participant in after;
      forall i | 0 <= i < |init| && Picked(init[i], cid, ids) ensures init[i].participant != m.participant {
        assert ms[i] == init[i];
      }
    }
  }

  /** Every requested member has an active membership, and no one is
      requested twice. */
  predicate AllFound(ms: seq<Membership>, cid: ConsortiumId, ids: seq<ParticipantId>) {
    && Distinct(ids)
    && forall k :: 0 <= k < |ids| ==> FindActiveMember(ms, cid, ids[k]).Some?
  }

  /** A requested member is found exactly when it has an active membership. */
  lemma PickedMember(ms: seq<Membership>, cid: ConsortiumId, ids: seq<ParticipantId>, p: ParticipantId)
    requires p in ids
    ensures p in PickedMembers(ms, cid, ids) <==> FindActiveMember(ms, cid, p).Some?
  {
    if FindActiveMember(ms, cid, p).Some? {
      var i := FindActiveMember(ms, cid, p).value;
      assert Picked(ms[i], cid, ids);
    }
    if p in PickedMembers(ms, cid, ids) {
      var i :| 0 <= i < |ms| && Picked(ms[i], cid, ids) && ms[i].participant == p;
      assert IsMember(ms[i], cid, p) && ms[i].active;
    }
  }

  /** Only requested members are found. */
  lemma PickedAmongIds(ms: seq<Membership>, cid: ConsortiumId, ids: seq<ParticipantId>)
    ensures forall p :: p in PickedMembers(ms, cid, ids) ==> p in ids
  {
    forall p | p in PickedMembers(ms, cid, ids) ensures p in ids {
      var i :| 0 <= i < |ms| && Picked(ms[i], cid, ids) && ms[i].participant == p;
    }
  }

  /** A set of found members drawn from one requested id. */
  lemma FoundOfOne(found: set<ParticipantId>, a: ParticipantId)
    requires found <= {a}
    ensures |found| == 1 <==> a in found
  {
    if a in found {
      assert found == {a};
    } else {
      assert found == {};
    }
  }

  /** A set of found members drawn from two requested ids. */
  lemma FoundOfTwo(found: set<ParticipantId>, a: ParticipantId, b: ParticipantId)
    requires found <= {a, b}
    ensures |found| == 2 <==> a != b && a in found && b in found
  {
    if a == b {
      FoundOfOne(found, a);
    } else if a in found && b in found {
      assert found == {a, b};
    } else if a in found {
      assert found == {a};
    } else if b in found {
      assert found == {b};
    } else {
      assert found == {};
    }
  }

  /** One or two ids, distinct and each passing a test, spelled out. */
  lemma DistinctAndAll(ids: seq<ParticipantId>, f: ParticipantId -> bool)
    requires 1 <= |ids| <= 2
    ensures (Distinct(ids) && forall k :: 0 <= k < |ids| ==> f(ids[k]))
        <==> if |ids| == 1 then f(ids[0]) else ids[0] != ids[1] && f(ids[0]) && f(ids[1])
  {
    if |ids| == 2 {
      assert Distinct(ids) <==> ids[0] != ids[1];
    }
  }

  lemma AllFoundCases(ms: seq<Membership>, cid: ConsortiumId, ids: seq<ParticipantId>)
    requires 1 <= |ids| <= 2
    ensures AllFound(ms, cid, ids)
        <==> if |ids| == 1 then FindActiveMember(ms, cid, ids[0]).Some?
             else ids[0] != ids[1] && FindActiveMember(ms, cid, ids[0]).Some? && FindActiveMember(ms, cid, ids[1]).Some?
  {
    DistinctAndAll(ids, (p: ParticipantId) => FindActiveMember(ms, cid, p).Some?);
  }

  /** The handler compares the number of rows found with the number of ids:
      they agree exactly when every id is an active member and none is
      repeated, so a repeated id is rejected as not found. */
  lemma FoundAllIff(ms: seq<Membership>, cid: ConsortiumId, ids: seq<ParticipantId>)
    requires MembershipPairsUnique(ms) && 1 <= |ids| <= 2
    ensures |Selected(ms, cid, ids)| == |ids| <==> AllFound(ms, cid, ids)
  {
    SelectedCount(ms, cid, ids);
    PickedAmongIds(ms, cid, ids);
    var found := PickedMembers(ms, cid, ids);
    var a := ids[0];
    PickedMember(ms, cid, ids, a);
    if |ids| == 1 {
      assert found <= {a} by {
        forall p | p in found ensures p == a {
          assert p in ids;
        }
      }
      FoundOfOne(found, a);
      AllFoundCases(ms, cid, ids);
    } else {
      var b := ids[1];
      PickedMember(ms, cid, ids, b);
      assert found <= {a, b} by {
        forall p | p in found ensures p == a || p == b {
          assert p in ids;
        }
      }
      FoundOfTwo(found, a, b);
      AllFoundCases(ms, cid, ids);
    }
  }

  function QuotaTotal(rows: seq<Membership>): real {
    if |rows| == 0 then 0.0 else QuotaTotal(rows[..|rows| - 1]) + rows[|rows| - 1].quotas
  }

  /** The quota count of the member's row in the consortium, active or
      not, or 0 when there is none. */
  function MemberQuota(ms: seq<Membership>, cid: ConsortiumId, pid: ParticipantId): real {
    match FindMember(ms, cid, pid)
    case Some(k) => ms[k].quotas
    case None => 0.0
  }

  /** The quota count one contemplation contributes to its month. */
  function MonthQuota(cs: map<ContemplationId, Contemplation>, ms: seq<Membership>, cid: ConsortiumId,
                      month: int, id: ContemplationId): real
  {
    if id in cs && cs[id].consortium == cid && cs[id].month == month
    then MemberQuota(ms, cid, cs[id].participant)
    else 0.0
  }

  /** The quotas already contemplated in a month: the sum over the
      contemplations with ids below n. */
  function AwardedInMonth(cs: map<ContemplationId, Contemplation>, ms: seq<Membership>, cid: ConsortiumId,
                          month: int, n: nat): real
  {
    if n == 0 then 0.0 else AwardedInMonth(cs, ms, cid, month, n - 1) + MonthQuota(cs, ms, cid, month, n - 1)
  }

  /** The accumulation loop over the month's contemplations. */
  method QuotasAwardedInMonth(cs: map<ContemplationId, Contemplation>, next: nat, ms: seq<Membership>,
                              cid: ConsortiumId, month: int) returns (total: real)
    ensures total == AwardedInMonth(cs, ms, cid, month, next)
  {
    total := 0.0;
    var id := 0;
    while id < next
      invariant 0 <= id <= next
      invariant total == AwardedInMonth(cs, ms, cid, month, id)
    {
      if id in cs && cs[id].consortium == cid && cs[id].month == month {
        var k := FindMember(ms, cid, cs[id].participant);
        if k.Some? {
          total := total + ms[k.value].quotas;
        }
      }
      id := id + 1;
    }
  }

  /** With valid memberships the month's sum is never negative, and it is
      zero when no contemplation of the consortium uses the month. */
  lemma {:induction false} AwardedInMonthBounds(cs: map<ContemplationId, Contemplation>, ms: seq<Membership>,
                                                cid: ConsortiumId, month: int, n: nat)
    requires MembershipsValid(ms)
    ensures AwardedInMonth(cs, ms, cid, month, n) >= 0.0
    ensures (forall id :: id in cs && id < n ==> cs[id].consortium != cid || cs[id].month != month) ==>
      AwardedInMonth(cs, ms, cid, month, n) == 0.0
  {
    if n > 0 {
      AwardedInMonthBounds(cs, ms, cid, month, n - 1);
      if n - 1 in cs {
        var k := FindMember(ms, cid, cs[n - 1].participant);
        if k.Some? {
          assert ValidMembership(ms[k.value]);
        }
      }
    }
  }

  function ManualRows(cid: ConsortiumId, c: Consortium, ids: seq<ParticipantId>, month: int,
                      kind: Option<ContemplationKind>, bid: Option<real>, notes: Option<string>)
    : (r: seq<Contemplation>)
    ensures |r| == |ids|
  {
    seq(|ids|, k requires 0 <= k < |ids| => NewRow(cid, c, ids[k], month, KindOrDefault(kind), bid, notes))
  }

  /** Every row manual contemplation creates awards the consortium's whole
      pool, is dated at the start moved on month - 1 months, and names one of
      the requested members, in request order. */
  lemma ManualRowsAwardPool(cid: ConsortiumId, c: Consortium, ids: seq<ParticipantId>, month: int,
                            kind: Option<ContemplationKind>, bid: Option<real>, notes: Option<string>)
    ensures var rows := ManualRows(cid, c, ids, month, kind, bid, notes);
      forall k :: 0 <= k < |rows| ==>
        && rows[k].participant == ids[k] && rows[k].consortium == cid && rows[k].month == month
        && rows[k].awarded == c.totalAmount && rows[k].date == AwardDate(c, month)
        && rows[k].kind == KindOrDefault(kind)
  {
    var rows := ManualRows(cid, c, ids, month, kind, bid, notes);
    forall k | 0 <= k < |rows|
      ensures rows[k].participant == ids[k] && rows[k].awarded == c.totalAmount
    {
      assert rows[k] == NewRow(cid, c, ids[k], month, KindOrDefault(kind), bid, notes);
    }
  }

  function MarksFor(ids: seq<ParticipantId>, month: int): (r: seq<Placement>)
    ensures |r| == |ids|
  {
    seq(|ids|, k requires 0 <= k < |ids| => Placement(ids[k], month))
  }

  lemma {:induction false} MarksForLast(ids: seq<ParticipantId>, month: int, pid: ParticipantId)
    ensures LastMonth(MarksFor(ids, month), pid) == if pid in ids then Some(month) else None
  {
    if |ids| > 0 {
      assert MarksFor(ids, month)[..|ids| - 1] == MarksFor(ids[..|ids| - 1], month);
      MarksForLast(ids[..|ids| - 1], month, pid);
      assert ids == ids[..|ids| - 1] + [ids[|ids| - 1]];
    }
  }

  /** The marks of a manual contemplation make exactly the requested members
      of the consortium contemplated in the month, and touch no other row. */
  lemma ManualMarksRequested(ms: seq<Membership>, cid: ConsortiumId, ids: seq<ParticipantId>, month: int)
    ensures var r := ApplyMarks(ms, cid, MarksFor(ids, month));
      forall i :: 0 <= i < |ms| ==>
        r[i] == if ms[i].consortium == cid && ms[i].participant in ids
                then ms[i].(contemplated := true, contemplationMonth := Some(month), paymentStatus := Some(Contemplado))
                else ms[i]
  {
    forall i | 0 <= i < |ms| {
      MarksForLast(ids, month, ms[i].participant);
    }
  }

  /** One more inserted row is one more map update. */
  lemma InsertedStep(cs0: map<ContemplationId, Contemplation>, next: nat, rows: seq<Contemplation>, k: nat)
    requires k < |rows|
    ensures Inserted(cs0, next, rows[..k + 1]) == Inserted(cs0, next, rows[..k])[next + k := rows[k]]
  {
    assert rows[..k + 1][..k] == rows[..k];
  }

  /** One more mark is one more member update. */
  lemma ApplyMarksStep(ms0: seq<Membership>, cid: ConsortiumId, marks: seq<Placement>, k: nat)
    requires k < |marks|
    ensures ApplyMarks(ms0, cid, marks[..k + 1])
         == MarkContemplated(ApplyMarks(ms0, cid, marks[..k]), cid, marks[k].participant, marks[k].month)
  {
    assert marks[..k + 1][..k] == marks[..k];
  }

  /** The create-and-mark loop of the manual route, one requested member
      at a time. */
  method WriteManual(cs0: map<ContemplationId, Contemplation>, next: nat, ms0: seq<Membership>,
                     cid: ConsortiumId, c: Consortium, ids: seq<ParticipantId>, month: int,
                     kind: Option<ContemplationKind>, bid: Option<real>, notes: Option<string>)
    returns (cs: map<ContemplationId, Contemplation>, ms: seq<Membership>)
    ensures cs == Inserted(cs0, next, ManualRows(cid, c, ids, month, kind, bid, notes))
    ensures ms == ApplyMarks(ms0, cid, MarksFor(ids, month))
  {
    var rows := ManualRows(cid, c, ids, month, kind, bid, notes);
    var marks := MarksFor(ids, month);
    cs, ms := cs0, ms0;
    var k := 0;
    while k < |ids|
      invariant 0 <= k <= |ids|
      invariant cs == Inserted(cs0, next, rows[..k])
      invariant ms == ApplyMarks(ms0, cid, marks[..k])
    {
      InsertedStep(cs0, next, rows, k);
      ApplyMarksStep(ms0, cid, marks, k);
      cs := cs[next + k := rows[k]];
      ms := MarkContemplated(ms, cid, marks[k].participant, marks[k].month);
      k := k + 1;
    }
    assert rows[..|ids|] == rows && marks[..|ids|] == marks;
  }

  /** The rows and marks of a valid manual request keep the validators of
      both tables and the unique pair index. */
  lemma ManualWritesKeepValid(cs0: map<ContemplationId, Contemplation>, next: nat, ms0: seq<Membership>,
                              cid: ConsortiumId, c: Consortium, ids: seq<ParticipantId>, month: int,
                              kind: Option<ContemplationKind>, bid: Option<real>, notes: Option<string>)
    requires ContemplationsValid(cs0, next) && MembershipsValid(ms0)
    requires ValidConsortium(c) && ManualRequestOk(ids, month, bid, notes)
    ensures ContemplationsValid(Inserted(cs0, next, ManualRows(cid, c, ids, month, kind, bid, notes)), next + |ids|)
    ensures MembershipsValid(ApplyMarks(ms0, cid, MarksFor(ids, month)))
  {
    var rows := ManualRows(cid, c, ids, month, kind, bid, notes);
    forall k | 0 <= k < |rows| ensures ValidContemplation(rows[k]) {
      assert rows[k] == NewRow(cid, c, ids[k], month, KindOrDefault(kind), bid, notes);
    }
    InsertedValid(cs0, next, rows);
    SameRowsKeepConstraints(ms0, ApplyMarks(ms0, cid, MarksFor(ids, month)));
  }

  /** The writes of a successful manual contemplation. */
  method CommitManual(db: Database, cid: ConsortiumId, ids: seq<ParticipantId>, month: int,
                      kind: Option<ContemplationKind>, bid: Option<real>, notes: Option<string>)
    returns (rows: seq<Contemplation>)
    requires db.Valid() && cid in db.consortia && ManualRequestOk(ids, month, bid, notes)
    modifies db
    ensures db.Valid()
    ensures db.consortia == old(db.consortia) && db.profiles == old(db.profiles)
    ensures db.payments == old(db.payments) && db.nextPaymentId == old(db.nextPaymentId)
    ensures rows == ManualRows(cid, db.consortia[cid], ids, month, kind, bid, notes)
    ensures db.contemplations == Inserted(old(db.contemplations), old(db.nextContemplationId), rows)
    ensures db.nextContemplationId == old(db.nextContemplationId) + |ids|
    ensures db.memberships == ApplyMarks(old(db.memberships), cid, MarksFor(ids, month))
  {
    var c := db.consortia[cid];
    var cs0, next, ms0 := db.contemplations, db.nextContemplationId, db.memberships;
    ManualWritesKeepValid(cs0, next, ms0, cid, c, ids, month, kind, bid, notes);
    rows := ManualRows(cid, c, ids, month, kind, bid, notes);
    var cs, ms := WriteManual(cs0, next, ms0, cid, c, ids, month, kind, bid, notes);
    db.contemplations, db.nextContemplationId, db.memberships := cs, next + |ids|, ms;
  }

  // ------------------------------------------- the month's quota sum

  lemma {:induction false} FindMemberSameRows(a: seq<Membership>, b: seq<Membership>, cid: ConsortiumId,
                                              pid: ParticipantId)
    requires SameRows(a, b)
    ensures FindMember(a, cid, pid) == FindMember(b, cid, pid)
  {
    if |a| > 0 && !IsMember(a[0], cid, pid) {
      assert SameRows(a[1..], b[1..]) by {
        forall i | 0 <= i < |a| - 1 ensures a[1..][i] == a[i + 1] && b[1..][i] == b[i + 1] {
        }
      }
      FindMemberSameRows(a[1..], b[1..], cid, pid);
    }
  }

  /** The month's sum looks only at the rows below n and at the members'
      keys and quota counts, which the flag updates leave alone. */
  lemma {:induction false} AwardedAgrees(cs: map<ContemplationId, Contemplation>, cs': map<ContemplationId, Contemplation>,
                                         a: seq<Membership>, b: seq<Membership>, cid: ConsortiumId, month: int, n: nat)
    requires SameRows(a, b)
    requires forall id: ContemplationId :: id < n ==> (id in cs <==> id in cs') && (id in cs ==> cs[id] == cs'[id])
    ensures AwardedInMonth(cs, a, cid, month, n) == AwardedInMonth(cs', b, cid, month, n)
  {
    if n > 0 {
      AwardedAgrees(cs, cs', a, b, cid, month, n - 1);
      if n - 1 in cs {
        FindMemberSameRows(a, b, cid, cs[n - 1].participant);
      }
    }
  }

  /** The requested members' quota counts, in request order. */
  function IdsQuota(ms: seq<Membership>, cid: ConsortiumId, ids: seq<ParticipantId>): real {
    if |ids| == 0 then 0.0 else IdsQuota(ms, cid, ids[..|ids| - 1]) + MemberQuota(ms, cid, ids[|ids| - 1])
  }

  lemma {:induction false} AwardedOverNewRows(cs: map<ContemplationId, Contemplation>, next: nat, ms: seq<Membership>,
                                              cid: ConsortiumId, c: Consortium, ids: seq<ParticipantId>, month: int,
                                              kind: Option<ContemplationKind>, bid: Option<real>, notes: Option<string>,
                                              k: nat)
    requires ContemplationsValid(cs, next) && k <= |ids|
    ensures var cs' := Inserted(cs, next, ManualRows(cid, c, ids, month, kind, bid, notes));
      AwardedInMonth(cs', ms, cid, month, next + k) == AwardedInMonth(cs, ms, cid, month, next) + IdsQuota(ms, cid, ids[..k])
  {
    var rows := ManualRows(cid, c, ids, month, kind, bid, notes);
    var cs' := Inserted(cs, next, rows);
    if k == 0 {
      AwardedAgrees(cs', cs, ms, ms, cid, month, next);
    } else {
      AwardedOverNewRows(cs, next, ms, cid, c, ids, month, kind, bid, notes, k - 1);
      assert cs'[next + (k - 1)] == rows[k - 1];
      assert ids[..k][..k - 1] == ids[..k - 1];
    }
  }

  /** A row of a table with unique pairs is the one its pair finds. */
  lemma RowOfMember(ms: seq<Membership>, i: nat)
    requires MembershipPairsUnique(ms) && i < |ms|
    ensures FindMember(ms, ms[i].consortium, ms[i].participant) == Some(i)
  {
  }

  lemma SelectedQuota(ms: seq<Membership>, cid: ConsortiumId, ids: seq<ParticipantId>, x: Membership)
    requires MembershipPairsUnique(ms) && x in Selected(ms, cid, ids)
    ensures MemberQuota(ms, cid, x.participant) == x.quotas
  {
    var i :| 0 <= i < |ms| && ms[i] == x;
    RowOfMember(ms, i);
  }

  predicate DistinctMembers(rows: seq<Membership>) {
    forall i, j :: 0 <= i < j < |rows| ==> rows[i].participant != rows[j].participant
  }

  /** The query finds each member at most once. */
  lemma {:induction false} SelectedDistinct(ms: seq<Membership>, cid: ConsortiumId, ids: seq<ParticipantId>)
    requires MembershipPairsUnique(ms)
    ensures DistinctMembers(Selected(ms, cid, ids))
  {
    if |ms| > 0 {
      var init, m := ms[..|ms| - 1], ms[|ms| - 1];
      SelectedDistinct(init, cid, ids);
      var prev := Selected(init, cid, ids);
      if Picked(m, cid, ids) {
        forall x | x in prev ensures x.participant != m.participant {
          var t :| 0 <= t < |init| && init[t] == x;
          assert ms[t] == x;
        }
        var sel := Selected(ms, cid, ids);
        assert sel == prev + [m];
        forall i, j | 0 <= i < j < |sel| ensures sel[i].participant != sel[j].participant {
          if j < |prev| {
            assert sel[i] == prev[i] && sel[j] == prev[j];
            assert DistinctMembers(prev);
          } else {
            assert sel[i] == prev[i] && prev[i] in prev;
          }
        }
      } else {
        assert Selected(ms, cid, ids) == prev;
      }
    }
  }

  lemma QuotaTotalTwo(x: Membership, y: Membership)
    ensures QuotaTotal([x]) == x.quotas
    ensures QuotaTotal([x, y]) == x.quotas + y.quotas
  {
    assert [x][..0] == [];
    assert [x, y][..1] == [x];
  }

  lemma IdsQuotaTwo(ms: seq<Membership>, cid: ConsortiumId, a: ParticipantId, b: ParticipantId)
    ensures IdsQuota(ms, cid, [a]) == MemberQuota(ms, cid, a)
    ensures IdsQuota(ms, cid, [a, b]) == MemberQuota(ms, cid, a) + MemberQuota(ms, cid, b)
  {
    assert [a][..0] == [];
    assert [a, b][..1] == [a];
  }

  /** Two distinct ids found as two distinct members, in either order,
      carry the same total. */
  lemma SamePairSum(a: ParticipantId, b: ParticipantId, u: ParticipantId, v: ParticipantId, f: ParticipantId -> real)
    requires a != b && u != v && (u == a || u == b) && (v == a || v == b)
    ensures f(a) + f(b) == f(u) + f(v)
  {
  }

  lemma SelectedOneQuota(ms: seq<Membership>, cid: ConsortiumId, ids: seq<ParticipantId>)
    requires MembershipPairsUnique(ms) && |ids| == 1 && |Selected(ms, cid, ids)| == 1
    ensures IdsQuota(ms, cid, ids) == QuotaTotal(Selected(ms, cid, ids))
  {
    var sel := Selected(ms, cid, ids);
    var x := sel[0];
    assert x in sel;
    SelectedQuota(ms, cid, ids, x);
    assert ids == [ids[0]] && sel == [x];
    assert x.participant == ids[0];
    QuotaTotalTwo(x, x);
    IdsQuotaTwo(ms, cid, ids[0], ids[0]);
  }

  lemma InPair(ids: seq<ParticipantId>, p: ParticipantId)
    requires |ids| == 2 && p in ids
    ensures p == ids[0] || p == ids[1]
  {
  }

  /** Two distinct ids select two rows of the two members, one each. */
  lemma SelectedTwoMembers(ms: seq<Membership>, cid: ConsortiumId, ids: seq<ParticipantId>)
    requires MembershipPairsUnique(ms) && |ids| == 2 && |Selected(ms, cid, ids)| == 2
    ensures var sel := Selected(ms, cid, ids);
      && sel[0].participant != sel[1].participant
      && (sel[0].participant == ids[0] || sel[0].participant == ids[1])
      && (sel[1].participant == ids[0] || sel[1].participant == ids[1])
  {
    var sel := Selected(ms, cid, ids);
    assert sel[0] in sel && sel[1] in sel;
    SelectedDistinct(ms, cid, ids);
    InPair(ids, sel[0].participant);
    InPair(ids, sel[1].participant);
  }

  lemma SelectedTwoQuota(ms: seq<Membership>, cid: ConsortiumId, ids: seq<ParticipantId>)
    requires MembershipPairsUnique(ms) && |ids| == 2 && ids[0] != ids[1] && |Selected(ms, cid, ids)| == 2
    ensures IdsQuota(ms, cid, ids) == QuotaTotal(Selected(ms, cid, ids))
  {
    var sel := Selected(ms, cid, ids);
    var x, y := sel[0], sel[1];
    SelectedTwoMembers(ms, cid, ids);
    assert x in sel && y in sel;
    SelectedQuota(ms, cid, ids, x);
    SelectedQuota(ms, cid, ids, y);
    assert sel == [x, y];
    QuotaTotalTwo(x, y);
    assert ids == [ids[0], ids[1]];
    IdsQuotaTwo(ms, cid, ids[0], ids[1]);
    SamePairSum(ids[0], ids[1], x.participant, y.participant, (p: ParticipantId) => MemberQuota(ms, cid, p));
  }

  lemma IdsQuotaIsSelected(ms: seq<Membership>, cid: ConsortiumId, ids: seq<ParticipantId>)
    requires MembershipPairsUnique(ms) && 1 <= |ids| <= 2 && AllFound(ms, cid, ids)
    ensures IdsQuota(ms, cid, ids) == QuotaTotal(Selected(ms, cid, ids))
  {
    FoundAllIff(ms, cid, ids);
    AllFoundCases(ms, cid, ids);
    if |ids| == 1 {
      SelectedOneQuota(ms, cid, ids);
    } else {
      SelectedTwoQuota(ms, cid, ids);
    }
  }

  /** After a successful manual contemplation the month's quota sum is the
      sum before plus the requested members' quotas, which is the quantity
      the handler kept within 1.0 + 0.01. */
  lemma ManualMonthSum(cs: map<ContemplationId, Contemplation>, next: nat, ms: seq<Membership>,
                       cid: ConsortiumId, c: Consortium, ids: seq<ParticipantId>, month: int,
                       kind: Option<ContemplationKind>, bid: Option<real>, notes: Option<string>)
    requires ContemplationsValid(cs, next) && MembershipPairsUnique(ms)
    requires 1 <= |ids| <= 2 && AllFound(ms, cid, ids)
    ensures AwardedInMonth(Inserted(cs, next, ManualRows(cid, c, ids, month, kind, bid, notes)),
                           ApplyMarks(ms, cid, MarksFor(ids, month)), cid, month, next + |ids|)
         == AwardedInMonth(cs, ms, cid, month, next) + QuotaTotal(Selected(ms, cid, ids))
  {
    var cs' := Inserted(cs, next, ManualRows(cid, c, ids, month, kind, bid, notes));
    AwardedAgrees(cs', cs', ms, ApplyMarks(ms, cid, MarksFor(ids, month)), cid, month, next + |ids|);
    AwardedOverNewRows(cs, next, ms, cid, c, ids, month, kind, bid, notes, |ids|);
    assert ids[..|ids|] == ids;
    IdsQuotaIsSelected(ms, cid, ids);
  }

  /** contemplar: checks the request, the consortium, the members and the
      month's remaining capacity, in that order; on success creates one row
      per requested member, in request order, and marks each of them. */
  method ManualContemplate(db: Database, manager: ManagerId, cid: ConsortiumId, ids: seq<ParticipantId>,
                           month: int, kind: Option<ContemplationKind>, bid: Option<real>, notes: Option<string>)
    returns (r: Result<seq<Contemplation>>)
    requires db.Valid()
    modifies db
    ensures db.Valid()
    ensures db.consortia == old(db.consortia) && db.profiles == old(db.profiles)
    ensures db.payments == old(db.payments) && db.nextPaymentId == old(db.nextPaymentId)
    ensures !ManualRequestOk(ids, month, bid, notes) ==> r == Err(BadRequest)
    ensures ManualRequestOk(ids, month, bid, notes) && !Owns(old(db.consortia), manager, cid) ==> r == Err(NotFound)
    ensures ManualRequestOk(ids, month, bid, notes) && Owns(old(db.consortia), manager, cid) ==>
      var sel := Selected(old(db.memberships), cid, ids);
      var awarded := AwardedInMonth(old(db.contemplations), old(db.memberships), cid, month, old(db.nextContemplationId));
      && (!AllFound(old(db.memberships), cid, ids) ==> r == Err(NotFound))
      && (AllFound(old(db.memberships), cid, ids) && (exists m :: m in sel && m.contemplated) ==> r == Err(Conflict))
      && (AllFound(old(db.memberships), cid, ids) && (forall m :: m in sel ==> !m.contemplated) ==>
            (awarded + QuotaTotal(sel) > 1.01 <==> r == Err(BadRequest)) && (awarded + QuotaTotal(sel) <= 1.01 <==> r.Ok?))
    ensures r.Err? ==>
      && db.memberships == old(db.memberships) && db.contemplations == old(db.contemplations)
      && db.nextContemplationId == old(db.nextContemplationId)
    ensures r.Ok? ==>
      && Owns(old(db.consortia), manager, cid)
      && r.value == ManualRows(cid, old(db.consortia)[cid], ids, month, kind, bid, notes)
      && db.contemplations == Inserted(old(db.contemplations), old(db.nextContemplationId), r.value)
      && db.nextContemplationId == old(db.nextContemplationId) + |ids|
      && db.memberships == ApplyMarks(old(db.memberships), cid, MarksFor(ids, month))
  {
    if !ManualRequestOk(ids, month, bid, notes) {
      return Err(BadRequest);
    }
    if !(cid in db.consortia && db.consortia[cid].manager == manager) {
      return Err(NotFound);
    }
    var cs0, next, ms0 := db.contemplations, db.nextContemplationId, db.memberships;
    var awarded := QuotasAwardedInMonth(cs0, next, ms0, cid, month);
    var sel := Selected(ms0, cid, ids);
    FoundAllIff(ms0, cid, ids);
    if |sel| != |ids| {
      return Err(NotFound);
    }
    if exists m :: m in sel && m.contemplated {
      return Err(Conflict);
    }
    if awarded + QuotaTotal(sel) > 1.01 {
      return Err(BadRequest);
    }
    var rows := CommitManual(db, cid, ids, month, kind, bid, notes);
    r := Ok(rows);
  }

  // ---------------------------------------------------------------- edit

  /** The request schema of the edit route. */
  predicate EditRequestOk(month: int, bid: Option<real>, notes: Option<string>) {
    && 1 <= month <= MaxTerm
    && (bid.Some? ==> bid.value > 0.0)
    && (notes.Some? ==> |notes.value| > 0)
  }

  /** Some other contemplation of the consortium is in the month. */
  predicate MonthTakenByOther(cs: map<ContemplationId, Contemplation>, cid: ConsortiumId, month: int,
                              id: ContemplationId)
  {
    exists other :: other in cs && other != id && cs[other].consortium == cid && cs[other].month == month
  }

  /** The edited row: new member, month and date; the type, bid and notes
      are replaced only when given. */
  function EditedRow(row: Contemplation, c: Consortium, pid: ParticipantId, month: int,
                     kind: Option<ContemplationKind>, bid: Option<real>, notes: Option<string>)
    : (r: Contemplation)
    ensures r.consortium == row.consortium && r.awarded == row.awarded
    ensures (r.participant, r.month) == (pid, month)
    ensures kind.None? ==> r.kind == row.kind
    ensures bid.None? ==> r.bid == row.bid
    ensures notes.None? ==> r.notes == row.notes
    ensures ValidContemplation(row) && EditRequestOk(month, bid, notes) ==> ValidContemplation(r)
  {
    row.(participant := pid, month := month, date := AwardDate(c, month),
         kind := if kind.Some? then kind.value else row.kind,
         bid := if bid.Some? then bid else row.bid,
         notes := if notes.Some? then notes else row.notes)
  }

  /** The edit route: after the checks, the previous member is reverted to
      not contemplated and up to date, the row is rewritten, and the new
      member is marked contemplated in the new month. */
  method EditContemplation(db: Database, manager: ManagerId, id: ContemplationId, pid: ParticipantId,
                           month: int, kind: Option<ContemplationKind>, bid: Option<real>, notes: Option<string>)
    returns (r: Result<Contemplation>)
    requires db.Valid()
    modifies db
    ensures db.Valid()
    ensures db.consortia == old(db.consortia) && db.profiles == old(db.profiles)
    ensures db.payments == old(db.payments) && db.nextPaymentId == old(db.nextPaymentId)
    ensures db.nextContemplationId == old(db.nextContemplationId)
    ensures !EditRequestOk(month, bid, notes) ==> r == Err(BadRequest)
    ensures EditRequestOk(month, bid, notes) && id !in old(db.contemplations) ==> r == Err(NotFound)
    ensures EditRequestOk(month, bid, notes) && id in old(db.contemplations) ==>
      var row := old(db.contemplations)[id];
      && (!Owns(old(db.consortia), manager, row.consortium) ==> r == Err(NotFound))
      && (Owns(old(db.consortia), manager, row.consortium) ==>
            (month != row.month && MonthTakenByOther(old(db.contemplations), row.consortium, month, id)
             <==> r == Err(Conflict)))
    ensures EditRequestOk(month, bid, notes) && id in old(db.contemplations)
            && Owns(old(db.consortia), manager, old(db.contemplations)[id].consortium)
            && !(month != old(db.contemplations)[id].month
                 && MonthTakenByOther(old(db.contemplations), old(db.contemplations)[id].consortium, month, id))
            ==> r.Ok?
    ensures r.Err? ==> db.memberships == old(db.memberships) && db.contemplations == old(db.contemplations)
    ensures r.Ok? ==>
      && id in old(db.contemplations)
      && var row := old(db.contemplations)[id];
      && var cid := row.consortium;
      && Owns(old(db.consortia), manager, cid)
      && r.value == EditedRow(row, old(db.consortia)[cid], pid, month, kind, bid, notes)
      && db.contemplations == old(db.contemplations)[id := r.value]
      && |db.memberships| == |old(db.memberships)|
      && forall i :: 0 <= i < |db.memberships| ==>
           db.memberships[i] ==
             if IsMember(old(db.memberships)[i], cid, pid) then Marked(old(db.memberships)[i], cid, Some(month))
             else if IsMember(old(db.memberships)[i], cid, row.participant) then Cleared(old(db.memberships)[i])
             else old(db.memberships)[i]
  {
    if !EditRequestOk(month, bid, notes) {
      return Err(BadRequest);
    }
    if id !in db.contemplations {
      return Err(NotFound);
    }
    var row := db.contemplations[id];
    var cid := row.consortium;
    if !(cid in db.consortia && db.consortia[cid].manager == manager) {
      return Err(NotFound);
    }
    if month != row.month && MonthTakenByOther(db.contemplations, cid, month, id) {
      return Err(Conflict);
    }
    var ms0 := db.memberships;
    var ms := ClearContemplated(ms0, cid, row.participant);
    var edited := EditedRow(row, db.consortia[cid], pid, month, kind, bid, notes);
    ms := MarkContemplated(ms, cid, pid, month);
    SameRowsKeepConstraints(ms0, ms);
    db.contemplations := db.contemplations[id := edited];
    db.memberships := ms;
    r := Ok(edited);
  }

  // -------------------------------------------------------------- delete

  /** A member contemplated in the given month of the consortium. */
  predicate ContemplatedIn(m: Membership, cid: ConsortiumId, month: int) {
    m.consortium == cid && m.contemplated && m.contemplationMonth == Some(month)
  }

  /** The delete route: every member contemplated in the row's month is
      reverted, whether or not this row is theirs, and the row is removed. */
  method DeleteContemplation(db: Database, manager: ManagerId, id: ContemplationId)
    returns (r: Result<Contemplation>)
    requires db.Valid()
    modifies db
    ensures db.Valid()
    ensures db.consortia == old(db.consortia) && db.profiles == old(db.profiles)
    ensures db.payments == old(db.payments) && db.nextPaymentId == old(db.nextPaymentId)
    ensures db.nextContemplationId == old(db.nextContemplationId)
    ensures id !in old(db.contemplations) ==> r == Err(NotFound)
    ensures id in old(db.contemplations) ==>
      (Owns(old(db.consortia), manager, old(db.contemplations)[id].consortium) <==> r.Ok?)
    ensures r.Err? ==>
      && r == Err(NotFound) && db.memberships == old(db.memberships)
      && db.contemplations == old(db.contemplations)
    ensures r.Ok? ==>
      && id in old(db.contemplations)
      && r.value == old(db.contemplations)[id]
      && db.contemplations == old(db.contemplations) - {id}
      && |db.memberships| == |old(db.memberships)|
      && forall i :: 0 <= i < |db.memberships| ==>
           db.memberships[i] ==
             if ContemplatedIn(old(db.memberships)[i], r.value.consortium, r.value.month)
             then Cleared(old(db.memberships)[i])
             else old(db.memberships)[i]
  {
    if id !in db.contemplations {
      return Err(NotFound);
    }
    var row := db.contemplations[id];
    var cid := row.consortium;
    if !(cid in db.consortia && db.consortia[cid].manager == manager) {
      return Err(NotFound);
    }
    var ms0 := db.memberships;
    var ms := ms0;
    var i := 0;
    while i < |ms0|
      invariant 0 <= i <= |ms0|
      invariant SameRows(ms0, ms)
      invariant forall j :: 0 <= j < |ms| ==>
        ms[j] == if j < i && ContemplatedIn(ms0[j], cid, row.month) then Cleared(ms0[j]) else ms0[j]
    {
      if ContemplatedIn(ms0[i], cid, row.month) {
        ms := ClearContemplated(ms, cid, ms0[i].participant);
      }
      i := i + 1;
    }
    SameRowsKeepConstraints(ms0, ms);
    db.contemplations := db.contemplations - {id};
    db.memberships := ms;
    r := Ok(row);
  }
}
