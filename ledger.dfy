/** The payment ledger: one payment row per (consortium, member, month),
    generated for the active members, swept for overdue rows, marked as paid,
    and summarised by status. */
module Ledger {
  import opened Records
  import opened Tables

  // ------------------------------------------------------------ schedule

  /** Day 8 of the month `month - 1` months after the consortium's start. */
  function DueDate(start: Date, month: int): (d: Date)
    ensures d.day == 8 && d.month == start.month + month - 1
  {
    Date(AddMonths(start, month - 1).month, 8)
  }

  /** The expected amount of a generated row: the member's individual amount
      plus the manager's fee plus the increment for each month after the first.
      This is not the formula of MonthlyAmount; each is kept as written. */
  function ExpectedAmount(c: Consortium, m: Membership, month: int): real {
    m.individualAmount + c.managerFee + c.monthlyIncrement * (month - 1) as real
  }

  /** The row generation inserts for member `m` and month `month`. */
  function ScheduledPayment(cid: ConsortiumId, c: Consortium, m: Membership, month: int): Payment {
    NewPayment(cid, m.participant, month, DueDate(c.start, month), ExpectedAmount(c, m, month))
  }

  /** A generated row satisfies the payment validators; its amount starts at
      the individual amount plus the fee and grows by exactly the increment
      from one month to the next. */
  lemma ScheduledPaymentShape(cid: ConsortiumId, c: Consortium, m: Membership, month: int)
    requires ValidConsortium(c) && ValidMembership(m) && 1 <= month <= c.termMonths
    ensures var p := ScheduledPayment(cid, c, m, month);
            && ValidPayment(p) && p.status == Pendente && p.paid == None
            && p.consortium == cid && p.participant == m.participant && p.month == month
            && p.due == Date(c.start.month + month - 1, 8)
            && p.expected >= m.individualAmount + c.managerFee
            && (month == 1 ==> p.expected == m.individualAmount + c.managerFee)
            && (month > 1 ==> p.expected - ScheduledPayment(cid, c, m, month - 1).expected == c.monthlyIncrement)
  {
    var p := ScheduledPayment(cid, c, m, month);
    assert c.monthlyIncrement * (month - 1) as real >= 0.0;
    assert p.expected >= 0.0;
    if month > 1 {
      assert c.monthlyIncrement * (month - 1) as real - c.monthlyIncrement * (month - 2) as real == c.monthlyIncrement;
    }
  }

  /** Every active member of `cid` has a row for each month 1..term. */
  predicate Covered(ps: map<PaymentId, Payment>, ms: seq<Membership>, cid: ConsortiumId, term: int) {
    forall i, month :: 0 <= i < |ms| && ms[i].active && ms[i].consortium == cid && 1 <= month <= term ==>
      HasPayment(ps, cid, ms[i].participant, month)
  }

  /** Row `id` is the generated row of some active member of `cid` for a month of the term. */
  predicate IsScheduledRow(ps: map<PaymentId, Payment>, ms: seq<Membership>, cid: ConsortiumId, c: Consortium, id: PaymentId)
    requires id in ps
  {
    && 1 <= ps[id].month <= c.termMonths
    && exists i :: 0 <= i < |ms| && ms[i].active && ms[i].consortium == cid
                   && ps[id] == ScheduledPayment(cid, c, ms[i], ps[id].month)
  }

  predicate Increasing(ids: seq<PaymentId>) {
    forall a, b :: 0 <= a < b < |ids| ==> ids[a] < ids[b]
  }

  /** The rows of every payment table `ps` extends are kept as they were. */
  predicate Extends(ps: map<PaymentId, Payment>, old_ps: map<PaymentId, Payment>) {
    forall id :: id in old_ps ==> id in ps && ps[id] == old_ps[id]
  }

  lemma HasPaymentExtends(ps: map<PaymentId, Payment>, ps2: map<PaymentId, Payment>, cid: ConsortiumId, pid: ParticipantId, month: int)
    requires Extends(ps2, ps) && HasPayment(ps, cid, pid, month)
    ensures HasPayment(ps2, cid, pid, month)
  {
    var id :| id in ps && ps[id].consortium == cid && ps[id].participant == pid && ps[id].month == month;
    assert ps2[id] == ps[id];
  }

  /** The active members of `cid` among the first `n` rows have every month covered. */
  predicate CoveredUpTo(ps: map<PaymentId, Payment>, ms: seq<Membership>, cid: ConsortiumId, term: int, n: int)
    requires 0 <= n <= |ms|
  {
    forall j, month :: 0 <= j < n && ms[j].active && ms[j].consortium == cid && 1 <= month <= term ==>
      HasPayment(ps, cid, ms[j].participant, month)
  }

  lemma CoveredUpToExtends(ps: map<PaymentId, Payment>, ps2: map<PaymentId, Payment>, ms: seq<Membership>,
                           cid: ConsortiumId, term: int, n: int)
    requires 0 <= n <= |ms| && Extends(ps2, ps) && CoveredUpTo(ps, ms, cid, term, n)
    ensures CoveredUpTo(ps2, ms, cid, term, n)
  {
    forall j, month | 0 <= j < n && ms[j].active && ms[j].consortium == cid && 1 <= month <= term
      ensures HasPayment(ps2, cid, ms[j].participant, month)
    {
      HasPaymentExtends(ps, ps2, cid, ms[j].participant, month);
    }
  }

  /** The rows `ps2` added over `ps` are scheduled rows. */
  predicate NewRowsScheduled(ps: map<PaymentId, Payment>, ps2: map<PaymentId, Payment>, ms: seq<Membership>,
                             cid: ConsortiumId, c: Consortium)
  {
    forall id :: id in ps2 && id !in ps ==> IsScheduledRow(ps2, ms, cid, c, id)
  }

  lemma NewRowsScheduledTrans(ps: map<PaymentId, Payment>, ps1: map<PaymentId, Payment>, ps2: map<PaymentId, Payment>,
                              ms: seq<Membership>, cid: ConsortiumId, c: Consortium, i: int)
    requires Extends(ps2, ps1) && NewRowsScheduled(ps, ps1, ms, cid, c)
    requires 0 <= i < |ms| && ms[i].active && ms[i].consortium == cid
    requires forall id :: id in ps2 && id !in ps1 ==>
               1 <= ps2[id].month <= c.termMonths && ps2[id] == ScheduledPayment(cid, c, ms[i], ps2[id].month)
    ensures NewRowsScheduled(ps, ps2, ms, cid, c)
  {
    forall id | id in ps2 && id !in ps ensures IsScheduledRow(ps2, ms, cid, c, id) {
      if id in ps1 {
        assert IsScheduledRow(ps1, ms, cid, c, id);
        assert ps2[id] == ps1[id];
      }
    }
  }

  /** Inserting a valid row under the next id, when no row has its key yet,
      keeps the validators, the unique index and the counter. */
  lemma InsertKeepsValid(ps: map<PaymentId, Payment>, next: nat, p: Payment)
    requires PaymentsValid(ps, next) && ValidPayment(p)
    requires !HasPayment(ps, p.consortium, p.participant, p.month)
    ensures next !in ps && PaymentsValid(ps[next := p], next + 1)
  {
  }

  /** What the inner loop of generation has done once months `1 .. month - 1`
      of member `m` are handled: from table `ps0` with counter `next0` it
      reached `ps` and `next`, every handled month has a row, and the rows it
      added are exactly the scheduled rows listed, in order, in `created`. */
  predicate ScheduledSoFar(ps0: map<PaymentId, Payment>, next0: nat, ps: map<PaymentId, Payment>, next: nat,
                           created: seq<PaymentId>, cid: ConsortiumId, c: Consortium, m: Membership, month: int)
  {
    && PaymentsValid(ps, next) && next0 <= next
    && Extends(ps, ps0)
    && (forall k :: 1 <= k < month ==> HasPayment(ps, cid, m.participant, k))
    && (forall id :: id in ps && id !in ps0 ==>
          id in created && 1 <= ps[id].month < month
          && ps[id] == ScheduledPayment(cid, c, m, ps[id].month))
    && (forall k :: 0 <= k < |created| ==> created[k] in ps && created[k] !in ps0 && next0 <= created[k] < next)
    && Increasing(created)
  }

  /** Inserting the scheduled row of a month that has none, under the next
      id, extends what the inner loop has done by that month. */
  lemma ScheduleStep(ps0: map<PaymentId, Payment>, next0: nat, ps: map<PaymentId, Payment>, next: nat,
                     created: seq<PaymentId>, cid: ConsortiumId, c: Consortium, m: Membership, month: int)
    requires ValidConsortium(c) && ValidMembership(m) && 1 <= month <= c.termMonths
    requires ScheduledSoFar(ps0, next0, ps, next, created, cid, c, m, month)
    requires !HasPayment(ps, cid, m.participant, month)
    ensures ScheduledSoFar(ps0, next0, ps[next := ScheduledPayment(cid, c, m, month)], next + 1,
                           created + [next], cid, c, m, month + 1)
  {
    var p := ScheduledPayment(cid, c, m, month);
    ScheduledPaymentShape(cid, c, m, month);
    InsertKeepsValid(ps, next, p);
    var ps' := ps[next := p];
    assert Extends(ps', ps);
    forall k | 1 <= k < month + 1 ensures HasPayment(ps', cid, m.participant, k) {
      if k < month {
        HasPaymentExtends(ps, ps', cid, m.participant, k);
      } else {
        assert ps'[next].month == k;
      }
    }
    CreatedStep(ps0, next0, ps, next, created, p);
  }

  /** The id list of the inner loop stays increasing and names only new rows. */
  lemma CreatedStep(ps0: map<PaymentId, Payment>, next0: nat, ps: map<PaymentId, Payment>, next: nat,
                    created: seq<PaymentId>, p: Payment)
    requires forall k :: 0 <= k < |created| ==> created[k] in ps && created[k] !in ps0 && next0 <= created[k] < next
    requires Increasing(created) && next0 <= next && next !in ps0
    ensures forall k :: 0 <= k < |created + [next]| ==>
              (created + [next])[k] in ps[next := p] && (created + [next])[k] !in ps0
              && next0 <= (created + [next])[k] < next + 1
    ensures Increasing(created + [next])
  {
  }

  /** The inner loop of generation, over one member's months: insert the
      scheduled row for each month of the term that has none yet, with ids
      taken from the counter `next`. */
  method ScheduleMember(ps: map<PaymentId, Payment>, next: nat, cid: ConsortiumId, c: Consortium, m: Membership)
    returns (ps': map<PaymentId, Payment>, next': nat, created: seq<PaymentId>)
    requires PaymentsValid(ps, next) && ValidConsortium(c) && ValidMembership(m)
    ensures PaymentsValid(ps', next') && next <= next'
    ensures Extends(ps', ps)
    ensures forall month :: 1 <= month <= c.termMonths ==> HasPayment(ps', cid, m.participant, month)
    ensures forall id :: id in ps' && id !in ps ==>
              id in created && 1 <= ps'[id].month <= c.termMonths
              && ps'[id] == ScheduledPayment(cid, c, m, ps'[id].month)
    ensures forall k :: 0 <= k < |created| ==> created[k] in ps' && created[k] !in ps && next <= created[k] < next'
    ensures Increasing(created)
    ensures (forall month :: 1 <= month <= c.termMonths ==> HasPayment(ps, cid, m.participant, month)) ==>
              ps' == ps && created == []
  {
    ps', next', created := ps, next, [];
    ghost var full := forall month :: 1 <= month <= c.termMonths ==> HasPayment(ps, cid, m.participant, month);
    var month := 1;
    while month <= c.termMonths
      invariant 1 <= month <= c.termMonths + 1
      invariant ScheduledSoFar(ps, next, ps', next', created, cid, c, m, month)
      invariant full ==> ps' == ps && created == []
    {
      if !HasPayment(ps', cid, m.participant, month) {
        ScheduleStep(ps, next, ps', next', created, cid, c, m, month);
        ps', next', created := ps'[next' := ScheduledPayment(cid, c, m, month)], next' + 1, created + [next'];
      }
      month := month + 1;
    }
  }

  /** What ScheduleMember promises when it takes table `ps` with counter
      `next` to `ps2` with counter `next2` for member `m`, creating `more`. */
  predicate MemberScheduled(ps: map<PaymentId, Payment>, next: nat, ps2: map<PaymentId, Payment>, next2: nat,
                            more: seq<PaymentId>, cid: ConsortiumId, c: Consortium, m: Membership)
  {
    && PaymentsValid(ps2, next2) && next <= next2
    && Extends(ps2, ps)
    && (forall month :: 1 <= month <= c.termMonths ==> HasPayment(ps2, cid, m.participant, month))
    && (forall id :: id in ps2 && id !in ps ==>
          id in more && 1 <= ps2[id].month <= c.termMonths
          && ps2[id] == ScheduledPayment(cid, c, m, ps2[id].month))
    && (forall k :: 0 <= k < |more| ==> more[k] in ps2 && more[k] !in ps && next <= more[k] < next2)
    && Increasing(more)
    && ((forall month :: 1 <= month <= c.termMonths ==> HasPayment(ps, cid, m.participant, month)) ==>
          ps2 == ps && more == [])
  }

  /** What the outer loop of generation has done once the first `i` rows of
      the membership table are handled, starting from `ps0` and `next0`. */
  predicate GeneratedSoFar(ps0: map<PaymentId, Payment>, next0: nat, ps: map<PaymentId, Payment>, next: nat,
                           created: seq<PaymentId>, ms: seq<Membership>, cid: ConsortiumId, c: Consortium, i: int)
    requires 0 <= i <= |ms|
  {
    && PaymentsValid(ps, next) && next0 <= next
    && Extends(ps, ps0)
    && CoveredUpTo(ps, ms, cid, c.termMonths, i)
    && (forall id :: id in ps && id !in ps0 ==> id in created)
    && NewRowsScheduled(ps0, ps, ms, cid, c)
    && (forall k :: 0 <= k < |created| ==> created[k] in ps && created[k] !in ps0 && next0 <= created[k] < next)
    && Increasing(created)
    && (Covered(ps0, ms, cid, c.termMonths) ==> ps == ps0 && created == [])
  }

  /** Scheduling the active member at row `i` extends what the outer loop has done. */
  lemma GenerateStep(ps0: map<PaymentId, Payment>, next0: nat, ps: map<PaymentId, Payment>, next: nat,
                     created: seq<PaymentId>, ms: seq<Membership>, cid: ConsortiumId, c: Consortium, i: int,
                     ps2: map<PaymentId, Payment>, next2: nat, more: seq<PaymentId>)
    requires 0 <= i < |ms| && ms[i].active && ms[i].consortium == cid
    requires GeneratedSoFar(ps0, next0, ps, next, created, ms, cid, c, i)
    requires MemberScheduled(ps, next, ps2, next2, more, cid, c, ms[i])
    ensures GeneratedSoFar(ps0, next0, ps2, next2, created + more, ms, cid, c, i + 1)
  {
    CoveredUpToExtends(ps, ps2, ms, cid, c.termMonths, i);
    NewRowsScheduledTrans(ps0, ps, ps2, ms, cid, c, i);
    IncreasingAppend(created, more, next);
  }

  /** Two increasing id lists, the first below `bound` and the second not, join into one. */
  lemma IncreasingAppend(a: seq<PaymentId>, b: seq<PaymentId>, bound: nat)
    requires Increasing(a) && Increasing(b)
    requires forall k :: 0 <= k < |a| ==> a[k] < bound
    requires forall k :: 0 <= k < |b| ==> bound <= b[k]
    ensures Increasing(a + b)
  {
  }

  /** A row of another consortium or an inactive row needs no scheduling. */
  lemma GenerateSkip(ps0: map<PaymentId, Payment>, next0: nat, ps: map<PaymentId, Payment>, next: nat,
                     created: seq<PaymentId>, ms: seq<Membership>, cid: ConsortiumId, c: Consortium, i: int)
    requires 0 <= i < |ms| && !(ms[i].active && ms[i].consortium == cid)
    requires GeneratedSoFar(ps0, next0, ps, next, created, ms, cid, c, i)
    ensures GeneratedSoFar(ps0, next0, ps, next, created, ms, cid, c, i + 1)
  {
  }

  /** The outer loop of generation, over the membership table in order. */
  method ScheduleConsortium(ps: map<PaymentId, Payment>, next: nat, ms: seq<Membership>, cid: ConsortiumId, c: Consortium)
    returns (ps': map<PaymentId, Payment>, next': nat, created: seq<PaymentId>)
    requires PaymentsValid(ps, next) && ValidConsortium(c) && MembershipsValid(ms)
    ensures PaymentsValid(ps', next') && next <= next'
    ensures Extends(ps', ps)
    ensures Covered(ps', ms, cid, c.termMonths)
    ensures forall id :: id in ps' && id !in ps ==> id in created
    ensures NewRowsScheduled(ps, ps', ms, cid, c)
    ensures forall k :: 0 <= k < |created| ==> created[k] in ps' && created[k] !in ps && next <= created[k] < next'
    ensures Increasing(created)
    ensures Covered(ps, ms, cid, c.termMonths) ==> ps' == ps && created == []
  {
    ps', next', created := ps, next, [];
    var i := 0;
    while i < |ms|
      invariant 0 <= i <= |ms|
      invariant GeneratedSoFar(ps, next, ps', next', created, ms, cid, c, i)
    {
      if ms[i].consortium == cid && ms[i].active {
        assert ValidMembership(ms[i]);
        ghost var before, nextBefore := ps', next';
        var more;
        ps', next', more := ScheduleMember(ps', next', cid, c, ms[i]);
        GenerateStep(ps, next, before, nextBefore, created, ms, cid, c, i, ps', next', more);
        created := created + more;
      } else {
        GenerateSkip(ps, next, ps', next', created, ms, cid, c, i);
      }
      i := i + 1;
    }
  }

  /** gerarPagamentosConsorcio: for every active member of the consortium, in
      table order, and every month of the term, insert the scheduled row
      unless a row for (consortium, member, month) already exists. Answers the
      ids of the rows it created; a second run creates none. */
  method GenerateSchedule(db: Database, cid: ConsortiumId) returns (r: Result<seq<PaymentId>>)
    requires db.Valid()
    modifies db
    ensures db.Valid()
    ensures r.Err? <==> cid !in old(db.consortia)
    ensures r.Err? ==> r.error == NotFound && db.payments == old(db.payments)
    ensures db.consortia == old(db.consortia) && db.profiles == old(db.profiles)
    ensures db.memberships == old(db.memberships) && db.contemplations == old(db.contemplations)
    ensures db.nextContemplationId == old(db.nextContemplationId)
    ensures Extends(db.payments, old(db.payments))
    ensures r.Ok? ==> Covered(db.payments, db.memberships, cid, db.consortia[cid].termMonths)
    ensures r.Ok? ==> forall id :: id in db.payments && id !in old(db.payments) ==> id in r.value
    ensures r.Ok? ==> NewRowsScheduled(old(db.payments), db.payments, db.memberships, cid, db.consortia[cid])
    ensures r.Ok? ==> forall k :: 0 <= k < |r.value| ==> r.value[k] in db.payments && r.value[k] !in old(db.payments)
    ensures r.Ok? ==> Increasing(r.value)
    ensures r.Ok? && Covered(old(db.payments), old(db.memberships), cid, old(db.consortia[cid].termMonths)) ==>
              db.payments == old(db.payments) && r.value == []
  {
    if cid !in db.consortia {
      return Err(NotFound);
    }
    var ps, next, created := ScheduleConsortium(db.payments, db.nextPaymentId, db.memberships, cid, db.consortia[cid]);
    db.payments, db.nextPaymentId := ps, next;
    r := Ok(created);
  }

  /** The payment table without the rows of consortium `cid`. */
  function WithoutConsortium(ps: map<PaymentId, Payment>, cid: ConsortiumId): (r: map<PaymentId, Payment>)
    ensures forall id :: id in r <==> id in ps && ps[id].consortium != cid
    ensures forall id :: id in r ==> r[id] == ps[id]
  {
    map id | id in ps && ps[id].consortium != cid :: ps[id]
  }

  /** recriarPagamentosConsorcio: when the consortium exists, destroy all of
      its payment rows and generate them afresh. Rows of other consortia are
      untouched, and afterwards every row of the consortium is a freshly
      scheduled row of a current active member. */
  method RegenerateSchedule(db: Database, cid: ConsortiumId) returns (r: Result<seq<PaymentId>>)
    requires db.Valid()
    modifies db
    ensures db.Valid()
    ensures r.Err? <==> cid !in old(db.consortia)
    ensures r.Err? ==> r.error == NotFound && db.payments == old(db.payments)
    ensures db.consortia == old(db.consortia) && db.profiles == old(db.profiles)
    ensures db.memberships == old(db.memberships) && db.contemplations == old(db.contemplations)
    ensures db.nextContemplationId == old(db.nextContemplationId)
    ensures r.Ok? ==> forall id :: id in old(db.payments) && old(db.payments[id]).consortium != cid ==>
              id in db.payments && db.payments[id] == old(db.payments[id])
    ensures r.Ok? ==> forall id :: id in db.payments && db.payments[id].consortium != cid ==>
              id in old(db.payments) && db.payments[id] == old(db.payments[id])
    ensures r.Ok? ==> forall id :: id in db.payments && db.payments[id].consortium == cid ==>
              id in r.value && id !in old(db.payments)
              && IsScheduledRow(db.payments, db.memberships, cid, db.consortia[cid], id)
    ensures r.Ok? ==> Covered(db.payments, db.memberships, cid, db.consortia[cid].termMonths)
    ensures r.Ok? ==> forall k :: 0 <= k < |r.value| ==>
              r.value[k] in db.payments && r.value[k] !in old(db.payments) && db.payments[r.value[k]].consortium == cid
    ensures r.Ok? ==> Increasing(r.value)
  {
    if cid !in db.consortia {
      return Err(NotFound);
    }
    var kept := WithoutConsortium(db.payments, cid);
    assert PaymentsValid(kept, db.nextPaymentId);
    var ps, next, created := ScheduleConsortium(kept, db.nextPaymentId, db.memberships, cid, db.consortia[cid]);
    forall id | id in ps && ps[id].consortium == cid ensures IsScheduledRow(ps, db.memberships, cid, db.consortia[cid], id) {
      assert id !in kept;
    }
    forall k | 0 <= k < |created|
      ensures created[k] !in db.payments && ps[created[k]].consortium == cid
    {
      var id := created[k];
      assert IsScheduledRow(ps, db.memberships, cid, db.consortia[cid], id);
      var i :| 0 <= i < |db.memberships| && db.memberships[i].active && db.memberships[i].consortium == cid
               && ps[id] == ScheduledPayment(cid, db.consortia[cid], db.memberships[i], ps[id].month);
      ScheduledPaymentShape(cid, db.consortia[cid], db.memberships[i], ps[id].month);
    }
    db.payments, db.nextPaymentId := ps, next;
    r := Ok(created);
  }

  // --------------------------------------------------------------- sweep

  /** A pending row whose due date is strictly before today becomes overdue. */
  function SweptRow(p: Payment, today: Date): Payment {
    if p.status == Pendente && Before(p.due, today) then p.(status := PaymentStatus.EmAtraso) else p
  }

  /** The bulk update of the sweep, over the whole payment table. */
  function SweptRows(ps: map<PaymentId, Payment>, today: Date): (r: map<PaymentId, Payment>)
    ensures r.Keys == ps.Keys
    ensures forall id :: id in r ==> r[id] == SweptRow(ps[id], today)
  {
    map id | id in ps :: SweptRow(ps[id], today)
  }

  /** Some row of the (consortium, participant) pair is overdue. */
  predicate HasOverdue(ps: map<PaymentId, Payment>, cid: ConsortiumId, pid: ParticipantId) {
    exists id :: id in ps && ps[id].consortium == cid && ps[id].participant == pid && ps[id].status == PaymentStatus.EmAtraso
  }

  /** The pairs the sweep groups its overdue rows by. */
  function OverduePairs(ps: map<PaymentId, Payment>): (r: set<(ConsortiumId, ParticipantId)>)
    ensures forall cid: ConsortiumId, pid: ParticipantId :: (cid, pid) in r <==> HasOverdue(ps, cid, pid)
  {
    set id | id in ps && ps[id].status == PaymentStatus.EmAtraso :: (ps[id].consortium, ps[id].participant)
  }

  /** The member-status update of the sweep on one membership row. */
  function FlagOverdue(m: Membership, ps: map<PaymentId, Payment>): Membership {
    if HasOverdue(ps, m.consortium, m.participant) then m.(paymentStatus := Some(MemberStatus.EmAtraso)) else m
  }

  /** The sweep only turns pending rows that are past due into overdue rows,
      changing nothing else about them; every other row is left as it was. */
  lemma SweepOnlyTouchesPastDuePending(ps: map<PaymentId, Payment>, today: Date, id: PaymentId)
    requires id in ps
    ensures var p, q := ps[id], SweptRows(ps, today)[id];
            && (q != p <==> p.status == Pendente && Before(p.due, today))
            && (q != p ==> q == p.(status := PaymentStatus.EmAtraso))
            && (p.status != Pendente ==> q == p)
  {
  }

  /** Running the sweep a second time with the same date changes nothing:
      neither the payment rows nor the member flags. */
  lemma {:induction false} SweepIdempotent(ps: map<PaymentId, Payment>, ms: seq<Membership>, today: Date)
    ensures var ps1 := SweptRows(ps, today);
            && SweptRows(ps1, today) == ps1
            && forall i :: 0 <= i < |ms| ==> FlagOverdue(FlagOverdue(ms[i], ps1), ps1) == FlagOverdue(ms[i], ps1)
  {
    var ps1 := SweptRows(ps, today);
    forall id | id in ps1 ensures SweptRow(ps1[id], today) == ps1[id] {
      assert ps1[id] == SweptRow(ps[id], today);
    }
    assert SweptRows(ps1, today) == ps1;
  }

  /** The sweep keeps the payment table's validators and unique index: it
      changes statuses only. */
  lemma SweptRowsValid(ps: map<PaymentId, Payment>, next: nat, today: Date)
    requires PaymentsValid(ps, next)
    ensures PaymentsValid(SweptRows(ps, today), next)
  {
    var qs := SweptRows(ps, today);
    forall a, b | a in qs && b in qs && a != b
      ensures (qs[a].consortium, qs[a].participant, qs[a].month) != (qs[b].consortium, qs[b].participant, qs[b].month)
    {
      assert a in ps && b in ps;
    }
  }

  /** The member loop of the sweep: every membership of a pair with an
      overdue row gets the overdue status, the others are kept. */
  method FlagOverdueMembers(ms0: seq<Membership>, ps: map<PaymentId, Payment>) returns (ms: seq<Membership>)
    ensures SameRows(ms0, ms)
    ensures forall i :: 0 <= i < |ms| ==> ms[i] == FlagOverdue(ms0[i], ps)
  {
    ms := ms0;
    var pairs := OverduePairs(ps);
    var todo := pairs;
    while todo != {}
      invariant todo <= pairs
      invariant SameRows(ms0, ms)
      invariant forall i :: 0 <= i < |ms| ==>
        ms[i] == if (ms0[i].consortium, ms0[i].participant) in pairs - todo
                 then ms0[i].(paymentStatus := Some(MemberStatus.EmAtraso)) else ms0[i]
      decreases |todo|
    {
      var pr :| pr in todo;
      ms := SetPaymentStatus(ms, pr.0, pr.1, MemberStatus.EmAtraso);
      todo := todo - {pr};
    }
    forall i | 0 <= i < |ms| ensures ms[i] == FlagOverdue(ms0[i], ps) {
      assert (ms0[i].consortium, ms0[i].participant) in pairs <==> HasOverdue(ps, ms0[i].consortium, ms0[i].participant);
    }
  }

  /** verificarPagamentosEmAtraso with `today` given: the bulk update of
      pending rows past their due date, then, for every (consortium,
      participant) pair with an overdue row, the member status set to overdue
      on that pair's membership rows. Other member statuses are kept. */
  method SweepOverdue(db: Database, today: Date)
    requires db.Valid()
    modifies db
    ensures db.Valid()
    ensures db.payments == SweptRows(old(db.payments), today)
    ensures |db.memberships| == |old(db.memberships)|
    ensures forall i :: 0 <= i < |db.memberships| ==> db.memberships[i] == FlagOverdue(old(db.memberships[i]), db.payments)
    ensures db.consortia == old(db.consortia) && db.profiles == old(db.profiles)
    ensures db.contemplations == old(db.contemplations) && db.nextContemplationId == old(db.nextContemplationId)
    ensures db.nextPaymentId == old(db.nextPaymentId)
  {
    var ps := SweptRows(db.payments, today);
    SweptRowsValid(db.payments, db.nextPaymentId, today);
    var ms := FlagOverdueMembers(db.memberships, ps);
    SameRowsKeepConstraints(db.memberships, ms);
    db.payments, db.memberships := ps, ms;
  }

  // ------------------------------------------------------------- payment

  /** The row after `valorPago` is recorded on it: partial below the expected
      amount, paid otherwise. */
  function PaidRow(p: Payment, amount: real, today: Date): (q: Payment)
    ensures q.status == Pago <==> amount >= p.expected
    ensures q.status == Parcial <==> amount < p.expected
    ensures q.paid == Some(amount) && q.paidOn == Some(today)
    ensures q.(status := p.status, paid := p.paid, paidOn := p.paidOn) == p
  {
    p.(paidOn := Some(today), paid := Some(amount), status := if amount < p.expected then Parcial else Pago)
  }

  function RowsOfPairWith(ps: map<PaymentId, Payment>, cid: ConsortiumId, pid: ParticipantId,
                          statuses: set<PaymentStatus>): set<PaymentId>
  {
    set id | id in ps && ps[id].consortium == cid && ps[id].participant == pid && ps[id].status in statuses
  }

  /** The member status marcarPagamento writes, computed as marcarPagamento does:
      with no open (pending, overdue or partial) row the member is up to date;
      otherwise overdue when some row is overdue. */
  function MemberRollup(ps: map<PaymentId, Payment>, cid: ConsortiumId, pid: ParticipantId): MemberStatus {
    if |RowsOfPairWith(ps, cid, pid, {Pendente, PaymentStatus.EmAtraso, Parcial})| > 0 then
      if |RowsOfPairWith(ps, cid, pid, {PaymentStatus.EmAtraso})| > 0 then MemberStatus.EmAtraso else EmDia
    else EmDia
  }

  /** The roll-up is overdue exactly when one of the pair's rows is overdue,
      and up to date otherwise; the count of open rows does not matter. */
  lemma RollupIsOverdueIff(ps: map<PaymentId, Payment>, cid: ConsortiumId, pid: ParticipantId)
    ensures MemberRollup(ps, cid, pid) == MemberStatus.EmAtraso <==> HasOverdue(ps, cid, pid)
    ensures MemberRollup(ps, cid, pid) != Contemplado
  {
    var open := RowsOfPairWith(ps, cid, pid, {Pendente, PaymentStatus.EmAtraso, Parcial});
    var late := RowsOfPairWith(ps, cid, pid, {PaymentStatus.EmAtraso});
    assert late <= open;
    if HasOverdue(ps, cid, pid) {
      var id :| id in ps && ps[id].consortium == cid && ps[id].participant == pid && ps[id].status == PaymentStatus.EmAtraso;
      assert id in late;
      assert |late| > 0;
      SubsetCard(late, open);
    } else {
      assert late == {};
    }
  }

  /** marcarPagamento behind its route's schema: a non-positive amount is
      refused, an unknown id is not found; otherwise the row records the
      amount, the date and the paid/partial status, and the status of the
      member's rows for that consortium is rolled up from all its rows. */
  method RecordPayment(db: Database, id: PaymentId, amount: real, today: Date) returns (r: Result<Payment>)
    requires db.Valid()
    modifies db
    ensures db.Valid()
    ensures amount <= 0.0 ==> r == Err(BadRequest)
    ensures amount > 0.0 && id !in old(db.payments) ==> r == Err(NotFound)
    ensures r.Err? ==> db.payments == old(db.payments) && db.memberships == old(db.memberships)
    ensures r.Ok? <==> amount > 0.0 && id in old(db.payments)
    ensures r.Ok? ==> r.value == PaidRow(old(db.payments[id]), amount, today)
                      && db.payments == old(db.payments)[id := r.value]
    ensures r.Ok? ==> db.memberships == SetPaymentStatus(old(db.memberships), r.value.consortium, r.value.participant,
                                                         MemberRollup(db.payments, r.value.consortium, r.value.participant))
    ensures db.consortia == old(db.consortia) && db.profiles == old(db.profiles)
    ensures db.contemplations == old(db.contemplations) && db.nextContemplationId == old(db.nextContemplationId)
    ensures db.nextPaymentId == old(db.nextPaymentId)
  {
    if amount <= 0.0 {
      return Err(BadRequest);
    }
    if id !in db.payments {
      return Err(NotFound);
    }
    var p := PaidRow(db.payments[id], amount, today);
    var ps := db.payments[id := p];
    assert PaymentsValid(ps, db.nextPaymentId) by {
      forall a, b | a in ps && b in ps && a != b
        ensures (ps[a].consortium, ps[a].participant, ps[a].month) != (ps[b].consortium, ps[b].participant, ps[b].month)
      {
        assert a in db.payments && b in db.payments;
      }
    }
    db.payments := ps;
    var status := MemberRollup(ps, p.consortium, p.participant);
    var ms := SetPaymentStatus(db.memberships, p.consortium, p.participant, status);
    SameRowsKeepConstraints(db.memberships, ms);
    db.memberships := ms;
    r := Ok(p);
  }

  // ------------------------------------------------------------- summary

  lemma SubsetCard<T>(a: set<T>, b: set<T>)
    requires a <= b
    ensures |a| <= |b|
  {
    assert b == a + (b - a);
    assert a * (b - a) == {};
  }

  lemma RatioAtMostOne(x: real, y: real)
    requires 0.0 <= x <= y && y > 0.0
    ensures 0.0 <= x / y <= 1.0
  {
    assert x / y * y == x;
  }

  datatype PaymentSummary = PaymentSummary(total: nat, paid: nat, pending: nat, overdue: nat, partial: nat,
                                           percentPaid: int)

  function RowsOf(ps: map<PaymentId, Payment>, cid: ConsortiumId): set<PaymentId> {
    set id | id in ps && ps[id].consortium == cid
  }

  function RowsWith(ps: map<PaymentId, Payment>, cid: ConsortiumId, s: PaymentStatus): set<PaymentId> {
    set id | id in ps && ps[id].consortium == cid && ps[id].status == s
  }

  /** getResumoConsorcio: the row count of the consortium, the count of each
      status, and the paid share in whole percent, rounded half up. */
  function Summarize(ps: map<PaymentId, Payment>, cid: ConsortiumId): PaymentSummary {
    var total := |RowsOf(ps, cid)|;
    var paid := |RowsWith(ps, cid, Pago)|;
    PaymentSummary(total, paid, |RowsWith(ps, cid, Pendente)|, |RowsWith(ps, cid, PaymentStatus.EmAtraso)|,
                   |RowsWith(ps, cid, Parcial)|,
                   if total > 0 then ((paid as real / total as real) * 100.0 + 0.5).Floor else 0)
  }

  /** Every row has exactly one of the four statuses, so the counts add up to the total. */
  lemma SummaryCountsAddUp(ps: map<PaymentId, Payment>, cid: ConsortiumId)
    ensures var s := Summarize(ps, cid);
            s.paid + s.pending + s.overdue + s.partial == s.total
  {
    var a, b, c, d := RowsWith(ps, cid, Pago), RowsWith(ps, cid, Pendente), RowsWith(ps, cid, PaymentStatus.EmAtraso), RowsWith(ps, cid, Parcial);
    assert RowsOf(ps, cid) == a + b + c + d;
    assert a * b == {} && (a + b) * c == {} && (a + b + c) * d == {};
    assert |a + b| == |a| + |b|;
    assert |a + b + c| == |a + b| + |c|;
    assert |a + b + c + d| == |a + b + c| + |d|;
  }

  /** The paid percentage is 0 with no rows, lies in [0, 100], and is 100
      when every row is paid. */
  lemma SummaryPercentInRange(ps: map<PaymentId, Payment>, cid: ConsortiumId)
    ensures var s := Summarize(ps, cid);
            && 0 <= s.percentPaid <= 100
            && (s.total == 0 ==> s.percentPaid == 0)
            && (s.total > 0 && s.paid == s.total ==> s.percentPaid == 100)
  {
    var total, paid := |RowsOf(ps, cid)|, |RowsWith(ps, cid, Pago)|;
    SubsetCard(RowsWith(ps, cid, Pago), RowsOf(ps, cid));
    if total > 0 {
      var ratio := paid as real / total as real;
      assert 0.0 <= ratio <= 1.0 by {
        RatioAtMostOne(paid as real, total as real);
      }
      assert 0 <= (ratio * 100.0 + 0.5).Floor <= 100;
      if paid == total {
        assert ratio == 1.0;
      }
    }
  }
}
