/** The in-memory database the handlers work on: one table per record kind,
    keyed by auto-increment ids where the records have them, plus the
    integrity constraints the record declarations and unique indexes impose. */
module Tables {
  import opened Records

  /** The two fields of a participant profile the engine looks at. */
  datatype Profile = Profile(manager: ManagerId, active: bool)

  /** The unique index on (consortium, participant) of the membership table,
      which holds whether or not the row is active. */
  predicate MembershipPairsUnique(ms: seq<Membership>) {
    forall i, j :: 0 <= i < j < |ms| ==>
      ms[i].consortium != ms[j].consortium || ms[i].participant != ms[j].participant
  }

  /** The unique index on (consortium, participant, month) of the payment table. */
  predicate PaymentKeysUnique(ps: map<PaymentId, Payment>) {
    forall a, b :: a in ps && b in ps && a != b ==>
      (ps[a].consortium, ps[a].participant, ps[a].month) != (ps[b].consortium, ps[b].participant, ps[b].month)
  }

  predicate HasPayment(ps: map<PaymentId, Payment>, cid: ConsortiumId, pid: ParticipantId, month: int) {
    exists id :: id in ps && ps[id].consortium == cid && ps[id].participant == pid && ps[id].month == month
  }

  predicate IsMember(m: Membership, cid: ConsortiumId, pid: ParticipantId) {
    m.consortium == cid && m.participant == pid
  }

  /** Two membership tables that differ at most in the contemplation and
      payment-status columns. */
  predicate SameRows(a: seq<Membership>, b: seq<Membership>) {
    && |a| == |b|
    && forall i :: 0 <= i < |a| ==>
         && a[i].consortium == b[i].consortium && a[i].participant == b[i].participant
         && a[i].quotas == b[i].quotas && a[i].individualAmount == b[i].individualAmount
         && a[i].joined == b[i].joined && a[i].left == b[i].left && a[i].active == b[i].active
  }

  /** Changing only the contemplation and payment-status columns keeps the
      membership validators and the unique index. */
  lemma SameRowsKeepConstraints(a: seq<Membership>, b: seq<Membership>)
    requires SameRows(a, b) && MembershipsValid(a)
    ensures MembershipsValid(b)
  {
    forall i | 0 <= i < |b| ensures ValidMembership(b[i]) {
      assert ValidMembership(a[i]);
    }
  }

  /** The first row of the pair, if any; with unique pairs, the only one. */
  function FindMember(ms: seq<Membership>, cid: ConsortiumId, pid: ParticipantId): (r: Option<nat>)
    ensures r.Some? ==> r.value < |ms| && IsMember(ms[r.value], cid, pid)
    ensures r.Some? ==> forall j :: 0 <= j < r.value ==> !IsMember(ms[j], cid, pid)
    ensures r.None? <==> forall i :: 0 <= i < |ms| ==> !IsMember(ms[i], cid, pid)
  {
    if |ms| == 0 then None
    else if IsMember(ms[0], cid, pid) then Some(0)
    else match FindMember(ms[1..], cid, pid)
      case None => None
      case Some(k) => Some(k + 1)
  }

  /** The row of the pair that is active, if any. */
  function FindActiveMember(ms: seq<Membership>, cid: ConsortiumId, pid: ParticipantId): (r: Option<nat>)
    ensures r.Some? ==> r.value < |ms| && IsMember(ms[r.value], cid, pid) && ms[r.value].active
    ensures r.None? <==> forall i :: 0 <= i < |ms| ==> !(IsMember(ms[i], cid, pid) && ms[i].active)
  {
    match FindMember(ms, cid, pid)
    case None => None
    case Some(k) =>
      if ms[k].active then Some(k)
      else
        assert forall i :: 0 <= i < |ms| && IsMember(ms[i], cid, pid) && ms[i].active ==> i > k;
        match FindActiveMember(ms[k + 1..], cid, pid)
        case None => None
        case Some(j) => Some(j + k + 1)
  }

  /** `update({contemplado: true, mes_contemplacao: month, status_pagamento:
      'contemplado'})` on the rows of the pair. */
  function MarkContemplated(ms: seq<Membership>, cid: ConsortiumId, pid: ParticipantId, month: int): (r: seq<Membership>)
    ensures SameRows(ms, r)
    ensures forall i :: 0 <= i < |r| ==>
      r[i] == if IsMember(ms[i], cid, pid)
              then ms[i].(contemplated := true, contemplationMonth := Some(month), paymentStatus := Some(Contemplado))
              else ms[i]
  {
    seq(|ms|, i requires 0 <= i < |ms| =>
      if IsMember(ms[i], cid, pid)
      then ms[i].(contemplated := true, contemplationMonth := Some(month), paymentStatus := Some(Contemplado))
      else ms[i])
  }

  /** `update({contemplado: false, mes_contemplacao: null, status_pagamento:
      'em_dia'})` on the rows of the pair. */
  function ClearContemplated(ms: seq<Membership>, cid: ConsortiumId, pid: ParticipantId): (r: seq<Membership>)
    ensures SameRows(ms, r)
    ensures forall i :: 0 <= i < |r| ==>
      r[i] == if IsMember(ms[i], cid, pid)
              then ms[i].(contemplated := false, contemplationMonth := None, paymentStatus := Some(EmDia))
              else ms[i]
  {
    seq(|ms|, i requires 0 <= i < |ms| =>
      if IsMember(ms[i], cid, pid)
      then ms[i].(contemplated := false, contemplationMonth := None, paymentStatus := Some(EmDia))
      else ms[i])
  }

  /** `update({status_pagamento: s})` on the rows of the pair. */
  function SetPaymentStatus(ms: seq<Membership>, cid: ConsortiumId, pid: ParticipantId, s: MemberStatus): (r: seq<Membership>)
    ensures SameRows(ms, r)
    ensures forall i :: 0 <= i < |r| ==>
      r[i] == if IsMember(ms[i], cid, pid) then ms[i].(paymentStatus := Some(s)) else ms[i]
  {
    seq(|ms|, i requires 0 <= i < |ms| =>
      if IsMember(ms[i], cid, pid) then ms[i].(paymentStatus := Some(s)) else ms[i])
  }

  predicate ConsortiaValid(cs: map<ConsortiumId, Consortium>) {
    forall cid :: cid in cs ==> ValidConsortium(cs[cid])
  }

  predicate MembershipsValid(ms: seq<Membership>) {
    && (forall i :: 0 <= i < |ms| ==> ValidMembership(ms[i]))
    && MembershipPairsUnique(ms)
  }

  predicate PaymentsValid(ps: map<PaymentId, Payment>, next: nat) {
    && (forall id :: id in ps ==> id < next && ValidPayment(ps[id]))
    && PaymentKeysUnique(ps)
  }

  predicate ContemplationsValid(cs: map<ContemplationId, Contemplation>, next: nat) {
    forall id :: id in cs ==> id < next && ValidContemplation(cs[id])
  }

  class Database {
    var consortia: map<ConsortiumId, Consortium>
    var profiles: map<ParticipantId, Profile>
    var memberships: seq<Membership>
    var payments: map<PaymentId, Payment>
    var nextPaymentId: nat
    var contemplations: map<ContemplationId, Contemplation>
    var nextContemplationId: nat

    /** Every stored record satisfies its declared validators, the unique
        indexes hold, and the id counters are past every id in use. */
    predicate Valid()
      reads this
    {
      && ConsortiaValid(consortia)
      && MembershipsValid(memberships)
      && PaymentsValid(payments, nextPaymentId)
      && ContemplationsValid(contemplations, nextContemplationId)
    }

    constructor ()
      ensures Valid()
      ensures consortia == map[] && profiles == map[] && memberships == []
      ensures payments == map[] && contemplations == map[]
    {
      consortia := map[];
      profiles := map[];
      memberships := [];
      payments := map[];
      nextPaymentId := 0;
      contemplations := map[];
      nextContemplationId := 0;
    }
  }
}
