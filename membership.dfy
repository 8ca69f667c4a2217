/** The consortium routes around the engine: the request schemas for a
    consortium and for a new member, the pagination of the consortium list,
    and the join and leave handlers of the membership table. */
module Membership {
  import opened Records
  import opened Tables
  import Contemplations

  // ------------------------------------------------------ consortium schema

  /** The body of a consortium creation request. Numbers arrive as reals;
      the schema insists that the term and the quota count are whole. */
  datatype ConsortiumRequest = ConsortiumRequest(
    name: string,
    totalAmount: real,
    termMonths: real,
    totalQuotas: real,
    managerFee: Option<real>,
    monthlyIncrement: Option<real>,
    status: Option<ConsortiumStatus>,
    start: Date,
    description: Option<string>)

  /** `consorcioSchema`: a name of 2 to 150 characters, a non-negative total,
      a whole term within [1, 120], a whole quota count of at least 1,
      non-negative optional fee and increment, and a description that is
      not the empty string when present. */
  predicate ConsortiumSchema(req: ConsortiumRequest) {
    && 2 <= |req.name| <= 150
    && req.totalAmount >= 0.0
    && IsWhole(req.termMonths) && 1.0 <= req.termMonths <= MaxTerm as real
    && IsWhole(req.totalQuotas) && req.totalQuotas >= 1.0
    && (req.managerFee.Some? ==> req.managerFee.value >= 0.0)
    && (req.monthlyIncrement.Some? ==> req.monthlyIncrement.value >= 0.0)
    && (req.description.Some? ==> |req.description.value| > 0)
  }

  /** The record `Consorcio.create` builds from a request of manager `manager`. */
  function ConsortiumOf(manager: ManagerId, req: ConsortiumRequest): Consortium {
    NewConsortium(manager, req.totalAmount, req.termMonths.Floor, req.totalQuotas.Floor,
                  req.managerFee, req.monthlyIncrement, req.status, req.start)
  }

  /** On the numeric fields the schema and the record validators agree: a
      request with an acceptable name and description and whole counts
      passes the schema exactly when the record it creates is valid. */
  lemma ConsortiumSchemaMatchesRecord(manager: ManagerId, req: ConsortiumRequest)
    requires 2 <= |req.name| <= 150 && (req.description.Some? ==> |req.description.value| > 0)
    requires IsWhole(req.termMonths) && IsWhole(req.totalQuotas)
    ensures ConsortiumSchema(req) <==> ValidConsortium(ConsortiumOf(manager, req))
  {
    var c := ConsortiumOf(manager, req);
    assert c.termMonths as real == req.termMonths && c.totalQuotas as real == req.totalQuotas;
  }

  /** Every accepted request creates a valid record, with the fee and the
      increment defaulting to 0 and the status to `ativo`. */
  lemma ConsortiumSchemaCreatesValid(manager: ManagerId, req: ConsortiumRequest)
    requires ConsortiumSchema(req)
    ensures var c := ConsortiumOf(manager, req);
      && ValidConsortium(c)
      && c.termMonths as real == req.termMonths && c.totalQuotas as real == req.totalQuotas
      && (req.managerFee.None? ==> c.managerFee == 0.0)
      && (req.monthlyIncrement.None? ==> c.monthlyIncrement == 0.0)
      && (req.status.None? ==> c.status == Ativo)
  {
    ConsortiumSchemaMatchesRecord(manager, req);
  }

  // -------------------------------------------------------- member schema

  /** The body of an add-member request. */
  datatype JoinRequest = JoinRequest(participant: ParticipantId, quotas: real, amount: real)

  /** `addParticipanteSchema`: a quota count that is a multiple of 0.5
      within [0.5, 3.0], and a positive individual amount. */
  predicate JoinSchema(req: JoinRequest) {
    && IsWhole(req.quotas / 0.5) && 0.5 <= req.quotas <= 3.0
    && req.amount > 0.0
  }

  /** The schema's quota rule is the membership validator's, so an accepted
      quota count is one of the six half-steps; the amount rule is weaker
      than the validator's minimum of 0.01. */
  lemma JoinSchemaQuotas(req: JoinRequest)
    ensures JoinSchema(req) <==> ValidQuotaCount(req.quotas) && req.amount > 0.0
    ensures JoinSchema(req) ==> req.quotas in {0.5, 1.0, 1.5, 2.0, 2.5, 3.0}
  {
    assert req.quotas / 0.5 == req.quotas * 2.0;
    QuotaCountValues(req.quotas);
  }

  /** 0.3 quotas are rejected, whatever the amount. */
  lemma JoinSchemaRejectsThirdOfQuota(pid: ParticipantId, amount: real)
    ensures !JoinSchema(JoinRequest(pid, 0.3, amount))
  {
    JoinSchemaQuotas(JoinRequest(pid, 0.3, amount));
  }

  // ----------------------------------------------------------- pagination

  /** The row offset of page `page`. */
  function Offset(page: int, limit: nat): (r: int)
    ensures page >= 1 ==> r >= 0
    ensures page >= 1 ==> r == (page - 1) * limit
  {
    (page - 1) * limit
  }

  /** `Math.ceil(count / limit)`; with a limit of 0 the quotient is not a
      number and there is no page count. */
  function Pages(count: nat, limit: nat): (r: Option<nat>)
    ensures r.None? <==> limit == 0
    ensures r.Some? ==> (r.value - 1) * limit < count <= r.value * limit || (count == 0 && r.value == 0)
  {
    if limit == 0 then None else Some((count + limit - 1) / limit)
  }

  /** The page count is the least number of pages that holds every row, and
      each of those pages starts at a row that exists. */
  lemma PagesIsLeast(count: nat, limit: nat, p: nat)
    requires limit > 0
    ensures p * limit >= count <==> p >= Pages(count, limit).value
    ensures 1 <= p <= Pages(count, limit).value ==> 0 <= Offset(p, limit) < count
  {
    var n := Pages(count, limit).value;
    if p >= n {
      MulLeft(n, p, limit);
    }
    if p < n {
      MulLeft(p, n - 1, limit);
    }
  }

  lemma MulLeft(a: nat, b: nat, k: nat)
    requires a <= b
    ensures a * k <= b * k
  {
  }

  // ------------------------------------------------------------------ join

  /** The participant lookup of the add-member route: a profile of the
      same manager that is active. */
  predicate ActiveProfileOf(profiles: map<ParticipantId, Profile>, manager: ManagerId, pid: ParticipantId) {
    pid in profiles && profiles[pid].manager == manager && profiles[pid].active
  }

  /** The outcome of POST /consorcios/:id/participantes, check by check in
      the route's order; the last two are the record validator and the
      unique (consortium, participant) index refusing the insert. */
  function JoinOutcome(consortia: map<ConsortiumId, Consortium>, profiles: map<ParticipantId, Profile>,
                       ms: seq<Membership>, manager: ManagerId, cid: ConsortiumId, req: JoinRequest,
                       today: Date): (r: Result<Membership>)
    ensures r.Ok? ==> r.value == NewMembership(cid, req.participant, req.quotas, req.amount, today)
    ensures r.Ok? <==>
      && JoinSchema(req) && Contemplations.Owns(consortia, manager, cid)
      && ActiveProfileOf(profiles, manager, req.participant)
      && req.amount >= MinIndividualAmount
      && FindMember(ms, cid, req.participant).None?
  {
    if !JoinSchema(req) then Err(BadRequest)
    else if !Contemplations.Owns(consortia, manager, cid) then Err(NotFound)
    else if !ActiveProfileOf(profiles, manager, req.participant) then Err(NotFound)
    else if FindActiveMember(ms, cid, req.participant).Some? then Err(Conflict)
    else if req.amount < MinIndividualAmount then Err(Invalid)
    else if FindMember(ms, cid, req.participant).Some? then Err(UniqueViolation)
    else Ok(NewMembership(cid, req.participant, req.quotas, req.amount, today))
  }

  /** A row accepted by the join keeps the membership table valid. */
  lemma JoinKeepsTableValid(consortia: map<ConsortiumId, Consortium>, profiles: map<ParticipantId, Profile>,
                            ms: seq<Membership>, manager: ManagerId, cid: ConsortiumId, req: JoinRequest, today: Date)
    requires MembershipsValid(ms)
    requires JoinOutcome(consortia, profiles, ms, manager, cid, req, today).Ok?
    ensures MembershipsValid(ms + [JoinOutcome(consortia, profiles, ms, manager, cid, req, today).value])
  {
    var row := JoinOutcome(consortia, profiles, ms, manager, cid, req, today).value;
    JoinSchemaQuotas(req);
    var ms' := ms + [row];
    forall i, j | 0 <= i < j < |ms'|
      ensures ms'[i].consortium != ms'[j].consortium || ms'[i].participant != ms'[j].participant
    {
      if j == |ms| {
        assert !IsMember(ms[i], cid, req.participant);
      } else {
        assert ms'[i] == ms[i] && ms'[j] == ms[j];
      }
    }
    assert forall i :: 0 <= i < |ms'| ==> ValidMembership(ms'[i]) by {
      forall i | 0 <= i < |ms'| ensures ValidMembership(ms'[i]) {
        if i < |ms| { assert ms'[i] == ms[i]; }
      }
    }
  }

  /** Joining the same pair again right after a successful join is refused
      with 409: the new row is the pair's active membership. */
  lemma JoinTwiceConflicts(consortia: map<ConsortiumId, Consortium>, profiles: map<ParticipantId, Profile>,
                           ms: seq<Membership>, manager: ManagerId, cid: ConsortiumId, req: JoinRequest,
                           today: Date, req2: JoinRequest, later: Date)
    requires JoinOutcome(consortia, profiles, ms, manager, cid, req, today).Ok?
    requires JoinSchema(req2) && req2.participant == req.participant
    ensures JoinOutcome(consortia, profiles, ms + [JoinOutcome(consortia, profiles, ms, manager, cid, req, today).value],
                        manager, cid, req2, later) == Err(Conflict)
  {
    var row := JoinOutcome(consortia, profiles, ms, manager, cid, req, today).value;
    var ms' := ms + [row];
    assert IsMember(ms'[|ms|], cid, req.participant) && ms'[|ms|].active;
  }

  /** Once a pair has left (its row kept, inactive), joining it again passes
      every route check and is refused by the unique index: a member cannot
      return to a consortium. */
  lemma RejoinHitsUniqueIndex(consortia: map<ConsortiumId, Consortium>, profiles: map<ParticipantId, Profile>,
                              ms: seq<Membership>, manager: ManagerId, cid: ConsortiumId, req: JoinRequest,
                              today: Date, k: nat)
    requires MembershipsValid(ms)
    requires k < |ms| && IsMember(ms[k], cid, req.participant) && !ms[k].active
    requires JoinSchema(req) && Contemplations.Owns(consortia, manager, cid)
    requires ActiveProfileOf(profiles, manager, req.participant) && req.amount >= MinIndividualAmount
    ensures JoinOutcome(consortia, profiles, ms, manager, cid, req, today) == Err(UniqueViolation)
  {
    forall i | 0 <= i < |ms| ensures !(IsMember(ms[i], cid, req.participant) && ms[i].active) {
      if i < k {
        assert ms[i].consortium != ms[k].consortium || ms[i].participant != ms[k].participant;
      } else if i > k {
        assert ms[k].consortium != ms[i].consortium || ms[k].participant != ms[i].participant;
      }
    }
  }

  /** POST /consorcios/:id/participantes. */
  method Join(db: Database, manager: ManagerId, cid: ConsortiumId, req: JoinRequest, today: Date)
    returns (r: Result<Membership>)
    requires db.Valid()
    modifies db
    ensures db.Valid()
    ensures r == JoinOutcome(old(db.consortia), old(db.profiles), old(db.memberships), manager, cid, req, today)
    ensures r.Ok? ==> db.memberships == old(db.memberships) + [r.value]
    ensures r.Err? ==> db.memberships == old(db.memberships)
    ensures db.consortia == old(db.consortia) && db.profiles == old(db.profiles)
    ensures db.payments == old(db.payments) && db.nextPaymentId == old(db.nextPaymentId)
    ensures db.contemplations == old(db.contemplations) && db.nextContemplationId == old(db.nextContemplationId)
  {
    r := JoinOutcome(db.consortia, db.profiles, db.memberships, manager, cid, req, today);
    if r.Ok? {
      JoinKeepsTableValid(db.consortia, db.profiles, db.memberships, manager, cid, req, today);
      db.memberships := db.memberships + [r.value];
    }
  }

  // ----------------------------------------------------------------- leave

  /** The payment table without the rows of the pair. */
  function PaymentsWithout(ps: map<PaymentId, Payment>, cid: ConsortiumId, pid: ParticipantId): (r: map<PaymentId, Payment>)
    ensures forall id :: id in r <==> id in ps && !(ps[id].consortium == cid && ps[id].participant == pid)
    ensures forall id :: id in r ==> r[id] == ps[id]
  {
    map id | id in ps && !(ps[id].consortium == cid && ps[id].participant == pid) :: ps[id]
  }

  /** The contemplation table without the rows of the pair. */
  function ContemplationsWithout(cs: map<ContemplationId, Contemplation>, cid: ConsortiumId, pid: ParticipantId)
    : (r: map<ContemplationId, Contemplation>)
    ensures forall id :: id in r <==> id in cs && !(cs[id].consortium == cid && cs[id].participant == pid)
    ensures forall id :: id in r ==> r[id] == cs[id]
  {
    map id | id in cs && !(cs[id].consortium == cid && cs[id].participant == pid) :: cs[id]
  }

  /** Dropping rows keeps the payment constraints. */
  lemma PaymentsWithoutValid(ps: map<PaymentId, Payment>, next: nat, cid: ConsortiumId, pid: ParticipantId)
    requires PaymentsValid(ps, next)
    ensures PaymentsValid(PaymentsWithout(ps, cid, pid), next)
  {
    var r := PaymentsWithout(ps, cid, pid);
    forall a, b | a in r && b in r && a != b
      ensures (r[a].consortium, r[a].participant, r[a].month) != (r[b].consortium, r[b].participant, r[b].month)
    {
      assert a in ps && b in ps;
    }
  }

  /** DELETE /consorcios/:id/participantes/:participanteId: NotFound unless
      the consortium is the manager's and the pair has an active membership;
      otherwise every payment and contemplation row of the pair in that
      consortium is deleted and the membership is closed with a leave date.
      Its contemplation flags stay as they were. */
  method Leave(db: Database, manager: ManagerId, cid: ConsortiumId, pid: ParticipantId, today: Date)
    returns (r: Result<()>)
    requires db.Valid()
    modifies db
    ensures db.Valid()
    ensures db.consortia == old(db.consortia) && db.profiles == old(db.profiles)
    ensures db.nextPaymentId == old(db.nextPaymentId) && db.nextContemplationId == old(db.nextContemplationId)
    ensures r.Err? <==>
      !Contemplations.Owns(old(db.consortia), manager, cid) || FindActiveMember(old(db.memberships), cid, pid).None?
    ensures r.Err? ==> r.error == NotFound && unchanged(db)
    ensures r.Ok? ==>
      && db.payments == PaymentsWithout(old(db.payments), cid, pid)
      && db.contemplations == ContemplationsWithout(old(db.contemplations), cid, pid)
      && var k := FindActiveMember(old(db.memberships), cid, pid).value;
         db.memberships == old(db.memberships)[k := old(db.memberships)[k].(active := false, left := Some(today))]
  {
    if !Contemplations.Owns(db.consortia, manager, cid) {
      return Err(NotFound);
    }
    var found := FindActiveMember(db.memberships, cid, pid);
    if found.None? {
      return Err(NotFound);
    }
    var k := found.value;
    PaymentsWithoutValid(db.payments, db.nextPaymentId, cid, pid);
    db.payments := PaymentsWithout(db.payments, cid, pid);
    db.contemplations := ContemplationsWithout(db.contemplations, cid, pid);
    var ms := db.memberships;
    var closed := ms[k := ms[k].(active := false, left := Some(today))];
    assert MembershipsValid(closed) by {
      forall i | 0 <= i < |closed| ensures ValidMembership(closed[i]) {
        assert ValidMembership(ms[i]);
      }
      assert forall i :: 0 <= i < |ms| ==> closed[i].consortium == ms[i].consortium && closed[i].participant == ms[i].participant;
    }
    db.memberships := closed;
    r := Ok(());
  }

  /** After a leave, the pair has no active membership, no payment row and
      no contemplation row in the consortium, so a second leave is refused. */
  lemma LeaveLeavesNothing(ps: map<PaymentId, Payment>, cs: map<ContemplationId, Contemplation>,
                           ms: seq<Membership>, cid: ConsortiumId, pid: ParticipantId, today: Date)
    requires MembershipPairsUnique(ms)
    requires FindActiveMember(ms, cid, pid).Some?
    ensures var k := FindActiveMember(ms, cid, pid).value;
      var closed := ms[k := ms[k].(active := false, left := Some(today))];
      && FindActiveMember(closed, cid, pid).None?
      && FindMember(closed, cid, pid) == Some(k)
      && (forall month :: !HasPayment(PaymentsWithout(ps, cid, pid), cid, pid, month))
      && (forall id :: id in ContemplationsWithout(cs, cid, pid) ==>
            !(ContemplationsWithout(cs, cid, pid)[id].consortium == cid && ContemplationsWithout(cs, cid, pid)[id].participant == pid))
  {
    var k := FindActiveMember(ms, cid, pid).value;
    var closed := ms[k := ms[k].(active := false, left := Some(today))];
    forall i | 0 <= i < |closed| ensures !(IsMember(closed[i], cid, pid) && closed[i].active) {
      if i != k {
        assert closed[i] == ms[i];
        assert !IsMember(ms[i], cid, pid);
      }
    }
    forall j | 0 <= j < k ensures !IsMember(closed[j], cid, pid) {
      assert closed[j] == ms[j];
      assert ms[j].consortium != ms[k].consortium || ms[j].participant != ms[k].participant;
    }
    assert IsMember(closed[k], cid, pid);
  }
}
