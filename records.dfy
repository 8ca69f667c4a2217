/** Records of the four tables of the consortium engine (consortium, membership,
    payment, contemplation) and the field constraints their model declarations
    put on them. Money and quota counts are exact reals; a calendar date is
    reduced to an absolute month number and a day of the month. */
module Records {

  type ConsortiumId = nat
  type ParticipantId = nat
  type ManagerId = nat
  type PaymentId = nat
  type ContemplationId = nat

  datatype Option<T> = None | Some(value: T)

  /** The failures a handler reports to its caller. `Invalid` is a model
      validator rejecting a write and `UniqueViolation` a unique index
      rejecting an insert; both reach the client as a server error. */
  datatype Error = NotFound | Conflict | BadRequest | Invalid | UniqueViolation

  datatype Result<T> = Ok(value: T) | Err(error: Error)

  // ---------------------------------------------------------------- dates

  /** A date: `month` counts months from an arbitrary origin (year * 12 + month - 1). */
  datatype Date = Date(month: int, day: int)

  predicate Before(a: Date, b: Date) {
    a.month < b.month || (a.month == b.month && a.day < b.day)
  }

  /** `setMonth(getMonth() + k)` on a date, without the day overflow of a real calendar. */
  function AddMonths(d: Date, k: int): (r: Date)
    ensures r.day == d.day && r.month - d.month == k
  {
    Date(d.month + k, d.day)
  }

  // ----------------------------------------------------------- consortium

  datatype ConsortiumStatus = Ativo | Fechado | Cancelado

  datatype Consortium = Consortium(
    manager: ManagerId,
    totalAmount: real,      // montante_total
    termMonths: int,        // prazo_meses
    totalQuotas: int,       // numero_cotas
    managerFee: real,       // taxa_gestor, per month
    monthlyIncrement: real, // acrescimo_mensal
    start: Date,            // data_inicio
    status: ConsortiumStatus)

  const MaxTerm: int := 120

  /** The validators declared on the consortium record. */
  predicate ValidConsortium(c: Consortium) {
    && c.totalAmount >= 0.0
    && 1 <= c.termMonths <= MaxTerm
    && c.totalQuotas >= 1
    && c.managerFee >= 0.0
    && c.monthlyIncrement >= 0.0
  }

  /** A consortium record as created from the given fields, with the
      declared defaults for the fee, the increment and the status. */
  function NewConsortium(manager: ManagerId, totalAmount: real, termMonths: int, totalQuotas: int,
                         managerFee: Option<real>, monthlyIncrement: Option<real>,
                         status: Option<ConsortiumStatus>, start: Date): (c: Consortium)
    ensures c.managerFee == (if managerFee.Some? then managerFee.value else 0.0)
    ensures c.monthlyIncrement == (if monthlyIncrement.Some? then monthlyIncrement.value else 0.0)
    ensures c.status == (if status.Some? then status.value else Ativo)
    ensures c.totalAmount == totalAmount && c.termMonths == termMonths && c.totalQuotas == totalQuotas
    ensures ValidConsortium(c) <==>
      && totalAmount >= 0.0 && 1 <= termMonths <= MaxTerm && totalQuotas >= 1
      && (managerFee.Some? ==> managerFee.value >= 0.0)
      && (monthlyIncrement.Some? ==> monthlyIncrement.value >= 0.0)
  {
    Consortium(manager, totalAmount, termMonths, totalQuotas,
               match managerFee case Some(f) => f case None => 0.0,
               match monthlyIncrement case Some(i) => i case None => 0.0,
               start,
               match status case Some(s) => s case None => Ativo)
  }

  // ----------------------------------------------------------- membership

  /** The member-level payment status (`status_pagamento`); it has no
      declared default, so a fresh membership carries none. */
  datatype MemberStatus = EmDia | EmAtraso | Contemplado

  datatype Membership = Membership(
    consortium: ConsortiumId,
    participant: ParticipantId,
    quotas: real,                     // numero_cotas
    individualAmount: real,           // montante_individual
    joined: Date,                     // data_entrada
    left: Option<Date>,               // data_saida
    active: bool,                     // ativo
    contemplated: bool,               // contemplado
    contemplationMonth: Option<int>,  // mes_contemplacao
    paymentStatus: Option<MemberStatus>)

  predicate IsWhole(x: real) {
    x.Floor as real == x
  }

  /** The quota-count validators: within [0.5, 3.0], and twice the count has
      no fractional part, i.e. a multiple of 0.5. */
  predicate ValidQuotaCount(q: real) {
    0.5 <= q <= 3.0 && IsWhole(q * 2.0)
  }

  const MinIndividualAmount: real := 0.01

  predicate ValidMembership(m: Membership) {
    ValidQuotaCount(m.quotas) && m.individualAmount >= MinIndividualAmount
  }

  /** A membership as inserted: active, no leave date, not contemplated. */
  function NewMembership(cid: ConsortiumId, pid: ParticipantId, quotas: real, amount: real,
                         today: Date): (m: Membership)
    ensures m.active && m.left == None && !m.contemplated && m.contemplationMonth == None
    ensures m.consortium == cid && m.participant == pid && m.joined == today
    ensures ValidMembership(m) <==> ValidQuotaCount(quotas) && amount >= MinIndividualAmount
  {
    Membership(cid, pid, quotas, amount, today, None, true, false, None, None)
  }

  /** The valid quota counts are exactly the six half-steps from 0.5 to 3.0. */
  lemma QuotaCountValues(q: real)
    ensures ValidQuotaCount(q) <==> q in {0.5, 1.0, 1.5, 2.0, 2.5, 3.0}
  {
    if ValidQuotaCount(q) {
      var k := (q * 2.0).Floor;
      assert k as real == q * 2.0;
      assert 1 <= k <= 6;
      assert q == k as real / 2.0;
      if k == 1 {} else if k == 2 {} else if k == 3 {} else if k == 4 {} else if k == 5 {} else {}
    }
  }

  // -------------------------------------------------------------- payment

  datatype PaymentStatus = Pendente | Pago | EmAtraso | Parcial

  datatype Payment = Payment(
    consortium: ConsortiumId,
    participant: ParticipantId,
    month: int,            // mes_referencia
    due: Date,             // data_vencimento
    paidOn: Option<Date>,  // data_pagamento
    expected: real,        // valor_esperado
    paid: Option<real>,    // valor_pago
    status: PaymentStatus)

  predicate ValidPayment(p: Payment) {
    && 1 <= p.month <= MaxTerm
    && p.expected >= 0.0
    && (p.paid.Some? ==> p.paid.value >= 0.0)
  }

  /** A payment row as created: pending, unpaid. */
  function NewPayment(cid: ConsortiumId, pid: ParticipantId, month: int, due: Date,
                      expected: real): (p: Payment)
    ensures p.status == Pendente && p.paid == None && p.paidOn == None
    ensures (p.consortium, p.participant, p.month) == (cid, pid, month)
    ensures ValidPayment(p) <==> 1 <= month <= MaxTerm && expected >= 0.0
  {
    Payment(cid, pid, month, due, None, expected, None, Pendente)
  }

  // -------------------------------------------------------- contemplation

  datatype ContemplationKind = Sorteio | Lance | Automatico

  datatype Contemplation = Contemplation(
    consortium: ConsortiumId,
    participant: ParticipantId,
    month: int,              // mes_contemplacao
    date: Date,              // data_contemplacao
    awarded: real,           // valor_contemplado
    kind: ContemplationKind, // tipo_contemplacao
    bid: Option<real>,       // valor_lance
    notes: Option<string>)   // observacoes

  predicate ValidContemplation(c: Contemplation) {
    && 1 <= c.month <= MaxTerm
    && c.awarded >= 0.0
    && (c.bid.Some? ==> c.bid.value >= 0.0)
  }

  /** The type of a contemplation as created: `automatico` unless given. */
  function KindOrDefault(kind: Option<ContemplationKind>): (k: ContemplationKind)
    ensures kind.None? ==> k == Automatico
    ensures kind.Some? ==> k == kind.value
  {
    match kind
    case Some(k) => k
    case None => Automatico
  }
}
