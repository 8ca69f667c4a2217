/** Automatic contemplation of every member of a consortium that is not yet
    contemplated: the plan of the Slots module turned into contemplation
    rows, the group members marked as their groups are placed, and a final
    pass that marks each member whose rows cover the integer part of its
    quota count. */
module AutoAllocation {
  import opened Records
  import opened Tables
  import opened Slots
  import opened Contemplations

  /** An active member of the consortium not yet contemplated. */
  predicate Eligible(m: Membership, cid: ConsortiumId) {
    m.consortium == cid && m.active && !m.contemplated
  }

  /** The eligible members in table order, as the allocator sees them. */
  function Candidates(ms: seq<Membership>, cid: ConsortiumId): seq<Candidate> {
    if |ms| == 0 then []
    else
      var m := ms[|ms| - 1];
      Candidates(ms[..|ms| - 1], cid) + (if Eligible(m, cid) then [Candidate(m.participant, m.quotas)] else [])
  }

  /** The candidate is the one some eligible row of the table yields. */
  predicate FromEligible(ms: seq<Membership>, cid: ConsortiumId, c: Candidate) {
    exists i :: 0 <= i < |ms| && Eligible(ms[i], cid) && c == Candidate(ms[i].participant, ms[i].quotas)
  }

  /** Every candidate comes from an eligible row. */
  lemma {:induction false} CandidatesOrigin(ms: seq<Membership>, cid: ConsortiumId)
    ensures forall k :: 0 <= k < |Candidates(ms, cid)| ==> FromEligible(ms, cid, Candidates(ms, cid)[k])
  {
    if |ms| > 0 {
      var init, m := ms[..|ms| - 1], ms[|ms| - 1];
      CandidatesOrigin(init, cid);
      var prev, cs := Candidates(init, cid), Candidates(ms, cid);
      assert cs == prev + (if Eligible(m, cid) then [Candidate(m.participant, m.quotas)] else []);
      forall k | 0 <= k < |cs| ensures FromEligible(ms, cid, cs[k]) {
        if k < |prev| {
          assert cs[k] == prev[k] && FromEligible(init, cid, prev[k]);
          var i :| 0 <= i < |init| && Eligible(init[i], cid) && prev[k] == Candidate(init[i].participant, init[i].quotas);
          assert ms[i] == init[i];
        } else {
          assert ms[|ms| - 1] == m && Eligible(m, cid) && cs[k] == Candidate(m.participant, m.quotas);
          assert FromEligible(ms, cid, cs[k]);
        }
      }
    }
  }

  /** Every eligible row is a candidate. */
  lemma {:induction false} CandidatesComplete(ms: seq<Membership>, cid: ConsortiumId)
    ensures forall i :: 0 <= i < |ms| && Eligible(ms[i], cid) ==>
      Candidate(ms[i].participant, ms[i].quotas) in Candidates(ms, cid)
  {
    if |ms| > 0 {
      var init, m := ms[..|ms| - 1], ms[|ms| - 1];
      CandidatesComplete(init, cid);
      var prev, cs := Candidates(init, cid), Candidates(ms, cid);
      assert cs == prev + (if Eligible(m, cid) then [Candidate(m.participant, m.quotas)] else []);
      forall i | 0 <= i < |ms| && Eligible(ms[i], cid) ensures Candidate(ms[i].participant, ms[i].quotas) in cs {
        if i < |init| {
          assert init[i] == ms[i];
          assert Candidate(ms[i].participant, ms[i].quotas) in prev;
        } else {
          assert ms[i] == m;
        }
      }
    }
  }

  /** With unique (consortium, participant) pairs no member is a candidate twice. */
  lemma {:induction false} CandidatesDistinct(ms: seq<Membership>, cid: ConsortiumId)
    requires MembershipPairsUnique(ms)
    ensures DistinctParticipants(Candidates(ms, cid))
  {
    if |ms| > 0 {
      var init, m := ms[..|ms| - 1], ms[|ms| - 1];
      assert MembershipPairsUnique(init) by {
        forall i, j | 0 <= i < j < |init|
          ensures init[i].consortium != init[j].consortium || init[i].participant != init[j].participant
        {
          assert init[i] == ms[i] && init[j] == ms[j];
        }
      }
      CandidatesDistinct(init, cid);
      CandidatesOrigin(init, cid);
      var prev, cs := Candidates(init, cid), Candidates(ms, cid);
      if Eligible(m, cid) {
        assert cs == prev + [Candidate(m.participant, m.quotas)];
        forall k | 0 <= k < |prev| ensures prev[k].participant != m.participant {
          assert FromEligible(init, cid, prev[k]);
          var i :| 0 <= i < |init| && Eligible(init[i], cid) && prev[k] == Candidate(init[i].participant, init[i].quotas);
          assert ms[i] == init[i];
        }
        forall i, j | 0 <= i < j < |cs| ensures cs[i].participant != cs[j].participant {
          if j < |prev| {
            assert cs[i] == prev[i] && cs[j] == prev[j];
          } else {
            assert cs[i] == prev[i];
          }
        }
      } else {
        assert cs == prev;
      }
    }
  }

  /** The candidates are exactly the eligible rows; with unique pairs no
      member appears twice, and every count is a valid one. */
  lemma CandidatesFacts(ms: seq<Membership>, cid: ConsortiumId)
    requires MembershipsValid(ms)
    ensures var cs := Candidates(ms, cid);
      && DistinctParticipants(cs)
      && (forall k :: 0 <= k < |cs| ==> ValidQuotaCount(cs[k].quotas))
      && (forall k :: 0 <= k < |cs| ==> FromEligible(ms, cid, cs[k]))
      && (forall i :: 0 <= i < |ms| && Eligible(ms[i], cid) ==> Candidate(ms[i].participant, ms[i].quotas) in cs)
  {
    CandidatesOrigin(ms, cid);
    CandidatesComplete(ms, cid);
    CandidatesDistinct(ms, cid);
    var cs := Candidates(ms, cid);
    forall k | 0 <= k < |cs| ensures ValidQuotaCount(cs[k].quotas) {
      assert FromEligible(ms, cid, cs[k]);
      var i :| 0 <= i < |ms| && Eligible(ms[i], cid) && cs[k] == Candidate(ms[i].participant, ms[i].quotas);
      assert ValidMembership(ms[i]);
    }
  }

  /** The final pass's test: the member has generated rows, at least as many
      as the integer part of its quota count. */
  predicate Qualifies(rows: seq<Placement>, c: Candidate) {
    LastMonth(rows, c.participant).Some? && RowCount(rows, c.participant) >= c.quotas.Floor
  }

  /** The marks of the final pass: a qualifying member gets the month of its
      last generated row. */
  function FinalMarks(rows: seq<Placement>, cs: seq<Candidate>): seq<Placement> {
    if |cs| == 0 then []
    else
      var c := cs[|cs| - 1];
      FinalMarks(rows, cs[..|cs| - 1])
        + (if Qualifies(rows, c) then [Placement(c.participant, LastMonth(rows, c.participant).value)] else [])
  }

  lemma {:induction false} FinalMarksLast(rows: seq<Placement>, cs: seq<Candidate>, pid: ParticipantId)
    requires DistinctParticipants(cs)
    ensures forall k :: 0 <= k < |cs| && cs[k].participant == pid ==>
      LastMonth(FinalMarks(rows, cs), pid) == if Qualifies(rows, cs[k]) then LastMonth(rows, pid) else None
    ensures (forall k :: 0 <= k < |cs| ==> cs[k].participant != pid) ==> LastMonth(FinalMarks(rows, cs), pid) == None
  {
    if |cs| > 0 {
      var init, c := cs[..|cs| - 1], cs[|cs| - 1];
      FinalMarksLast(rows, init, pid);
      var tail := if Qualifies(rows, c) then [Placement(c.participant, LastMonth(rows, c.participant).value)] else [];
      LastMonthAppend(FinalMarks(rows, init), tail, pid);
      if tail != [] {
        assert tail[..0] == [];
      }
      forall k | 0 <= k < |init| ensures init[k] == cs[k] && init[k].participant != c.participant {
      }
    }
  }

  /** The contemplation rows the route creates for a plan: type
      `automatico`, no bid, no notes. */
  function AutoRows(cid: ConsortiumId, c: Consortium, rows: seq<Placement>): (r: seq<Contemplation>)
    ensures |r| == |rows|
    ensures forall k :: 0 <= k < |rows| ==>
      r[k] == NewRow(cid, c, rows[k].participant, rows[k].month, Automatico, None, None)
  {
    seq(|rows|, k requires 0 <= k < |rows| => NewRow(cid, c, rows[k].participant, rows[k].month, Automatico, None, None))
  }

  /** Every row automatic allocation creates is an `automatico` row with no
      bid or notes that awards the consortium's whole pool, dated at the
      start moved on month - 1 months for its placement's month. */
  lemma AutoRowsAwardPool(cid: ConsortiumId, c: Consortium, rows: seq<Placement>)
    ensures var r := AutoRows(cid, c, rows);
      forall k :: 0 <= k < |r| ==>
        && r[k].consortium == cid && r[k].participant == rows[k].participant && r[k].month == rows[k].month
        && r[k].awarded == c.totalAmount && r[k].date == AwardDate(c, rows[k].month)
        && r[k].kind == Automatico && r[k].bid == None && r[k].notes == None
  {
  }

  /** The member table after the group marks and the final pass. */
  function AutoMarked(ms: seq<Membership>, cid: ConsortiumId, cands: seq<Candidate>,
                      whole: seq<Slot>, frac: seq<Slot>, months: seq<int>): seq<Membership>
  {
    var rows := PlannedRows(whole, frac, months);
    ApplyMarks(ApplyMarks(ms, cid, PlannedGroupRows(whole, frac, months)), cid, FinalMarks(rows, cands))
  }

  /** Whatever order the shuffles produce, allocation on valid data that
      passed the term check contemplates every eligible member, each at the
      month of its last generated row, gives each member one row per slot,
      and touches no other row. */
  lemma AutoContemplatesEveryEligible(ms: seq<Membership>, cid: ConsortiumId, whole: seq<Slot>, frac: seq<Slot>,
                                      months: seq<int>)
    requires MembershipsValid(ms)
    requires QuotaSum(Candidates(ms, cid)) <= |months| as real
    requires IsShuffle(WholeSlots(Candidates(ms, cid)), whole) && IsShuffle(FracSlots(Candidates(ms, cid)), frac)
    ensures var rows := PlannedRows(whole, frac, months);
      var after := AutoMarked(ms, cid, Candidates(ms, cid), whole, frac, months);
      && |after| == |ms|
      && (forall i :: 0 <= i < |ms| && Eligible(ms[i], cid) ==>
            && LastMonth(rows, ms[i].participant).Some?
            && RowCount(rows, ms[i].participant)
                 == WholeCount(ms[i].quotas) + |FracSlotsOf(Candidate(ms[i].participant, ms[i].quotas))|)
      && (forall i :: 0 <= i < |ms| ==>
            after[i] == if Eligible(ms[i], cid) then Marked(ms[i], cid, LastMonth(rows, ms[i].participant)) else ms[i])
  {
    forall i | 0 <= i < |ms|
      ensures Eligible(ms[i], cid) ==>
        && LastMonth(PlannedRows(whole, frac, months), ms[i].participant).Some?
        && RowCount(PlannedRows(whole, frac, months), ms[i].participant)
             == WholeCount(ms[i].quotas) + |FracSlotsOf(Candidate(ms[i].participant, ms[i].quotas))|
      ensures AutoMarked(ms, cid, Candidates(ms, cid), whole, frac, months)[i]
                == if Eligible(ms[i], cid) then Marked(ms[i], cid, LastMonth(PlannedRows(whole, frac, months), ms[i].participant)) else ms[i]
    {
      AutoContemplatesMember(ms, cid, whole, frac, months, i);
    }
  }

  /** One member's part of AutoContemplatesEveryEligible. */
  lemma AutoContemplatesMember(ms: seq<Membership>, cid: ConsortiumId, whole: seq<Slot>, frac: seq<Slot>,
                               months: seq<int>, i: int)
    requires MembershipsValid(ms) && 0 <= i < |ms|
    requires QuotaSum(Candidates(ms, cid)) <= |months| as real
    requires IsShuffle(WholeSlots(Candidates(ms, cid)), whole) && IsShuffle(FracSlots(Candidates(ms, cid)), frac)
    ensures var rows := PlannedRows(whole, frac, months);
      var after := AutoMarked(ms, cid, Candidates(ms, cid), whole, frac, months);
      && |after| == |ms|
      && (Eligible(ms[i], cid) ==>
            && LastMonth(rows, ms[i].participant).Some?
            && RowCount(rows, ms[i].participant)
                 == WholeCount(ms[i].quotas) + |FracSlotsOf(Candidate(ms[i].participant, ms[i].quotas))|)
      && after[i] == if Eligible(ms[i], cid) then Marked(ms[i], cid, LastMonth(rows, ms[i].participant)) else ms[i]
  {
    if Eligible(ms[i], cid) {
      AutoContemplatesEligible(ms, cid, whole, frac, months, i);
    } else {
      AutoSkipsIneligible(ms, cid, whole, frac, months, i);
    }
  }

  /** An eligible member gets one row per slot and is marked at its last month. */
  lemma AutoContemplatesEligible(ms: seq<Membership>, cid: ConsortiumId, whole: seq<Slot>, frac: seq<Slot>,
                                 months: seq<int>, i: int)
    requires MembershipsValid(ms) && 0 <= i < |ms| && Eligible(ms[i], cid)
    requires QuotaSum(Candidates(ms, cid)) <= |months| as real
    requires IsShuffle(WholeSlots(Candidates(ms, cid)), whole) && IsShuffle(FracSlots(Candidates(ms, cid)), frac)
    ensures var rows := PlannedRows(whole, frac, months);
      var after := AutoMarked(ms, cid, Candidates(ms, cid), whole, frac, months);
      && |after| == |ms|
      && LastMonth(rows, ms[i].participant).Some?
      && RowCount(rows, ms[i].participant)
           == WholeCount(ms[i].quotas) + |FracSlotsOf(Candidate(ms[i].participant, ms[i].quotas))|
      && after[i] == Marked(ms[i], cid, LastMonth(rows, ms[i].participant))
  {
    var cands := Candidates(ms, cid);
    var rows := PlannedRows(whole, frac, months);
    CandidatesFacts(ms, cid);
    PlannedRowsSplit(whole, frac, months);
    var p := ms[i].participant;
    PlanRowsPerMember(cands, whole, frac, months, p);
    FinalMarksLast(rows, cands, p);
    LastMonthIffCounted(rows, p);
    var c := Candidate(p, ms[i].quotas);
    var k :| 0 <= k < |cands| && cands[k] == c;
    ValidCountSlots(c);
    assert Qualifies(rows, c);
  }

  /** A member that is not eligible is left as it was. */
  lemma AutoSkipsIneligible(ms: seq<Membership>, cid: ConsortiumId, whole: seq<Slot>, frac: seq<Slot>,
                            months: seq<int>, i: int)
    requires MembershipsValid(ms) && 0 <= i < |ms| && !Eligible(ms[i], cid)
    requires QuotaSum(Candidates(ms, cid)) <= |months| as real
    requires IsShuffle(WholeSlots(Candidates(ms, cid)), whole) && IsShuffle(FracSlots(Candidates(ms, cid)), frac)
    ensures var after := AutoMarked(ms, cid, Candidates(ms, cid), whole, frac, months);
      |after| == |ms| && after[i] == ms[i]
  {
    var cands := Candidates(ms, cid);
    var rows, groups := PlannedRows(whole, frac, months), PlannedGroupRows(whole, frac, months);
    CandidatesFacts(ms, cid);
    PlannedRowsSplit(whole, frac, months);
    var p := ms[i].participant;
    PlanRowsPerMember(cands, whole, frac, months, p);
    FinalMarksLast(rows, cands, p);
    LastMonthIffCounted(rows, p);
    if ms[i].consortium == cid {
      forall k | 0 <= k < |cands| ensures cands[k].participant != p {
        var j :| 0 <= j < |ms| && Eligible(ms[j], cid) && cands[k] == Candidate(ms[j].participant, ms[j].quotas);
        assert j != i;
      }
      RowCountAppend(WholeRows(whole, months, Min(|whole|, |months|)), groups, p);
      LastMonthIffCounted(groups, p);
    }
  }

  /** auto-contemplar. The random sorts of the route are inputs: `whole`,
      `frac` and `months` are the orders they produced, each a reordering of
      what the route sorts. */
  method AutoContemplate(db: Database, manager: ManagerId, cid: ConsortiumId,
                         whole: seq<Slot>, frac: seq<Slot>, months: seq<int>)
    returns (r: Result<seq<Contemplation>>)
    requires db.Valid()
    requires IsShuffle(WholeSlots(Candidates(db.memberships, cid)), whole)
    requires IsShuffle(FracSlots(Candidates(db.memberships, cid)), frac)
    requires cid in db.consortia ==> IsShuffle(MonthList(db.consortia[cid].termMonths), months)
    modifies db
    ensures db.Valid()
    ensures db.consortia == old(db.consortia) && db.profiles == old(db.profiles)
    ensures db.payments == old(db.payments) && db.nextPaymentId == old(db.nextPaymentId)
    ensures !Owns(old(db.consortia), manager, cid) ==> r == Err(NotFound)
    ensures Owns(old(db.consortia), manager, cid) ==>
      var cands := Candidates(old(db.memberships), cid);
      && (|cands| == 0 ==> r == Err(BadRequest))
      && (|cands| > 0 && QuotaSum(cands) > old(db.consortia)[cid].termMonths as real ==> r == Err(BadRequest))
      && (|cands| > 0 && QuotaSum(cands) <= old(db.consortia)[cid].termMonths as real ==> r.Ok?)
    ensures r.Err? ==>
      && db.memberships == old(db.memberships) && db.contemplations == old(db.contemplations)
      && db.nextContemplationId == old(db.nextContemplationId)
    ensures r.Ok? ==>
      && Owns(old(db.consortia), manager, cid)
      && var rows := PlannedRows(whole, frac, months);
      && r.value == AutoRows(cid, old(db.consortia)[cid], rows)
      && db.contemplations == Inserted(old(db.contemplations), old(db.nextContemplationId), r.value)
      && db.nextContemplationId == old(db.nextContemplationId) + |rows|
      && |db.memberships| == |old(db.memberships)|
      && forall i :: 0 <= i < |db.memberships| ==>
           db.memberships[i] ==
             if Eligible(old(db.memberships)[i], cid)
             then Marked(old(db.memberships)[i], cid, LastMonth(rows, old(db.memberships)[i].participant))
             else old(db.memberships)[i]
  {
    if !(cid in db.consortia && db.consortia[cid].manager == manager) {
      return Err(NotFound);
    }
    var c := db.consortia[cid];
    var ms0 := db.memberships;
    var cands := Candidates(ms0, cid);
    if |cands| == 0 {
      return Err(BadRequest);
    }
    if QuotaSum(cands) > c.termMonths as real {
      return Err(BadRequest);
    }
    var split, fracs := SplitQuotas(cands);
    assert IsShuffle(split, whole) && IsShuffle(fracs, frac);
    var rows, groups := PlanAllocation(whole, frac, months);
    ShuffledMonths(c.termMonths, months);
    PlannedRowsMonths(whole, frac, months);
    var created := CommitAuto(db, cid, rows, groups, cands);
    AutoContemplatesEveryEligible(ms0, cid, whole, frac, months);
    r := Ok(created);
  }

  /** The writes of a successful allocation: the rows, then the group marks,
      then the final pass. */
  method CommitAuto(db: Database, cid: ConsortiumId, rows: seq<Placement>, groups: seq<Placement>,
                    cands: seq<Candidate>)
    returns (created: seq<Contemplation>)
    requires db.Valid() && cid in db.consortia
    requires forall p :: p in rows ==> 1 <= p.month <= db.consortia[cid].termMonths
    modifies db
    ensures db.Valid()
    ensures db.consortia == old(db.consortia) && db.profiles == old(db.profiles)
    ensures db.payments == old(db.payments) && db.nextPaymentId == old(db.nextPaymentId)
    ensures created == AutoRows(cid, db.consortia[cid], rows)
    ensures db.contemplations == Inserted(old(db.contemplations), old(db.nextContemplationId), created)
    ensures db.nextContemplationId == old(db.nextContemplationId) + |rows|
    ensures db.memberships == ApplyMarks(ApplyMarks(old(db.memberships), cid, groups), cid, FinalMarks(rows, cands))
  {
    var c := db.consortia[cid];
    var cs0, next, ms0 := db.contemplations, db.nextContemplationId, db.memberships;
    created := AutoRows(cid, c, rows);
    forall k | 0 <= k < |created| ensures ValidContemplation(created[k]) {
      assert rows[k] in rows;
      assert ValidConsortium(c);
    }
    InsertedValid(cs0, next, created);
    var ms1 := ApplyMarks(ms0, cid, groups);
    var ms2 := ApplyMarks(ms1, cid, FinalMarks(rows, cands));
    SameRowsKeepConstraints(ms0, ms1);
    SameRowsKeepConstraints(ms1, ms2);
    db.contemplations, db.nextContemplationId, db.memberships := Inserted(cs0, next, created), next + |rows|, ms2;
  }
}
