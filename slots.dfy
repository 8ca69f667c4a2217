/** The planning half of automatic contemplation: the eligible members'
    quotas are split into slots, whole slots take one month each, and the
    fractional slots are bundled greedily into groups of at most two members
    and at most one quota, one month per group, until the months run out. */
module Slots {
  import opened Records

  /** An eligible member as the allocator sees it. */
  datatype Candidate = Candidate(participant: ParticipantId, quotas: real)

  /** One share of a member's quotas to be placed in a month. */
  datatype Slot = Slot(participant: ParticipantId, share: real)

  /** A generated contemplation: whose, and in which month. */
  datatype Placement = Placement(participant: ParticipantId, month: int)

  // --------------------------------------------------------------- sums

  function QuotaSum(cs: seq<Candidate>): real {
    if |cs| == 0 then 0.0 else QuotaSum(cs[..|cs| - 1]) + cs[|cs| - 1].quotas
  }

  function SlotSum(s: seq<Slot>): real {
    if |s| == 0 then 0.0 else SlotSum(s[..|s| - 1]) + s[|s| - 1].share
  }

  lemma {:induction false} SlotSumAppend(a: seq<Slot>, b: seq<Slot>)
    ensures SlotSum(a + b) == SlotSum(a) + SlotSum(b)
    decreases |b|
  {
    if |b| == 0 {
      assert a + b == a;
    } else {
      assert (a + b)[..|a + b| - 1] == a + b[..|b| - 1];
      SlotSumAppend(a, b[..|b| - 1]);
    }
  }

  // -------------------------------------------------------------- split

  /** The number of whole slots of a member: the integer part of a quota
      count of at least one, none below one. */
  function WholeCount(q: real): int {
    if q >= 1.0 then q.Floor else 0
  }

  function Repeat(pid: ParticipantId, n: int): (r: seq<Slot>)
    ensures |r| == if n < 0 then 0 else n
    ensures forall i :: 0 <= i < |r| ==> r[i] == Slot(pid, 1.0)
  {
    if n <= 0 then [] else Repeat(pid, n - 1) + [Slot(pid, 1.0)]
  }

  /** The fractional slot of a member: the part above the integer part when
      there is one, or the whole count when it is below one. */
  function FracSlotsOf(c: Candidate): seq<Slot> {
    if c.quotas >= 1.0 then
      var rest := c.quotas - c.quotas.Floor as real;
      if rest > 0.0 then [Slot(c.participant, rest)] else []
    else [Slot(c.participant, c.quotas)]
  }

  function WholeSlots(cs: seq<Candidate>): seq<Slot> {
    if |cs| == 0 then []
    else WholeSlots(cs[..|cs| - 1]) + Repeat(cs[|cs| - 1].participant, WholeCount(cs[|cs| - 1].quotas))
  }

  function FracSlots(cs: seq<Candidate>): seq<Slot> {
    if |cs| == 0 then [] else FracSlots(cs[..|cs| - 1]) + FracSlotsOf(cs[|cs| - 1])
  }

  /** The split loops: for each member in order, its whole slots to one list
      and its fractional slot, if any, to the other. */
  method SplitQuotas(cs: seq<Candidate>) returns (whole: seq<Slot>, frac: seq<Slot>)
    ensures whole == WholeSlots(cs) && frac == FracSlots(cs)
  {
    whole, frac := [], [];
    var k := 0;
    while k < |cs|
      invariant 0 <= k <= |cs|
      invariant whole == WholeSlots(cs[..k]) && frac == FracSlots(cs[..k])
    {
      var c := cs[k];
      assert cs[..k + 1][..k] == cs[..k];
      if c.quotas >= 1.0 {
        var n := c.quotas.Floor;
        var i := 0;
        while i < n
          invariant 0 <= i <= n
          invariant whole == WholeSlots(cs[..k]) + Repeat(c.participant, i)
        {
          whole := whole + [Slot(c.participant, 1.0)];
          i := i + 1;
        }
        var rest := c.quotas - n as real;
        if rest > 0.0 {
          frac := frac + [Slot(c.participant, rest)];
        }
      } else {
        frac := frac + [Slot(c.participant, c.quotas)];
      }
      k := k + 1;
    }
    assert cs[..|cs|] == cs;
  }

  lemma {:induction false} RepeatSum(pid: ParticipantId, n: int)
    requires n >= 0
    ensures SlotSum(Repeat(pid, n)) == n as real
  {
    if n > 0 {
      var r := Repeat(pid, n);
      assert r[..|r| - 1] == Repeat(pid, n - 1);
      RepeatSum(pid, n - 1);
    }
  }

  /** One member's whole slots and fractional slot add up to its quota count. */
  lemma MemberSplitConserves(c: Candidate)
    ensures WholeCount(c.quotas) as real + SlotSum(FracSlotsOf(c)) == c.quotas
  {
    var f := FracSlotsOf(c);
    if |f| == 1 {
      assert f[..0] == [];
    }
  }

  /** Splitting conserves quotas: the whole and fractional slots together
      add up to the members' quota total. */
  lemma {:induction false} SplitConserves(cs: seq<Candidate>)
    requires forall i :: 0 <= i < |cs| ==> cs[i].quotas >= 0.0
    ensures SlotSum(WholeSlots(cs)) + SlotSum(FracSlots(cs)) == QuotaSum(cs)
  {
    if |cs| > 0 {
      var init, c := cs[..|cs| - 1], cs[|cs| - 1];
      SplitConserves(init);
      SlotSumAppend(WholeSlots(init), Repeat(c.participant, WholeCount(c.quotas)));
      SlotSumAppend(FracSlots(init), FracSlotsOf(c));
      RepeatSum(c.participant, WholeCount(c.quotas));
      MemberSplitConserves(c);
    }
  }

  /** Whole slots are worth exactly one quota; a fractional slot of a member
      with a positive quota count lies strictly between 0 and 1. */
  lemma {:induction false} SlotShares(cs: seq<Candidate>)
    requires forall i :: 0 <= i < |cs| ==> cs[i].quotas > 0.0
    ensures forall s :: s in WholeSlots(cs) ==> s.share == 1.0
    ensures forall s :: s in FracSlots(cs) ==> 0.0 < s.share < 1.0
  {
    if |cs| > 0 {
      SlotShares(cs[..|cs| - 1]);
    }
  }

  /** A member with a valid quota count has a fractional slot exactly when
      its count is not whole, and that slot is then half a quota. */
  lemma FracSlotOfValidCount(c: Candidate)
    requires ValidQuotaCount(c.quotas)
    ensures |FracSlotsOf(c)| <= 1
    ensures forall s :: s in FracSlotsOf(c) ==> s == Slot(c.participant, 0.5)
    ensures |FracSlotsOf(c)| == 1 <==> !IsWhole(c.quotas)
    ensures WholeCount(c.quotas) == c.quotas.Floor
  {
    QuotaCountValues(c.quotas);
  }

  // ------------------------------------------------------------ shuffles

  /** `b` is `a` in some order: what a sort with a random comparator leaves. */
  predicate IsShuffle<T(==)>(a: seq<T>, b: seq<T>) {
    multiset(a) == multiset(b)
  }

  lemma ShuffleKeepsElements<T>(a: seq<T>, b: seq<T>)
    requires IsShuffle(a, b)
    ensures |b| == |a|
    ensures forall x :: x in b <==> x in a
  {
    assert |b| == |multiset(b)| == |multiset(a)| == |a|;
    forall x ensures x in b <==> x in a {
      assert x in b <==> x in multiset(b);
      assert x in a <==> x in multiset(a);
    }
  }

  /** The months 1..term in order. */
  function MonthList(term: nat): (r: seq<int>)
    ensures |r| == term && forall i :: 0 <= i < term ==> r[i] == i + 1
  {
    seq(term, i => i + 1)
  }

  predicate Distinct<T(==)>(s: seq<T>) {
    forall i, j :: 0 <= i < j < |s| ==> s[i] != s[j]
  }

  lemma {:induction false} DistinctCountsOnce<T>(s: seq<T>, x: T)
    requires Distinct(s)
    ensures multiset(s)[x] <= 1
  {
    if |s| > 0 {
      var init := s[..|s| - 1];
      assert s == init + [s[|s| - 1]];
      DistinctCountsOnce(init, x);
      if x == s[|s| - 1] {
        assert x !in init;
      }
    }
  }

  lemma CountsOnceDistinct<T>(s: seq<T>)
    requires forall x :: multiset(s)[x] <= 1
    ensures Distinct(s)
  {
    forall i, j | 0 <= i < j < |s| ensures s[i] != s[j] {
      assert s == s[..i] + [s[i]] + s[i + 1..j] + [s[j]] + s[j + 1..];
      assert multiset(s)[s[i]] >= multiset([s[i]])[s[i]] + multiset([s[j]])[s[i]];
    }
  }

  /** Any order of the months 1..term lists each of them exactly once. */
  lemma ShuffledMonths(term: nat, months: seq<int>)
    requires IsShuffle(MonthList(term), months)
    ensures |months| == term && Distinct(months)
    ensures forall i :: 0 <= i < |months| ==> 1 <= months[i] <= term
  {
    assert |months| == |multiset(months)| == |multiset(MonthList(term))| == term;
    forall x ensures multiset(months)[x] <= 1 {
      DistinctCountsOnce(MonthList(term), x);
    }
    CountsOnceDistinct(months);
    forall i | 0 <= i < |months| ensures 1 <= months[i] <= term {
      assert months[i] in multiset(MonthList(term));
    }
  }

  // ------------------------------------------------------------ grouping

  /** The greedy bundling of fractional slots with no limit on months: a
      slot joins the current group when the group has fewer than two slots
      and the sum stays at most 1.0; otherwise the current group is closed
      and the slot starts a new one. The last open group is closed at the end. */
  function GroupsFrom(rest: seq<Slot>, cur: seq<Slot>, acc: real): seq<seq<Slot>>
    decreases |rest|
  {
    if |rest| == 0 then (if |cur| > 0 then [cur] else [])
    else if acc + rest[0].share <= 1.0 && |cur| < 2 then GroupsFrom(rest[1..], cur + [rest[0]], acc + rest[0].share)
    else (if |cur| > 0 then [cur] else []) + GroupsFrom(rest[1..], [rest[0]], rest[0].share)
  }

  function Groups(frac: seq<Slot>): seq<seq<Slot>> {
    GroupsFrom(frac, [], 0.0)
  }

  function Flatten(gs: seq<seq<Slot>>): seq<Slot> {
    if |gs| == 0 then [] else Flatten(gs[..|gs| - 1]) + gs[|gs| - 1]
  }

  lemma {:induction false} FlattenAppend(a: seq<seq<Slot>>, b: seq<seq<Slot>>)
    ensures Flatten(a + b) == Flatten(a) + Flatten(b)
    decreases |b|
  {
    if |b| == 0 {
      assert a + b == a;
    } else {
      var init, last := b[..|b| - 1], b[|b| - 1];
      assert (a + b)[..|a + b| - 1] == a + init && (a + b)[|a + b| - 1] == last;
      assert Flatten(a + b) == Flatten(a + init) + last;
      assert Flatten(b) == Flatten(init) + last;
      FlattenAppend(a, init);
    }
  }

  /** Grouping loses and duplicates nothing: the groups, read in order, are
      the open group followed by the remaining slots. */
  lemma {:induction false} GroupsFromFlatten(rest: seq<Slot>, cur: seq<Slot>, acc: real)
    ensures Flatten(GroupsFrom(rest, cur, acc)) == cur + rest
    decreases |rest|
  {
    if |rest| == 0 {
      if |cur| > 0 {
        assert Flatten([cur]) == Flatten([]) + cur;
      }
    } else if acc + rest[0].share <= 1.0 && |cur| < 2 {
      GroupsFromFlatten(rest[1..], cur + [rest[0]], acc + rest[0].share);
      assert cur + [rest[0]] + rest[1..] == cur + rest;
    } else {
      GroupsFromFlatten(rest[1..], [rest[0]], rest[0].share);
      var head: seq<seq<Slot>> := if |cur| > 0 then [cur] else [];
      FlattenAppend(head, GroupsFrom(rest[1..], [rest[0]], rest[0].share));
      if |cur| > 0 {
        assert Flatten([cur]) == Flatten([]) + cur;
      }
      assert [rest[0]] + rest[1..] == rest;
    }
  }

  /** Every fractional slot ends up in exactly one group, in order. */
  lemma GroupsConserve(frac: seq<Slot>)
    ensures Flatten(Groups(frac)) == frac
  {
    GroupsFromFlatten(frac, [], 0.0);
  }

  /** A group holds one or two slots whose shares add up to at most 1.0. */
  predicate GroupOk(g: seq<Slot>) {
    1 <= |g| <= 2 && SlotSum(g) <= 1.0
  }

  lemma {:induction false} GroupsFromBounded(rest: seq<Slot>, cur: seq<Slot>, acc: real)
    requires forall s :: s in rest ==> 0.0 < s.share <= 1.0
    requires |cur| <= 2 && SlotSum(cur) == acc && acc <= 1.0
    ensures forall g :: g in GroupsFrom(rest, cur, acc) ==> GroupOk(g)
    decreases |rest|
  {
    if |rest| == 0 {
    } else if acc + rest[0].share <= 1.0 && |cur| < 2 {
      assert (cur + [rest[0]])[..|cur|] == cur;
      GroupsFromBounded(rest[1..], cur + [rest[0]], acc + rest[0].share);
    } else {
      assert [rest[0]][..0] == [];
      GroupsFromBounded(rest[1..], [rest[0]], rest[0].share);
    }
  }

  /** With every share in (0, 1], every group has one or two members and at
      most one quota between them. */
  lemma GroupsBounded(frac: seq<Slot>)
    requires forall s :: s in frac ==> 0.0 < s.share <= 1.0
    ensures forall g :: g in Groups(frac) ==> GroupOk(g)
  {
    GroupsFromBounded(frac, [], 0.0);
  }

  // ---------------------------------------------------------------- plan

  function Min(a: int, b: int): int {
    if a <= b then a else b
  }

  /** Whole slot i takes month i, as long as there are months. */
  function WholeRows(whole: seq<Slot>, months: seq<int>, n: nat): (r: seq<Placement>)
    requires n <= |whole| && n <= |months|
    ensures |r| == n && forall i :: 0 <= i < n ==> r[i] == Placement(whole[i].participant, months[i])
  {
    seq(n, i requires 0 <= i < n => Placement(whole[i].participant, months[i]))
  }

  function RowsOfGroup(g: seq<Slot>, month: int): (r: seq<Placement>)
    ensures |r| == |g| && forall i :: 0 <= i < |g| ==> r[i] == Placement(g[i].participant, month)
  {
    seq(|g|, i requires 0 <= i < |g| => Placement(g[i].participant, month))
  }

  /** Group k takes month `months[base + k]`. */
  function GroupRows(gs: seq<seq<Slot>>, months: seq<int>, base: nat): seq<Placement>
    requires base + |gs| <= |months|
  {
    if |gs| == 0 then []
    else GroupRows(gs[..|gs| - 1], months, base) + RowsOfGroup(gs[|gs| - 1], months[base + |gs| - 1])
  }

  /** The number of groups that get a month once the whole slots have taken theirs. */
  function PlacedGroupCount(whole: seq<Slot>, frac: seq<Slot>, months: seq<int>): nat {
    var w := Min(|whole|, |months|);
    Min(|Groups(frac)|, |months| - w)
  }

  /** The contemplations automatic allocation generates, in order. */
  function PlannedRows(whole: seq<Slot>, frac: seq<Slot>, months: seq<int>): seq<Placement> {
    var w := Min(|whole|, |months|);
    WholeRows(whole, months, w) + GroupRows(Groups(frac)[..PlacedGroupCount(whole, frac, months)], months, w)
  }

  /** The group-phase rows: each member of each placed group with its group's month. */
  function PlannedGroupRows(whole: seq<Slot>, frac: seq<Slot>, months: seq<int>): seq<Placement> {
    var w := Min(|whole|, |months|);
    GroupRows(Groups(frac)[..PlacedGroupCount(whole, frac, months)], months, w)
  }

  lemma GroupsFromNonEmpty(rest: seq<Slot>, cur: seq<Slot>, acc: real)
    requires |cur| > 0
    ensures |GroupsFrom(rest, cur, acc)| > 0
    decreases |rest|
  {
    if |rest| > 0 {
      if acc + rest[0].share <= 1.0 && |cur| < 2 {
        GroupsFromNonEmpty(rest[1..], cur + [rest[0]], acc + rest[0].share);
      }
    }
  }

  /** The whole-slot loop: slot k takes month k, stopping when the months
      run out. */
  method PlaceWhole(whole: seq<Slot>, months: seq<int>) returns (rows: seq<Placement>)
    ensures rows == WholeRows(whole, months, Min(|whole|, |months|))
  {
    rows := [];
    var k := 0;
    while k < |whole|
      invariant 0 <= k <= |whole| && k <= |months|
      invariant rows == WholeRows(whole, months, k)
    {
      if k >= |months| {
        break;
      }
      rows := rows + [Placement(whole[k].participant, months[k])];
      k := k + 1;
    }
  }

  /** When the bundling loop stops for want of a month, the groups placed so
      far are all that fit. */
  lemma GroupsWhenStopped(frac: seq<Slot>, closed: seq<seq<Slot>>, rest: seq<Slot>, cur: seq<Slot>, acc: real)
    requires |cur| > 0 && Groups(frac) == closed + GroupsFrom(rest, cur, acc)
    ensures |closed| < |Groups(frac)| && closed == Groups(frac)[..|closed|]
  {
    GroupsFromNonEmpty(rest, cur, acc);
  }

  /** The bundling loop: fractional slots are grouped greedily, and closing
      a group takes the next month; the loop stops early when a group is
      to be closed and no month is left. On exit the groups closed so far
      have their rows, and `cur` is the group still open. */
  method BundleGroups(frac: seq<Slot>, months: seq<int>, w: nat)
    returns (groupRows: seq<Placement>, ghost closed: seq<seq<Slot>>, ghost rest: seq<Slot>,
             cur: seq<Slot>, acc: real, stopped: bool, mesIndex: nat)
    requires w <= |months|
    ensures w + |closed| == mesIndex <= |months|
    ensures Groups(frac) == closed + GroupsFrom(rest, cur, acc)
    ensures groupRows == GroupRows(closed, months, w)
    ensures stopped ==> mesIndex == |months| && |cur| > 0
    ensures !stopped ==> rest == []
  {
    mesIndex := w;
    groupRows := [];
    closed := [];
    cur := [];
    acc := 0.0;
    stopped := false;
    var i := 0;
    while i < |frac|
      invariant 0 <= i <= |frac|
      invariant w + |closed| == mesIndex <= |months|
      invariant Groups(frac) == closed + GroupsFrom(frac[i..], cur, acc)
      invariant groupRows == GroupRows(closed, months, w)
      invariant !stopped
    {
      var s := frac[i];
      assert frac[i..][0] == s && frac[i..][1..] == frac[i + 1..];
      if acc + s.share <= 1.0 && |cur| < 2 {
        cur := cur + [s];
        acc := acc + s.share;
      } else {
        if |cur| > 0 {
          if mesIndex >= |months| {
            stopped := true;
            rest := frac[i..];
            return;
          }
          groupRows := groupRows + RowsOfGroup(cur, months[mesIndex]);
          assert (closed + [cur])[..|closed|] == closed;
          closed := closed + [cur];
          mesIndex := mesIndex + 1;
        }
        cur := [s];
        acc := s.share;
      }
      i := i + 1;
    }
    rest := frac[i..];
    assert rest == [];
  }

  /** The bundling of the fractional slots into the months left after the
      whole slots: the loop, then the last open group when a month is left
      for it. */
  method PlaceGroups(frac: seq<Slot>, months: seq<int>, w: nat) returns (groupRows: seq<Placement>)
    requires w <= |months|
    ensures groupRows == GroupRows(Groups(frac)[..Min(|Groups(frac)|, |months| - w)], months, w)
  {
    var cur, acc, stopped, mesIndex;
    ghost var closed, rest;
    groupRows, closed, rest, cur, acc, stopped, mesIndex := BundleGroups(frac, months, w);
    if !stopped && |cur| > 0 && mesIndex < |months| {
      groupRows := groupRows + RowsOfGroup(cur, months[mesIndex]);
      assert (closed + [cur])[..|closed|] == closed;
      closed := closed + [cur];
      assert Groups(frac) == closed;
    } else if |cur| > 0 {
      GroupsWhenStopped(frac, closed, rest, cur, acc);
    } else {
      assert Groups(frac) == closed;
    }
    assert closed == Groups(frac)[..Min(|Groups(frac)|, |months| - w)];
  }

  /** The allocation loops with a month list already shuffled: whole slots
      one month each, stopping when the months run out; then the greedy
      bundling of the fractional slots into the months that are left. */
  method PlanAllocation(whole: seq<Slot>, frac: seq<Slot>, months: seq<int>)
    returns (rows: seq<Placement>, groupRows: seq<Placement>)
    ensures rows == PlannedRows(whole, frac, months)
    ensures groupRows == PlannedGroupRows(whole, frac, months)
  {
    var wholeRows := PlaceWhole(whole, months);
    groupRows := PlaceGroups(frac, months, Min(|whole|, |months|));
    rows := wholeRows + groupRows;
  }

  // ------------------------------------------------------ plan properties

  function Singletons(s: seq<Slot>): (r: seq<seq<Slot>>)
    ensures |r| == |s| && forall i :: 0 <= i < |s| ==> r[i] == [s[i]]
  {
    seq(|s|, i requires 0 <= i < |s| => [s[i]])
  }

  /** What takes a month, in month order: each placed whole slot on its own,
      then each placed group. */
  function PlannedUnits(whole: seq<Slot>, frac: seq<Slot>, months: seq<int>): seq<seq<Slot>> {
    var w := Min(|whole|, |months|);
    Singletons(whole[..w]) + Groups(frac)[..PlacedGroupCount(whole, frac, months)]
  }

  lemma {:induction false} GroupRowsAppend(a: seq<seq<Slot>>, b: seq<seq<Slot>>, months: seq<int>, base: nat)
    requires base + |a| + |b| <= |months|
    ensures GroupRows(a + b, months, base) == GroupRows(a, months, base) + GroupRows(b, months, base + |a|)
    decreases |b|
  {
    if |b| == 0 {
      assert a + b == a;
    } else {
      var init, last := b[..|b| - 1], b[|b| - 1];
      var lastRows := RowsOfGroup(last, months[base + |a| + |b| - 1]);
      assert (a + b)[..|a + b| - 1] == a + init && (a + b)[|a + b| - 1] == last;
      assert GroupRows(a + b, months, base) == GroupRows(a + init, months, base) + lastRows;
      assert GroupRows(b, months, base + |a|) == GroupRows(init, months, base + |a|) + lastRows;
      GroupRowsAppend(a, init, months, base);
    }
  }

  lemma {:induction false} WholeRowsAsUnits(whole: seq<Slot>, months: seq<int>, n: nat)
    requires n <= |whole| && n <= |months|
    ensures WholeRows(whole, months, n) == GroupRows(Singletons(whole[..n]), months, 0)
  {
    if n > 0 {
      WholeRowsAsUnits(whole, months, n - 1);
      assert Singletons(whole[..n])[..n - 1] == Singletons(whole[..n - 1]);
      assert WholeRows(whole, months, n) == WholeRows(whole, months, n - 1) + [Placement(whole[n - 1].participant, months[n - 1])];
    }
  }

  /** Unit j of the plan takes month `months[j]` for each of its slots, and
      there are no more units than months: with distinct months, every whole
      slot and every group has a month of its own. */
  lemma PlanIsUnits(whole: seq<Slot>, frac: seq<Slot>, months: seq<int>)
    ensures |PlannedUnits(whole, frac, months)| <= |months|
    ensures PlannedRows(whole, frac, months) == GroupRows(PlannedUnits(whole, frac, months), months, 0)
  {
    var w := Min(|whole|, |months|);
    var single, placed := Singletons(whole[..w]), Groups(frac)[..PlacedGroupCount(whole, frac, months)];
    WholeRowsAsUnits(whole, months, w);
    GroupRowsAppend(single, placed, months, 0);
  }

  /** Given whole slots of one quota and fractional shares in (0, 1], every
      unit of the plan is one or two slots of at most one quota together. */
  lemma PlanUnitsBounded(whole: seq<Slot>, frac: seq<Slot>, months: seq<int>)
    requires forall s :: s in whole ==> s.share == 1.0
    requires forall s :: s in frac ==> 0.0 < s.share <= 1.0
    ensures forall u :: u in PlannedUnits(whole, frac, months) ==> GroupOk(u)
  {
    GroupsBounded(frac);
    var w := Min(|whole|, |months|);
    forall u | u in PlannedUnits(whole, frac, months) ensures GroupOk(u) {
      if u in Singletons(whole[..w]) {
        var i :| 0 <= i < w && u == [whole[i]];
        assert whole[i] in whole;
        assert u[..0] == [];
      } else {
        var g := PlacedGroupCount(whole, frac, months);
        assert u in Groups(frac)[..g];
      }
    }
  }

  /** The plan places a prefix of the whole slots and a prefix of the
      fractional slots; when there are enough months it places them all,
      and otherwise it uses every month. */
  lemma PlanPlacesPrefixes(whole: seq<Slot>, frac: seq<Slot>, months: seq<int>)
    ensures var units := PlannedUnits(whole, frac, months);
            var w, gs := Min(|whole|, |months|), Groups(frac);
            var g := PlacedGroupCount(whole, frac, months);
            && Flatten(units) == whole[..w] + Flatten(gs[..g])
            && (|whole| + |gs| <= |months| ==> Flatten(units) == whole + frac)
            && (|whole| + |gs| > |months| ==> |units| == |months|)
  {
    var w, gs := Min(|whole|, |months|), Groups(frac);
    var g := PlacedGroupCount(whole, frac, months);
    var single := Singletons(whole[..w]);
    FlattenAppend(single, gs[..g]);
    FlattenSingletons(whole[..w]);
    if |whole| + |gs| <= |months| {
      assert gs[..g] == gs && whole[..w] == whole;
      GroupsConserve(frac);
    }
  }

  lemma {:induction false} FlattenSingletons(s: seq<Slot>)
    ensures Flatten(Singletons(s)) == s
  {
    if |s| > 0 {
      assert Singletons(s)[..|s| - 1] == Singletons(s[..|s| - 1]);
      FlattenSingletons(s[..|s| - 1]);
    }
  }

  // -------------------------------------------- valid counts always fit

  /** With every share half a quota the greedy bundling makes pairs: the
      number of groups is the number of slots, halved and rounded up. */
  lemma {:induction false} GroupsOfHalves(rest: seq<Slot>, cur: seq<Slot>, acc: real)
    requires forall s :: s in rest ==> s.share == 0.5
    requires |cur| <= 2 && acc == 0.5 * |cur| as real
    ensures |GroupsFrom(rest, cur, acc)| == (|cur| + |rest| + 1) / 2
    decreases |rest|
  {
    if |rest| > 0 {
      assert rest[0] in rest;
      if acc + rest[0].share <= 1.0 && |cur| < 2 {
        GroupsOfHalves(rest[1..], cur + [rest[0]], acc + rest[0].share);
      } else {
        GroupsOfHalves(rest[1..], [rest[0]], rest[0].share);
      }
    }
  }

  lemma {:induction false} SlotSumConstant(s: seq<Slot>, v: real)
    requires forall x :: x in s ==> x.share == v
    ensures SlotSum(s) == |s| as real * v
  {
    if |s| > 0 {
      assert s[|s| - 1] in s;
      SlotSumConstant(s[..|s| - 1], v);
    }
  }

  lemma {:induction false} FracSlotsOfValidCounts(cs: seq<Candidate>)
    requires forall i :: 0 <= i < |cs| ==> ValidQuotaCount(cs[i].quotas)
    ensures forall s :: s in FracSlots(cs) ==> s.share == 0.5
  {
    if |cs| > 0 {
      FracSlotsOfValidCounts(cs[..|cs| - 1]);
      FracSlotOfValidCount(cs[|cs| - 1]);
    }
  }

  /** Valid quota counts (multiples of 0.5 in [0.5, 3.0]) whose total does
      not exceed the term always fit: in whatever order the shuffles left the
      slots and the months, every whole slot and every group gets a month, so
      the stop on running out of months is never reached. */
  lemma ValidCountsFit(cs: seq<Candidate>, whole: seq<Slot>, frac: seq<Slot>, term: nat)
    requires forall i :: 0 <= i < |cs| ==> ValidQuotaCount(cs[i].quotas)
    requires QuotaSum(cs) <= term as real
    requires IsShuffle(WholeSlots(cs), whole) && IsShuffle(FracSlots(cs), frac)
    ensures |whole| + |Groups(frac)| <= term
  {
    var whole0, frac0 := WholeSlots(cs), FracSlots(cs);
    assert |whole| == |multiset(whole)| == |whole0|;
    assert |frac| == |multiset(frac)| == |frac0|;
    forall i | 0 <= i < |cs| ensures cs[i].quotas > 0.0 {
      assert ValidQuotaCount(cs[i].quotas);
    }
    SlotShares(cs);
    FracSlotsOfValidCounts(cs);
    SplitConserves(cs);
    SlotSumConstant(whole0, 1.0);
    SlotSumConstant(frac0, 0.5);
    assert |whole0| as real + 0.5 * |frac0| as real <= term as real;
    ShuffleKeepsElements(frac0, frac);
    GroupsOfHalves(frac, [], 0.0);
    assert |Groups(frac)| == (|frac0| + 1) / 2;
  }

  // ------------------------------------------------- per-member counts

  /** How many of the slots are the member's. */
  function SlotCount(s: seq<Slot>, pid: ParticipantId): nat {
    if |s| == 0 then 0
    else SlotCount(s[..|s| - 1], pid) + (if s[|s| - 1].participant == pid then 1 else 0)
  }

  /** How many of the generated contemplations are the member's. */
  function RowCount(rows: seq<Placement>, pid: ParticipantId): nat {
    if |rows| == 0 then 0
    else RowCount(rows[..|rows| - 1], pid) + (if rows[|rows| - 1].participant == pid then 1 else 0)
  }

  /** The month of the member's last generated contemplation, if any. */
  function LastMonth(rows: seq<Placement>, pid: ParticipantId): (r: Option<int>)
    ensures r.Some? ==> Placement(pid, r.value) in rows
  {
    if |rows| == 0 then None
    else if rows[|rows| - 1].participant == pid then Some(rows[|rows| - 1].month)
    else
      var r := LastMonth(rows[..|rows| - 1], pid);
      assert r.Some? ==> Placement(pid, r.value) in rows[..|rows| - 1];
      r
  }

  lemma {:induction false} LastMonthIffCounted(rows: seq<Placement>, pid: ParticipantId)
    ensures LastMonth(rows, pid).Some? <==> RowCount(rows, pid) > 0
  {
    if |rows| > 0 {
      LastMonthIffCounted(rows[..|rows| - 1], pid);
    }
  }

  lemma {:induction false} SlotCountAppend(a: seq<Slot>, b: seq<Slot>, pid: ParticipantId)
    ensures SlotCount(a + b, pid) == SlotCount(a, pid) + SlotCount(b, pid)
    decreases |b|
  {
    if |b| == 0 {
      assert a + b == a;
    } else {
      assert (a + b)[..|a + b| - 1] == a + b[..|b| - 1];
      SlotCountAppend(a, b[..|b| - 1], pid);
    }
  }

  lemma {:induction false} RowCountAppend(a: seq<Placement>, b: seq<Placement>, pid: ParticipantId)
    ensures RowCount(a + b, pid) == RowCount(a, pid) + RowCount(b, pid)
    decreases |b|
  {
    if |b| == 0 {
      assert a + b == a;
    } else {
      assert (a + b)[..|a + b| - 1] == a + b[..|b| - 1];
      RowCountAppend(a, b[..|b| - 1], pid);
    }
  }

  /** When all shares are equal, a member's slot count is the multiplicity
      of its one possible slot. */
  lemma {:induction false} SlotCountIsMultiplicity(s: seq<Slot>, pid: ParticipantId, v: real)
    requires forall x :: x in s ==> x.share == v
    ensures SlotCount(s, pid) == multiset(s)[Slot(pid, v)]
  {
    if |s| > 0 {
      var init := s[..|s| - 1];
      assert s == init + [s[|s| - 1]];
      SlotCountIsMultiplicity(init, pid, v);
    }
  }

  /** Reordering slots of equal share keeps every member's count. */
  lemma SlotCountShuffle(a: seq<Slot>, b: seq<Slot>, pid: ParticipantId, v: real)
    requires IsShuffle(a, b)
    requires forall x :: x in a ==> x.share == v
    ensures SlotCount(b, pid) == SlotCount(a, pid)
  {
    ShuffleKeepsElements(a, b);
    SlotCountIsMultiplicity(a, pid, v);
    SlotCountIsMultiplicity(b, pid, v);
  }

  lemma {:induction false} RowCountOfGroup(g: seq<Slot>, month: int, pid: ParticipantId)
    ensures RowCount(RowsOfGroup(g, month), pid) == SlotCount(g, pid)
  {
    if |g| > 0 {
      assert RowsOfGroup(g, month)[..|g| - 1] == RowsOfGroup(g[..|g| - 1], month);
      RowCountOfGroup(g[..|g| - 1], month, pid);
    }
  }

  /** The rows of a run of groups are, member by member, the groups' slots. */
  lemma {:induction false} RowCountOfGroupRows(gs: seq<seq<Slot>>, months: seq<int>, base: nat, pid: ParticipantId)
    requires base + |gs| <= |months|
    ensures RowCount(GroupRows(gs, months, base), pid) == SlotCount(Flatten(gs), pid)
  {
    if |gs| > 0 {
      var init, g := gs[..|gs| - 1], gs[|gs| - 1];
      RowCountOfGroupRows(init, months, base, pid);
      RowCountAppend(GroupRows(init, months, base), RowsOfGroup(g, months[base + |gs| - 1]), pid);
      RowCountOfGroup(g, months[base + |gs| - 1], pid);
      SlotCountAppend(Flatten(init), g, pid);
    }
  }

  lemma {:induction false} SlotCountRepeat(owner: ParticipantId, n: int, pid: ParticipantId)
    ensures SlotCount(Repeat(owner, n), pid) == if owner == pid && n > 0 then n else 0
  {
    if n > 0 {
      assert Repeat(owner, n)[..n - 1] == Repeat(owner, n - 1);
      SlotCountRepeat(owner, n - 1, pid);
    }
  }

  lemma FracSlotCount(c: Candidate, pid: ParticipantId)
    ensures SlotCount(FracSlotsOf(c), pid) == if c.participant == pid then |FracSlotsOf(c)| else 0
  {
    var f := FracSlotsOf(c);
    if |f| == 1 {
      assert f[..0] == [];
    }
  }

  /** No two candidates are the same member. */
  predicate DistinctParticipants(cs: seq<Candidate>) {
    forall i, j :: 0 <= i < j < |cs| ==> cs[i].participant != cs[j].participant
  }

  /** Someone who is not a candidate has no slots. */
  lemma {:induction false} NonMemberSlotCount(cs: seq<Candidate>, pid: ParticipantId)
    requires forall k :: 0 <= k < |cs| ==> cs[k].participant != pid
    ensures SlotCount(WholeSlots(cs), pid) == 0 && SlotCount(FracSlots(cs), pid) == 0
  {
    if |cs| > 0 {
      var init, c := cs[..|cs| - 1], cs[|cs| - 1];
      NonMemberSlotCount(init, pid);
      SlotCountAppend(WholeSlots(init), Repeat(c.participant, WholeCount(c.quotas)), pid);
      SlotCountAppend(FracSlots(init), FracSlotsOf(c), pid);
      SlotCountRepeat(c.participant, WholeCount(c.quotas), pid);
      FracSlotCount(c, pid);
    }
  }

  /** Dropping the last candidate keeps the participants distinct, and no
      earlier candidate shares the last one's participant. */
  lemma DistinctInit(cs: seq<Candidate>)
    requires DistinctParticipants(cs) && |cs| > 0
    ensures DistinctParticipants(cs[..|cs| - 1])
    ensures forall j :: 0 <= j < |cs| - 1 ==> cs[j].participant != cs[|cs| - 1].participant
  {
  }

  /** Split member by member: a candidate's slots are its whole count and
      its fractional slot. */
  lemma {:induction false} MemberSlotCount(cs: seq<Candidate>, k: nat)
    requires DistinctParticipants(cs) && k < |cs|
    ensures SlotCount(WholeSlots(cs), cs[k].participant) == WholeCount(cs[k].quotas)
    ensures SlotCount(FracSlots(cs), cs[k].participant) == |FracSlotsOf(cs[k])|
  {
    var init, c, pid := cs[..|cs| - 1], cs[|cs| - 1], cs[k].participant;
    DistinctInit(cs);
    SlotCountAppend(WholeSlots(init), Repeat(c.participant, WholeCount(c.quotas)), pid);
    SlotCountAppend(FracSlots(init), FracSlotsOf(c), pid);
    SlotCountRepeat(c.participant, WholeCount(c.quotas), pid);
    FracSlotCount(c, pid);
    if k == |cs| - 1 {
      NonMemberSlotCount(init, pid);
    } else {
      assert init[k] == cs[k];
      MemberSlotCount(init, k);
    }
  }

  /** With valid counts that fit the term, the plan gives every candidate
      exactly one contemplation per slot, and nobody else any. */
  lemma PlanRowsPerMember(cs: seq<Candidate>, whole: seq<Slot>, frac: seq<Slot>, months: seq<int>, pid: ParticipantId)
    requires forall i :: 0 <= i < |cs| ==> ValidQuotaCount(cs[i].quotas)
    requires DistinctParticipants(cs)
    requires QuotaSum(cs) <= |months| as real
    requires IsShuffle(WholeSlots(cs), whole) && IsShuffle(FracSlots(cs), frac)
    ensures forall k :: 0 <= k < |cs| && cs[k].participant == pid ==>
      RowCount(PlannedRows(whole, frac, months), pid) == WholeCount(cs[k].quotas) + |FracSlotsOf(cs[k])|
    ensures (forall k :: 0 <= k < |cs| ==> cs[k].participant != pid) ==>
      RowCount(PlannedRows(whole, frac, months), pid) == 0
  {
    var rows := PlannedRows(whole, frac, months);
    ValidCountsFit(cs, whole, frac, |months|);
    PlanIsUnits(whole, frac, months);
    PlanPlacesPrefixes(whole, frac, months);
    var units := PlannedUnits(whole, frac, months);
    RowCountOfGroupRows(units, months, 0, pid);
    SlotCountAppend(whole, frac, pid);
    forall i | 0 <= i < |cs| ensures cs[i].quotas > 0.0 {
      assert ValidQuotaCount(cs[i].quotas);
    }
    SlotShares(cs);
    FracSlotsOfValidCounts(cs);
    SlotCountShuffle(WholeSlots(cs), whole, pid, 1.0);
    SlotCountShuffle(FracSlots(cs), frac, pid, 0.5);
    forall k | 0 <= k < |cs| && cs[k].participant == pid
      ensures RowCount(rows, pid) == WholeCount(cs[k].quotas) + |FracSlotsOf(cs[k])|
    {
      MemberSlotCount(cs, k);
    }
    if forall k :: 0 <= k < |cs| ==> cs[k].participant != pid {
      NonMemberSlotCount(cs, pid);
    }
  }

  /** A valid quota count yields at least one slot, and at least as many as
      the integer part of the count. */
  lemma ValidCountSlots(c: Candidate)
    requires ValidQuotaCount(c.quotas)
    ensures WholeCount(c.quotas) + |FracSlotsOf(c)| >= 1
    ensures WholeCount(c.quotas) + |FracSlotsOf(c)| >= c.quotas.Floor
  {
    FracSlotOfValidCount(c);
    QuotaCountValues(c.quotas);
  }

  lemma {:induction false} LastMonthAppend(a: seq<Placement>, b: seq<Placement>, pid: ParticipantId)
    ensures LastMonth(a + b, pid) == if LastMonth(b, pid).Some? then LastMonth(b, pid) else LastMonth(a, pid)
    decreases |b|
  {
    if |b| == 0 {
      assert a + b == a;
    } else {
      assert (a + b)[..|a + b| - 1] == a + b[..|b| - 1];
      LastMonthAppend(a, b[..|b| - 1], pid);
    }
  }

  /** Every generated row is in one of the given months. */
  lemma PlannedRowsMonths(whole: seq<Slot>, frac: seq<Slot>, months: seq<int>)
    ensures forall p :: p in PlannedRows(whole, frac, months) ==> p.month in months
  {
    PlanIsUnits(whole, frac, months);
    GroupRowsMonths(PlannedUnits(whole, frac, months), months, 0);
  }

  lemma {:induction false} GroupRowsMonths(gs: seq<seq<Slot>>, months: seq<int>, base: nat)
    requires base + |gs| <= |months|
    ensures forall p :: p in GroupRows(gs, months, base) ==> p.month in months
  {
    if |gs| > 0 {
      GroupRowsMonths(gs[..|gs| - 1], months, base);
    }
  }

  /** The group-phase rows come after the whole-slot rows. */
  lemma PlannedRowsSplit(whole: seq<Slot>, frac: seq<Slot>, months: seq<int>)
    ensures PlannedRows(whole, frac, months)
         == WholeRows(whole, months, Min(|whole|, |months|)) + PlannedGroupRows(whole, frac, months)
  {
  }

  // ------------------------------------------------- one unit per month

  /** The generated rows that fall in month m, in order. */
  function RowsInMonth(rows: seq<Placement>, m: int): seq<Placement> {
    if |rows| == 0 then []
    else RowsInMonth(rows[..|rows| - 1], m) + (if rows[|rows| - 1].month == m then [rows[|rows| - 1]] else [])
  }

  lemma {:induction false} RowsInMonthAppend(a: seq<Placement>, b: seq<Placement>, m: int)
    ensures RowsInMonth(a + b, m) == RowsInMonth(a, m) + RowsInMonth(b, m)
    decreases |b|
  {
    if |b| == 0 {
      assert a + b == a;
    } else {
      assert (a + b)[..|a + b| - 1] == a + b[..|b| - 1];
      RowsInMonthAppend(a, b[..|b| - 1], m);
    }
  }

  lemma {:induction false} RowsInMonthOfGroup(g: seq<Slot>, month: int, m: int)
    ensures RowsInMonth(RowsOfGroup(g, month), m) == if month == m then RowsOfGroup(g, month) else []
  {
    if |g| > 0 {
      assert RowsOfGroup(g, month)[..|g| - 1] == RowsOfGroup(g[..|g| - 1], month);
      RowsInMonthOfGroup(g[..|g| - 1], month, m);
    }
  }

  /** The rows of month m after one more group: those before, then the
      group's own rows when the group took month m. */
  lemma GroupRowsInMonthSnoc(gs: seq<seq<Slot>>, months: seq<int>, base: nat, m: int)
    requires 0 < |gs| && base + |gs| <= |months|
    ensures var n := |gs|;
      RowsInMonth(GroupRows(gs, months, base), m)
      == RowsInMonth(GroupRows(gs[..n - 1], months, base), m)
         + (if months[base + n - 1] == m then RowsOfGroup(gs[n - 1], months[base + n - 1]) else [])
  {
    var n := |gs|;
    var init, last := GroupRows(gs[..n - 1], months, base), RowsOfGroup(gs[n - 1], months[base + n - 1]);
    assert GroupRows(gs, months, base) == init + last;
    RowsInMonthAppend(init, last, m);
    RowsInMonthOfGroup(gs[n - 1], months[base + n - 1], m);
  }

  lemma {:induction false} GroupRowsOutsideMonths(gs: seq<seq<Slot>>, months: seq<int>, base: nat, m: int)
    requires base + |gs| <= |months|
    requires forall k :: base <= k < base + |gs| ==> months[k] != m
    ensures RowsInMonth(GroupRows(gs, months, base), m) == []
  {
    if |gs| > 0 {
      GroupRowsInMonthSnoc(gs, months, base, m);
      GroupRowsOutsideMonths(gs[..|gs| - 1], months, base, m);
    }
  }

  lemma {:induction false} GroupRowsInMonth(gs: seq<seq<Slot>>, months: seq<int>, base: nat, j: nat)
    requires base + |gs| <= |months| && Distinct(months) && j < |gs|
    ensures RowsInMonth(GroupRows(gs, months, base), months[base + j]) == RowsOfGroup(gs[j], months[base + j])
  {
    var n, m := |gs|, months[base + j];
    GroupRowsInMonthSnoc(gs, months, base, m);
    if j < n - 1 {
      assert months[base + j] != months[base + n - 1];
      assert gs[..n - 1][j] == gs[j];
      GroupRowsInMonth(gs[..n - 1], months, base, j);
    } else {
      forall k | base <= k < base + (n - 1) ensures months[k] != m {
        assert k < base + j;
      }
      GroupRowsOutsideMonths(gs[..n - 1], months, base, m);
    }
  }

  lemma GroupRowsOneUnitPerMonth(units: seq<seq<Slot>>, months: seq<int>)
    requires |units| <= |months| && Distinct(months)
    ensures forall j :: 0 <= j < |units| ==>
      RowsInMonth(GroupRows(units, months, 0), months[j]) == RowsOfGroup(units[j], months[j])
    ensures forall m :: (forall k :: 0 <= k < |units| ==> months[k] != m) ==>
      RowsInMonth(GroupRows(units, months, 0), m) == []
  {
    forall j | 0 <= j < |units|
      ensures RowsInMonth(GroupRows(units, months, 0), months[j]) == RowsOfGroup(units[j], months[j])
    {
      GroupRowsInMonth(units, months, 0, j);
    }
    forall m | forall k :: 0 <= k < |units| ==> months[k] != m
      ensures RowsInMonth(GroupRows(units, months, 0), m) == []
    {
      GroupRowsOutsideMonths(units, months, 0, m);
    }
  }

  /** With distinct months, each month holds the rows of exactly one unit
      of the plan (one whole slot, or one group), and a month no unit took
      holds none: whole slots and groups never share a month. */
  lemma PlanOneUnitPerMonth(whole: seq<Slot>, frac: seq<Slot>, months: seq<int>)
    requires Distinct(months)
    ensures var units, rows := PlannedUnits(whole, frac, months), PlannedRows(whole, frac, months);
      && |units| <= |months|
      && (forall j :: 0 <= j < |units| ==> RowsInMonth(rows, months[j]) == RowsOfGroup(units[j], months[j]))
      && (forall m :: (forall k :: 0 <= k < |units| ==> months[k] != m) ==> RowsInMonth(rows, m) == [])
  {
    PlanIsUnits(whole, frac, months);
    GroupRowsOneUnitPerMonth(PlannedUnits(whole, frac, months), months);
  }


}
