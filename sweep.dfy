/** The scheduled escalation job of `supabase/functions/update-start-status`:
    for each milestone in the order IFR, IFA, IFB, every monitoring row whose
    milestone status is `Start` and whose `actual_start_<m>` lies strictly more
    than one day in the past moves to `In-Progress`. The three bulk updates run
    one after the other on the same table; each reports the ids it changed, or
    an error, and the response carries the sum of the reported counts. */
module StartSweep {
  import opened Common
  import opened Domain

  /** `Date.now() - 24 * 60 * 60 * 1000`: rows started before this instant are promoted. */
  function Threshold(now: int): (t: int)
    ensures now - t == DayMs
  {
    now - DayMs
  }

  /** `.eq('status_description_<m>', 'Start').lt('actual_start_<m>', oneDayAgo)`;
      a null start never compares less than anything. */
  predicate Eligible(r: Row, m: Category, threshold: int) {
    r.Col(m).status == Some(Start) && r.Col(m).actualStart.Some? && r.Col(m).actualStart.value < threshold
  }

  /** `.update({ status_description_<m>: 'In-Progress' })` applied to one row. */
  function Promote(r: Row, m: Category, threshold: int): (p: Row)
    ensures Eligible(r, m, threshold) ==> p.Col(m) == r.Col(m).(status := Some(InProgress))
    ensures !Eligible(r, m, threshold) ==> p == r
    ensures forall d :: d != m ==> p.Col(d) == r.Col(d)
    ensures SameHeader(p, r) && p.category == r.category
    ensures p.approval == r.approval && p.approvalComment == r.approvalComment
  {
    if Eligible(r, m, threshold) then r.WithCol(m, r.Col(m).(status := Some(InProgress))) else r
  }

  /** One bulk update over the whole table. */
  function PromoteAll(rows: seq<Row>, m: Category, threshold: int): (r: seq<Row>)
    ensures |r| == |rows|
    ensures forall i :: 0 <= i < |rows| && !Eligible(rows[i], m, threshold) ==> r[i] == rows[i]
  {
    seq(|rows|, i requires 0 <= i < |rows| => Promote(rows[i], m, threshold))
  }

  /** `.select('id')` after the update: the ids of the rows it matched, in table order. */
  function UpdatedIds(rows: seq<Row>, m: Category, threshold: int): (ids: seq<string>)
    ensures |ids| <= |rows|
  {
    if |rows| == 0 then []
    else
      var last := rows[|rows| - 1];
      UpdatedIds(rows[..|rows| - 1], m, threshold) + (if Eligible(last, m, threshold) then [last.id] else [])
  }

  /** The indices of the rows the filter of milestone m matches. */
  function EligibleIndices(rows: seq<Row>, m: Category, threshold: int): set<nat> {
    set i: nat | i < |rows| && Eligible(rows[i], m, threshold)
  }

  /** The reported ids are ids of matching rows, every matching row's id is
      reported, the report has one id per matching row, and it is empty exactly
      when no row matches. */
  lemma UpdatedIdsMeaning(rows: seq<Row>, m: Category, threshold: int)
    ensures var ids := UpdatedIds(rows, m, threshold);
      forall k :: 0 <= k < |ids| ==>
        exists i :: 0 <= i < |rows| && rows[i].id == ids[k] && Eligible(rows[i], m, threshold)
    ensures forall i :: 0 <= i < |rows| && Eligible(rows[i], m, threshold) ==> rows[i].id in UpdatedIds(rows, m, threshold)
    ensures |UpdatedIds(rows, m, threshold)| == |EligibleIndices(rows, m, threshold)|
    ensures |UpdatedIds(rows, m, threshold)| == 0 <==> forall i :: 0 <= i < |rows| ==> !Eligible(rows[i], m, threshold)
  {
    UpdatedIdsSound(rows, m, threshold);
    UpdatedIdsComplete(rows, m, threshold);
    UpdatedIdsCount(rows, m, threshold);
    if |UpdatedIds(rows, m, threshold)| == 0 {
      forall i | 0 <= i < |rows| ensures !Eligible(rows[i], m, threshold) {
        assert i in EligibleIndices(rows, m, threshold) <==> Eligible(rows[i], m, threshold);
      }
    }
  }

  lemma {:induction false} UpdatedIdsSound(rows: seq<Row>, m: Category, threshold: int)
    ensures forall k :: 0 <= k < |UpdatedIds(rows, m, threshold)| ==>
      exists i :: 0 <= i < |rows| && rows[i].id == UpdatedIds(rows, m, threshold)[k] && Eligible(rows[i], m, threshold)
    decreases |rows|
  {
    if |rows| > 0 {
      var init := rows[..|rows| - 1];
      var last := rows[|rows| - 1];
      UpdatedIdsSound(init, m, threshold);
      var ids0 := UpdatedIds(init, m, threshold);
      var ids := UpdatedIds(rows, m, threshold);
      assert ids == ids0 + (if Eligible(last, m, threshold) then [last.id] else []);
      forall k | 0 <= k < |ids|
        ensures exists i :: 0 <= i < |rows| && rows[i].id == ids[k] && Eligible(rows[i], m, threshold)
      {
        if k < |ids0| {
          var i :| 0 <= i < |init| && init[i].id == ids0[k] && Eligible(init[i], m, threshold);
          assert rows[i] == init[i];
        } else {
          assert rows[|rows| - 1].id == ids[k];
        }
      }
    } else {
      assert UpdatedIds(rows, m, threshold) == [];
    }
  }

  lemma {:induction false} UpdatedIdsComplete(rows: seq<Row>, m: Category, threshold: int)
    ensures forall i :: 0 <= i < |rows| && Eligible(rows[i], m, threshold) ==> rows[i].id in UpdatedIds(rows, m, threshold)
    decreases |rows|
  {
    if |rows| > 0 {
      var init := rows[..|rows| - 1];
      UpdatedIdsComplete(init, m, threshold);
      assert forall i :: 0 <= i < |init| ==> init[i] == rows[i];
    }
  }

  lemma {:induction false} UpdatedIdsCount(rows: seq<Row>, m: Category, threshold: int)
    ensures |UpdatedIds(rows, m, threshold)| == |EligibleIndices(rows, m, threshold)|
    decreases |rows|
  {
    if |rows| > 0 {
      var init := rows[..|rows| - 1];
      var n := |rows| - 1;
      UpdatedIdsCount(init, m, threshold);
      var p := r => Eligible(r, m, threshold);
      IndexSetSnoc(rows, p, n);
      assert |UpdatedIds(rows, m, threshold)|
             == |UpdatedIds(init, m, threshold)| + (if p(rows[n]) then 1 else 0);
      assert EligibleIndices(rows, m, threshold) == IndexSet(rows, p, |rows|);
      assert EligibleIndices(init, m, threshold) == IndexSet(rows, p, n) by {
        assert forall i: nat :: i < n ==> init[i] == rows[i];
      }
    } else {
      assert EligibleIndices(rows, m, threshold) == {};
    }
  }

  /** The indices below n whose element satisfies p. */
  function IndexSet<T>(s: seq<T>, p: T -> bool, n: nat): set<nat>
    requires n <= |s|
  {
    set i: nat | i < n && p(s[i])
  }

  /** Counting one element more. */
  lemma IndexSetSnoc<T>(s: seq<T>, p: T -> bool, n: nat)
    requires n < |s|
    ensures |IndexSet(s, p, n + 1)| == |IndexSet(s, p, n)| + (if p(s[n]) then 1 else 0)
  {
    var a := IndexSet(s, p, n);
    var b := IndexSet(s, p, n + 1);
    var extra: set<nat> := if p(s[n]) then {n} else {};
    forall i: nat ensures i in b <==> i in a + extra {
    }
    assert b == a + extra;
    assert n !in a;
    assert |a + extra| == |a| + |extra|;
  }

  /** A row changes under the update of milestone m exactly when the filter matches it. */
  lemma PromoteChangesIffEligible(r: Row, m: Category, threshold: int)
    ensures Promote(r, m, threshold) != r <==> Eligible(r, m, threshold)
  {
    if Eligible(r, m, threshold) {
      assert Promote(r, m, threshold).Col(m).status == Some(InProgress) != r.Col(m).status;
    }
  }

  /** The count a milestone reports is the number of rows its update changes. */
  lemma ReportedCountIsChangedRows(rows: seq<Row>, m: Category, threshold: int)
    ensures |UpdatedIds(rows, m, threshold)|
            == |set i: nat | i < |rows| && PromoteAll(rows, m, threshold)[i] != rows[i]|
  {
    UpdatedIdsMeaning(rows, m, threshold);
    var p := PromoteAll(rows, m, threshold);
    forall i: nat | i < |rows| ensures p[i] != rows[i] <==> Eligible(rows[i], m, threshold) {
      PromoteChangesIffEligible(rows[i], m, threshold);
    }
    assert (set i: nat | i < |rows| && p[i] != rows[i]) == EligibleIndices(rows, m, threshold);
  }

  /** A milestone update that the store runs, or that fails and changes nothing. */
  function Step(rows: seq<Row>, m: Category, threshold: int, ok: bool): seq<Row> {
    if ok then PromoteAll(rows, m, threshold) else rows
  }

  /** The table after the three updates, in source order. */
  function Sweep(rows: seq<Row>, threshold: int, okIfr: bool, okIfa: bool, okIfb: bool): (r: seq<Row>)
    ensures |r| == |rows|
    ensures !okIfr && !okIfa && !okIfb ==> r == rows
  {
    Step(Step(Step(rows, IFR, threshold, okIfr), IFA, threshold, okIfa), IFB, threshold, okIfb)
  }

  /** What one milestone contributes to the total: its matched rows, or 0 on error. */
  function Contribution(rows: seq<Row>, m: Category, threshold: int, ok: bool): nat {
    if ok then |UpdatedIds(rows, m, threshold)| else 0
  }

  /** The total, stated on the table as it was before the job. */
  function SweepTotal(rows: seq<Row>, threshold: int, okIfr: bool, okIfa: bool, okIfb: bool): nat {
    Contribution(rows, IFR, threshold, okIfr) + Contribution(rows, IFA, threshold, okIfa)
    + Contribution(rows, IFB, threshold, okIfb)
  }

  /** `data?.length || 0`. */
  function ReportedCount(data: Option<seq<string>>): nat {
    if data.Some? then |data.value| else 0
  }

  /** The JSON bodies of the two responses: the success body has the total and nothing per milestone. */
  datatype SweepResponse =
    | Done(message: string, totalUpdated: nat)
    | ServerError(status: nat, error: string)

  /** One milestone's bulk update on the stored table. `storeOk` is what the store
      reports; a failed statement leaves the table as it was and returns no data. */
  method PromoteMilestone(rows: array<Row>, m: Category, threshold: int, storeOk: bool)
    returns (data: Option<seq<string>>)
    modifies rows
    ensures storeOk ==> rows[..] == PromoteAll(old(rows[..]), m, threshold)
                        && data == Some(UpdatedIds(old(rows[..]), m, threshold))
    ensures !storeOk ==> rows[..] == old(rows[..]) && data == None
  {
    if !storeOk {
      return None;
    }
    ghost var s0 := rows[..];
    var ids: seq<string> := [];
    for i := 0 to rows.Length
      invariant forall k :: 0 <= k < i ==> rows[k] == Promote(s0[k], m, threshold)
      invariant forall k :: i <= k < rows.Length ==> rows[k] == s0[k]
      invariant ids == UpdatedIds(s0[..i], m, threshold)
    {
      var r := rows[i];
      UpdatedIdsStep(s0, i, m, threshold);
      rows[i] := Promote(r, m, threshold);  // a row the filter does not match is written back unchanged
      if Eligible(r, m, threshold) {
        ids := ids + [r.id];
      }
    }
    assert s0[..rows.Length] == s0;
    assert forall k :: 0 <= k < rows.Length ==> rows[..][k] == PromoteAll(s0, m, threshold)[k];
    data := Some(ids);
  }

  /** One turn of the update loop reports at most the id of the next row. */
  lemma UpdatedIdsStep(rows: seq<Row>, i: nat, m: Category, threshold: int)
    requires i < |rows|
    ensures UpdatedIds(rows[..i + 1], m, threshold)
            == UpdatedIds(rows[..i], m, threshold) + (if Eligible(rows[i], m, threshold) then [rows[i].id] else [])
  {
    assert rows[..i + 1][..i] == rows[..i];
  }

  /** The job's body. `clientOk` is false when creating the store client throws,
      which lands in the catch block before any update. */
  method UpdateStartStatus(rows: array<Row>, now: int, clientOk: bool, okIfr: bool, okIfa: bool, okIfb: bool)
    returns (response: SweepResponse)
    modifies rows
    ensures !clientOk ==> rows[..] == old(rows[..]) && response == ServerError(500, "Internal server error")
    ensures clientOk ==> rows[..] == Sweep(old(rows[..]), Threshold(now), okIfr, okIfa, okIfb)
    ensures clientOk ==> response == Done("Status updates complete",
                                          SweepTotal(old(rows[..]), Threshold(now), okIfr, okIfa, okIfb))
  {
    if !clientOk {
      return ServerError(500, "Internal server error");
    }
    ghost var s0 := rows[..];
    var oneDayAgo := Threshold(now);
    var ifrData := PromoteMilestone(rows, IFR, oneDayAgo, okIfr);
    ghost var s1 := rows[..];
    var ifaData := PromoteMilestone(rows, IFA, oneDayAgo, okIfa);
    ghost var s2 := rows[..];
    var ifbData := PromoteMilestone(rows, IFB, oneDayAgo, okIfb);
    if okIfr {
      IdsAfterPromote(s0, IFR, IFA, oneDayAgo);
      IdsAfterPromote(s0, IFR, IFB, oneDayAgo);
    }
    if okIfa {
      IdsAfterPromote(s1, IFA, IFB, oneDayAgo);
    }
    var totalUpdated := ReportedCount(ifrData) + ReportedCount(ifaData) + ReportedCount(ifbData);
    response := Done("Status updates complete", totalUpdated);
  }

  /** The threshold is strict: a row started exactly one day ago stays `Start`,
      one started a millisecond earlier is promoted. */
  lemma ThresholdIsStrict(r: Row, m: Category, now: int)
    requires r.Col(m).status == Some(Start) && r.Col(m).actualStart.Some?
    ensures Eligible(r, m, Threshold(now)) <==> now - r.Col(m).actualStart.value > DayMs
    ensures r.Col(m).actualStart.value == now - DayMs ==> !Eligible(r, m, Threshold(now))
    ensures r.Col(m).actualStart.value == now - DayMs - 1 ==> Eligible(r, m, Threshold(now))
  {
  }

  /** A bulk update of milestone m changes only that milestone's status, and only
      on the rows its filter matches. */
  lemma PromoteAllFrame(rows: seq<Row>, m: Category, threshold: int, i: nat)
    requires i < |rows|
    ensures var p := PromoteAll(rows, m, threshold)[i];
      SameHeader(p, rows[i]) && p.category == rows[i].category
      && p.approval == rows[i].approval && p.approvalComment == rows[i].approvalComment
      && (forall d :: d != m ==> p.Col(d) == rows[i].Col(d))
      && p.Col(m).actualStart == rows[i].Col(m).actualStart
      && p.Col(m).targetSubmit == rows[i].Col(m).targetSubmit
      && p.Col(m).actualSubmit == rows[i].Col(m).actualSubmit
      && p.Col(m).status == (if Eligible(rows[i], m, threshold) then Some(InProgress) else rows[i].Col(m).status)
  {
  }

  /** Updating one milestone neither creates nor removes matches of another, and
      leaves none of its own: after it, the update of milestone d reports the same
      ids as on the original table if d differs, and nothing if d is the same. */
  lemma {:induction false} IdsAfterPromote(rows: seq<Row>, m: Category, d: Category, threshold: int)
    ensures UpdatedIds(PromoteAll(rows, m, threshold), d, threshold)
            == if d == m then [] else UpdatedIds(rows, d, threshold)
  {
    var p := PromoteAll(rows, m, threshold);
    if |rows| > 0 {
      var init := rows[..|rows| - 1];
      assert p[..|p| - 1] == PromoteAll(init, m, threshold);
      IdsAfterPromote(init, m, d, threshold);
      assert p[|p| - 1] == Promote(rows[|rows| - 1], m, threshold);
    }
  }

  /** Updates of two different milestones commute. */
  lemma PromoteCommutes(rows: seq<Row>, m1: Category, m2: Category, threshold: int)
    requires m1 != m2
    ensures PromoteAll(PromoteAll(rows, m1, threshold), m2, threshold)
            == PromoteAll(PromoteAll(rows, m2, threshold), m1, threshold)
  {
    var a := PromoteAll(PromoteAll(rows, m1, threshold), m2, threshold);
    var b := PromoteAll(PromoteAll(rows, m2, threshold), m1, threshold);
    forall i | 0 <= i < |rows| ensures a[i] == b[i] {
      var r := rows[i];
      var x := a[i];
      var y := b[i];
      assert x.Col(IFR) == y.Col(IFR) && x.Col(IFA) == y.Col(IFA) && x.Col(IFB) == y.Col(IFB);
      assert x.ifr == x.Col(IFR) && x.ifa == x.Col(IFA) && x.ifb == x.Col(IFB);
      assert y.ifr == y.Col(IFR) && y.ifa == y.Col(IFA) && y.ifb == y.Col(IFB);
    }
  }

  /** Sequencing the three updates is the same as deciding each milestone of each
      row on the original table: column m of row i is promoted exactly when the
      update of m succeeded and the original row matched it. */
  lemma SweepPointwise(rows: seq<Row>, threshold: int, okIfr: bool, okIfa: bool, okIfb: bool, i: nat, m: Category)
    requires i < |rows|
    ensures |Sweep(rows, threshold, okIfr, okIfa, okIfb)| == |rows|
    ensures var ok := match m case IFR => okIfr case IFA => okIfa case IFB => okIfb;
            var s := Sweep(rows, threshold, okIfr, okIfa, okIfb)[i];
            s.Col(m) == (if ok && Eligible(rows[i], m, threshold)
                         then rows[i].Col(m).(status := Some(InProgress)) else rows[i].Col(m))
            && SameHeader(s, rows[i]) && s.category == rows[i].category && s.approval == rows[i].approval
  {
    var s1 := Step(rows, IFR, threshold, okIfr);
    var s2 := Step(s1, IFA, threshold, okIfa);
    var s3 := Step(s2, IFB, threshold, okIfb);
    assert s1[i].Col(IFA) == rows[i].Col(IFA) && s1[i].Col(IFB) == rows[i].Col(IFB);
    assert s2[i].Col(IFR) == s1[i].Col(IFR) && s2[i].Col(IFB) == s1[i].Col(IFB);
    assert s3[i].Col(IFR) == s2[i].Col(IFR) && s3[i].Col(IFA) == s2[i].Col(IFA);
  }

  /** Running the job a second time with the same clock promotes only what the
      first run failed to: with every update succeeding both times, the second run
      changes nothing and reports a total of 0. */
  lemma SweepIdempotent(rows: seq<Row>, threshold: int)
    ensures Sweep(Sweep(rows, threshold, true, true, true), threshold, true, true, true)
            == Sweep(rows, threshold, true, true, true)
    ensures SweepTotal(Sweep(rows, threshold, true, true, true), threshold, true, true, true) == 0
  {
    var s := Sweep(rows, threshold, true, true, true);
    var t := Sweep(s, threshold, true, true, true);
    forall i | 0 <= i < |s| ensures t[i] == s[i] {
      SweepPointwise(rows, threshold, true, true, true, i, IFR);
      SweepPointwise(rows, threshold, true, true, true, i, IFA);
      SweepPointwise(rows, threshold, true, true, true, i, IFB);
      SweepPointwise(s, threshold, true, true, true, i, IFR);
      SweepPointwise(s, threshold, true, true, true, i, IFA);
      SweepPointwise(s, threshold, true, true, true, i, IFB);
      assert t[i].ifr == s[i].ifr && t[i].ifa == s[i].ifa && t[i].ifb == s[i].ifb;
    }
    forall m | true ensures UpdatedIds(s, m, threshold) == [] {
      forall i | 0 <= i < |s| ensures !Eligible(s[i], m, threshold) {
        SweepPointwise(rows, threshold, true, true, true, i, m);
      }
      UpdatedIdsMeaning(s, m, threshold);
    }
  }

  lemma IdsAfterStep(rows: seq<Row>, m: Category, d: Category, threshold: int, ok: bool)
    ensures UpdatedIds(Step(rows, m, threshold, ok), d, threshold)
            == if ok && d == m then [] else UpdatedIds(rows, d, threshold)
  {
    if ok { IdsAfterPromote(rows, m, d, threshold); }
  }

  /** In general a second run reports, per milestone, exactly the rows the first
      run's failed update left behind. */
  lemma SecondRunTotal(rows: seq<Row>, threshold: int, a: bool, b: bool, c: bool, a2: bool, b2: bool, c2: bool)
    ensures SweepTotal(Sweep(rows, threshold, a, b, c), threshold, a2, b2, c2)
            == (if a then 0 else Contribution(rows, IFR, threshold, a2))
             + (if b then 0 else Contribution(rows, IFA, threshold, b2))
             + (if c then 0 else Contribution(rows, IFB, threshold, c2))
  {
    var s1 := Step(rows, IFR, threshold, a);
    var s2 := Step(s1, IFA, threshold, b);
    forall d | true
      ensures UpdatedIds(Sweep(rows, threshold, a, b, c), d, threshold)
              == if (d == IFR && a) || (d == IFA && b) || (d == IFB && c) then [] else UpdatedIds(rows, d, threshold)
    {
      IdsAfterStep(rows, IFR, d, threshold, a);
      IdsAfterStep(s1, IFA, d, threshold, b);
      IdsAfterStep(s2, IFB, d, threshold, c);
    }
  }
}
