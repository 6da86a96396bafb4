/** The approval stage of the order simulator: approving one order by id,
    and approving or leaving unfilled, at random, the pending day-ahead
    orders of one hour. The `orders` table is an object whose rows the
    operations update; each SQL statement is a function over those rows.
    The random draws are a parameter: `approve(i)` says whether the `i`-th
    draw fell below the approval rate. */
module Moderator {
  import opened Wrappers

  /** The columns of an order the approval stage reads or writes. */
  datatype Order = Order(
    id: string,
    market: string,
    locationType: string,
    location: string,
    hourStartUtc: string,
    status: string,
    rejectReason: Option<string>)

  /** The statuses from which an order may be approved. */
  const Approvable: set<string> := {"PENDING", "REJECTED", "UNFILLED"}

  const UnfilledReason: string := "moderator_unfilled"

  /** The reply of `approve_by_id`. */
  datatype Approval = Approved(orderId: string, newStatus: string) | Refused(error: string)

  /** The report of `random_approve_for_hour`. */
  datatype Report = Report(
    hourStartUtc: string,
    location: Option<string>,
    locationType: Option<string>,
    totalCandidates: nat,
    approved: nat,
    unfilled: nat,
    approvedIds: seq<string>,
    unfilledIds: seq<string>)

  function Ids(rows: seq<Order>): (ids: seq<string>)
    ensures |ids| == |rows| && forall k :: 0 <= k < |rows| ==> ids[k] == rows[k].id
  {
    seq(|rows|, k requires 0 <= k < |rows| => rows[k].id)
  }

  /** `id` is the table's primary key. */
  predicate UniqueIds(rows: seq<Order>) {
    forall k, l :: 0 <= k < l < |rows| ==> rows[k].id != rows[l].id
  }

  /** `SELECT ... WHERE id=?`, `fetchone()`: the first row with that id. */
  function FirstById(rows: seq<Order>, id: string): (r: Option<Order>)
    ensures r.None? <==> id !in Ids(rows)
    ensures r.Some? ==> r.value in rows && r.value.id == id
  {
    if |rows| == 0 then None
    else if rows[0].id == id then Some(rows[0])
    else
      assert Ids(rows) == [rows[0].id] + Ids(rows[1..]);
      FirstById(rows[1..], id)
  }

  /** With a primary key, the row found is the one row with that id. */
  lemma {:induction false} FirstByIdUnique(rows: seq<Order>, k: nat)
    requires UniqueIds(rows) && k < |rows|
    ensures FirstById(rows, rows[k].id) == Some(rows[k])
  {
    if k > 0 {
      assert rows[0].id != rows[k].id;
      FirstByIdUnique(rows[1..], k - 1);
    }
  }

  /** `UPDATE orders SET status=?, reject_reason=? WHERE id=?`. */
  function UpdateWhereId(rows: seq<Order>, id: string, status: string, reason: Option<string>): (r: seq<Order>)
    ensures |r| == |rows| && Ids(r) == Ids(rows)
    ensures forall k :: 0 <= k < |rows| ==>
      r[k] == if rows[k].id == id then rows[k].(status := status, rejectReason := reason) else rows[k]
  {
    seq(|rows|, k requires 0 <= k < |rows| =>
      if rows[k].id == id then rows[k].(status := status, rejectReason := reason) else rows[k])
  }

  /** The reply `approve_by_id` gives for `id` on `rows`. */
  function ApprovalOf(rows: seq<Order>, id: string): Approval {
    match FirstById(rows, id)
    case None => Refused("order_not_found")
    case Some(o) =>
      if o.status in Approvable then Approved(id, "APPROVED")
      else Refused("invalid_status_for_approval (" + o.status + ")")
  }

  /** An unknown id is refused as not found. */
  lemma ApproveUnknown(rows: seq<Order>, id: string)
    requires id !in Ids(rows)
    ensures ApprovalOf(rows, id) == Refused("order_not_found")
  {
  }

  /** A known id is approved exactly when its order's status allows it;
      otherwise the refusal names that status. */
  lemma ApproveKnown(rows: seq<Order>, k: nat)
    requires UniqueIds(rows) && k < |rows|
    ensures var r := ApprovalOf(rows, rows[k].id);
      && (r.Approved? <==> rows[k].status in Approvable)
      && (r.Approved? ==> r == Approved(rows[k].id, "APPROVED"))
      && (r.Refused? ==> r.error == "invalid_status_for_approval (" + rows[k].status + ")")
  {
    FirstByIdUnique(rows, k);
  }

  /** The orders `random_approve_for_hour` considers: day-ahead, pending,
      for that hour, and at the location and location type when those
      filters are given and non-empty. */
  predicate Matches(o: Order, hour: string, location: Option<string>, locationType: Option<string>) {
    && o.market == "DA"
    && o.status == "PENDING"
    && o.hourStartUtc == hour
    && (location.Some? && location.value != "" ==> o.location == location.value)
    && (locationType.Some? && locationType.value != "" ==> o.locationType == locationType.value)
  }

  /** The ids of the matching rows, one per matching row, listed in table
      order. The query has no `ORDER BY`, so the engine may return the same
      ids in another order: `RandomApproveForHour` takes that answer as any
      arrangement of this list. */
  function CandidateIds(rows: seq<Order>, hour: string, location: Option<string>, locationType: Option<string>): (ids: seq<string>)
    ensures |ids| <= |rows|
  {
    if |rows| == 0 then []
    else (
      var last := rows[|rows| - 1];
      CandidateIds(rows[..|rows| - 1], hour, location, locationType)
        + (if Matches(last, hour, location, locationType) then [last.id] else []))
  }

  /** Some row carrying `x` matches. */
  ghost predicate IsCandidate(rows: seq<Order>, x: string, hour: string, location: Option<string>, locationType: Option<string>) {
    exists k :: 0 <= k < |rows| && rows[k].id == x && Matches(rows[k], hour, location, locationType)
  }

  predicate DistinctIds(ids: seq<string>) {
    forall i, j :: 0 <= i < j < |ids| ==> ids[i] != ids[j]
  }

  lemma CandidateStep(rows: seq<Order>, x: string, hour: string, location: Option<string>, locationType: Option<string>)
    requires |rows| > 0
    ensures IsCandidate(rows, x, hour, location, locationType) <==>
      IsCandidate(rows[..|rows| - 1], x, hour, location, locationType)
      || (rows[|rows| - 1].id == x && Matches(rows[|rows| - 1], hour, location, locationType))
  {
    var init := rows[..|rows| - 1];
    if IsCandidate(rows, x, hour, location, locationType) {
      var k :| 0 <= k < |rows| && rows[k].id == x && Matches(rows[k], hour, location, locationType);
      if k < |init| {
        assert init[k] == rows[k];
      }
    }
    if IsCandidate(init, x, hour, location, locationType) {
      var k :| 0 <= k < |init| && init[k].id == x && Matches(init[k], hour, location, locationType);
      assert rows[k] == init[k];
    }
  }

  /** An id is a candidate exactly when some matching row carries it. */
  lemma {:induction false} CandidateIdsSpec(rows: seq<Order>, hour: string, location: Option<string>, locationType: Option<string>)
    ensures forall x :: x in CandidateIds(rows, hour, location, locationType) <==> IsCandidate(rows, x, hour, location, locationType)
  {
    if |rows| > 0 {
      CandidateIdsSpec(rows[..|rows| - 1], hour, location, locationType);
      forall x
        ensures x in CandidateIds(rows, hour, location, locationType) <==> IsCandidate(rows, x, hour, location, locationType)
      {
        CandidateStep(rows, x, hour, location, locationType);
      }
    }
  }

  /** With a primary key, no candidate is listed twice. */
  lemma {:induction false} CandidateIdsUnique(rows: seq<Order>, hour: string, location: Option<string>, locationType: Option<string>)
    requires UniqueIds(rows)
    ensures DistinctIds(CandidateIds(rows, hour, location, locationType))
  {
    if |rows| > 0 {
      var init := rows[..|rows| - 1];
      var last := rows[|rows| - 1];
      CandidateIdsUnique(init, hour, location, locationType);
      CandidateIdsSpec(init, hour, location, locationType);
      var prev := CandidateIds(init, hour, location, locationType);
      forall x | x in prev
        ensures x != last.id
      {
        assert IsCandidate(init, x, hour, location, locationType);
        var k :| 0 <= k < |init| && init[k].id == x && Matches(init[k], hour, location, locationType);
        assert rows[k] == init[k];
      }
      var ids := prev + (if Matches(last, hour, location, locationType) then [last.id] else []);
      assert CandidateIds(rows, hour, location, locationType) == ids;
      forall i, j | 0 <= i < j < |ids|
        ensures ids[i] != ids[j]
      {
        if j >= |prev| {
          assert ids[i] == prev[i] && ids[j] == last.id;
          assert prev[i] in prev;
        } else {
          assert ids[i] == prev[i] && ids[j] == prev[j];
        }
      }
    }
  }

  /** The ids whose draw approves them, in order; the `i`-th id is
      judged by the `i`-th draw. */
  function Approvals(ids: seq<string>, approve: nat -> bool): seq<string>
  {
    if |ids| == 0 then []
    else Approvals(ids[..|ids| - 1], approve) + (if approve(|ids| - 1) then [ids[|ids| - 1]] else [])
  }

  /** The ids whose draw does not approve them, in order. */
  function Rejections(ids: seq<string>, approve: nat -> bool): seq<string>
  {
    if |ids| == 0 then []
    else Rejections(ids[..|ids| - 1], approve) + (if approve(|ids| - 1) then [] else [ids[|ids| - 1]])
  }

  /** The positions `0 .. n - 1` whose draw is `want`, in increasing order. */
  function Chosen(n: nat, approve: nat -> bool, want: bool): (p: seq<nat>)
    ensures forall k :: 0 <= k < |p| ==> p[k] < n
  {
    if n == 0 then []
    else Chosen(n - 1, approve, want) + (if approve(n - 1) == want then [n - 1] else [])
  }

  predicate Increasing(p: seq<nat>) {
    forall k, l :: 0 <= k < l < |p| ==> p[k] < p[l]
  }

  /** `Chosen` lists each position with that draw, once, in increasing order. */
  lemma {:induction false} ChosenSpec(n: nat, approve: nat -> bool, want: bool)
    ensures Increasing(Chosen(n, approve, want))
    ensures forall i :: 0 <= i < n ==> (i in Chosen(n, approve, want) <==> approve(i) == want)
  {
    if n > 0 {
      ChosenSpec(n - 1, approve, want);
    }
  }

  /** The approvals are the ids at the approved positions, kept in the
      order of the query's answer: a subsequence of `ids`. */
  lemma {:induction false} ApprovalsInOrder(ids: seq<string>, approve: nat -> bool)
    ensures var p := Chosen(|ids|, approve, true);
      && |Approvals(ids, approve)| == |p|
      && forall k :: 0 <= k < |p| ==> Approvals(ids, approve)[k] == ids[p[k]]
  {
    if |ids| > 0 {
      var init := ids[..|ids| - 1];
      ApprovalsInOrder(init, approve);
      var p := Chosen(|init|, approve, true);
      forall k | 0 <= k < |p|
        ensures Approvals(ids, approve)[k] == ids[p[k]]
      {
        assert init[p[k]] == ids[p[k]];
      }
    }
  }

  /** The rejections likewise are the ids at the other positions, in the
      order of the query's answer. */
  lemma {:induction false} RejectionsInOrder(ids: seq<string>, approve: nat -> bool)
    ensures var p := Chosen(|ids|, approve, false);
      && |Rejections(ids, approve)| == |p|
      && forall k :: 0 <= k < |p| ==> Rejections(ids, approve)[k] == ids[p[k]]
  {
    if |ids| > 0 {
      var init := ids[..|ids| - 1];
      RejectionsInOrder(init, approve);
      var p := Chosen(|init|, approve, false);
      forall k | 0 <= k < |p|
        ensures Rejections(ids, approve)[k] == ids[p[k]]
      {
        assert init[p[k]] == ids[p[k]];
      }
    }
  }

  /** Every id lands in exactly one of the two lists: together they hold
      the ids, each as often as it occurs. */
  lemma {:induction false} PartitionSpec(ids: seq<string>, approve: nat -> bool)
    ensures multiset(Approvals(ids, approve)) + multiset(Rejections(ids, approve)) == multiset(ids)
  {
    if |ids| > 0 {
      var init := ids[..|ids| - 1];
      PartitionSpec(init, approve);
      assert ids == init + [ids[|ids| - 1]];
    }
  }

  /** So the sizes of the two lists add up to the number of ids. */
  lemma PartitionSizes(ids: seq<string>, approve: nat -> bool)
    ensures |Approvals(ids, approve)| + |Rejections(ids, approve)| == |ids|
  {
    PartitionSpec(ids, approve);
    assert |multiset(Approvals(ids, approve)) + multiset(Rejections(ids, approve))| == |multiset(ids)|;
  }

  /** The `i`-th id goes to the approvals when its draw approves, and to
      the rejections otherwise. */
  lemma {:induction false} PartitionMembers(ids: seq<string>, approve: nat -> bool)
    ensures forall i :: 0 <= i < |ids| && approve(i) ==> ids[i] in Approvals(ids, approve)
    ensures forall i :: 0 <= i < |ids| && !approve(i) ==> ids[i] in Rejections(ids, approve)
  {
    if |ids| > 0 {
      var init := ids[..|ids| - 1];
      PartitionMembers(init, approve);
      forall i | 0 <= i < |init|
        ensures ids[i] == init[i]
      {
      }
    }
  }

  /** For distinct ids the two lists share no id. */
  lemma PartitionDisjoint(ids: seq<string>, approve: nat -> bool)
    requires DistinctIds(ids)
    ensures forall x :: x in Approvals(ids, approve) ==> x !in Rejections(ids, approve)
  {
    PartitionSpec(ids, approve);
    forall x | x in Approvals(ids, approve)
      ensures x !in Rejections(ids, approve)
    {
      MultisetAtMostOnce(ids, x);
      assert multiset(Approvals(ids, approve))[x] >= 1;
      assert multiset(Rejections(ids, approve))[x] == 0;
    }
  }

  lemma {:induction false} MultisetAtMostOnce(s: seq<string>, x: string)
    requires DistinctIds(s)
    ensures multiset(s)[x] <= 1
  {
    if |s| > 0 {
      var init := s[..|s| - 1];
      MultisetAtMostOnce(init, x);
      assert s == init + [s[|s| - 1]];
      if s[|s| - 1] == x {
        assert x !in init;
      }
    }
  }

  /** The updates issued one id after another, in list order. */
  function UpdateAll(rows: seq<Order>, ids: seq<string>, status: string, reason: Option<string>): seq<Order>
  {
    if |ids| == 0 then rows
    else UpdateWhereId(UpdateAll(rows, ids[..|ids| - 1], status, reason), ids[|ids| - 1], status, reason)
  }

  /** Updating a list of ids changes exactly the rows with one of them. */
  lemma {:induction false} UpdateAllSpec(rows: seq<Order>, ids: seq<string>, status: string, reason: Option<string>)
    ensures var r := UpdateAll(rows, ids, status, reason);
      && |r| == |rows| && Ids(r) == Ids(rows)
      && forall k :: 0 <= k < |rows| ==>
           r[k] == if rows[k].id in ids then rows[k].(status := status, rejectReason := reason) else rows[k]
  {
    if |ids| > 0 {
      var init := ids[..|ids| - 1];
      UpdateAllSpec(rows, init, status, reason);
      assert ids == init + [ids[|ids| - 1]];
    }
  }

  /** The effect of the two update loops: approved candidates become
      APPROVED with no reason, the others UNFILLED with the moderator's
      reason, and every other order is untouched. */
  lemma RandomApproveEffect(rows: seq<Order>, approvals: seq<string>, rejections: seq<string>, k: nat)
    requires k < |rows|
    requires forall x :: x in approvals ==> x !in rejections
    ensures var r := UpdateAll(UpdateAll(rows, approvals, "APPROVED", None), rejections, "UNFILLED", Some(UnfilledReason));
      && |r| == |rows| && r[k].id == rows[k].id
      && (rows[k].id in approvals ==> r[k] == rows[k].(status := "APPROVED", rejectReason := None))
      && (rows[k].id in rejections ==> r[k] == rows[k].(status := "UNFILLED", rejectReason := Some(UnfilledReason)))
      && (rows[k].id !in approvals && rows[k].id !in rejections ==> r[k] == rows[k])
  {
    var mid := UpdateAll(rows, approvals, "APPROVED", None);
    UpdateAllSpec(rows, approvals, "APPROVED", None);
    UpdateAllSpec(mid, rejections, "UNFILLED", Some(UnfilledReason));
    assert mid[k].id == Ids(mid)[k] == Ids(rows)[k] == rows[k].id;
  }

  /** The `orders` table. */
  class OrdersTable {
    var rows: seq<Order>

    constructor(initial: seq<Order>)
      ensures rows == initial
    {
      rows := initial;
    }

    /** `approve_by_id`. */
    method ApproveById(orderId: string) returns (r: Approval)
      modifies this
      ensures r == ApprovalOf(old(rows), orderId)
      ensures rows == if r.Approved? then UpdateWhereId(old(rows), orderId, "APPROVED", None) else old(rows)
    {
      var found := FirstById(rows, orderId);
      if found.None? {
        return Refused("order_not_found");
      }
      if found.value.status !in Approvable {
        return Refused("invalid_status_for_approval (" + found.value.status + ")");
      }
      rows := UpdateWhereId(rows, orderId, "APPROVED", None);
      r := Approved(orderId, "APPROVED");
    }

    /** One `UPDATE ... WHERE id=?` per id, in list order. */
    method UpdateEach(ids: seq<string>, status: string, reason: Option<string>)
      modifies this
      ensures rows == UpdateAll(old(rows), ids, status, reason)
    {
      for i := 0 to |ids|
        invariant rows == UpdateAll(old(rows), ids[..i], status, reason)
      {
        assert ids[..i + 1][..i] == ids[..i];
        rows := UpdateWhereId(rows, ids[i], status, reason);
      }
      assert ids[..|ids|] == ids;
    }

    /** `random_approve_for_hour`: `ids` is the engine's answer to the
        candidate query, the candidates in an order the engine chooses, and
        `approve(i)` is the draw `random.random() < approval_rate` for the
        `i`-th of them. */
    method RandomApproveForHour(hour: string, location: Option<string>, locationType: Option<string>,
                                ids: seq<string>, approve: nat -> bool)
      returns (rep: Report)
      requires multiset(ids) == multiset(CandidateIds(rows, hour, location, locationType))
      modifies this
      ensures && rep == Report(hour, location, locationType, |ids|,
                               |Approvals(ids, approve)|, |Rejections(ids, approve)|,
                               Approvals(ids, approve), Rejections(ids, approve))
              && rows == UpdateAll(UpdateAll(old(rows), rep.approvedIds, "APPROVED", None),
                                   rep.unfilledIds, "UNFILLED", Some(UnfilledReason))
    {
      var approvals: seq<string> := [];
      var rejections: seq<string> := [];
      for i := 0 to |ids|
        invariant approvals == Approvals(ids[..i], approve)
        invariant rejections == Rejections(ids[..i], approve)
      {
        assert ids[..i + 1][..i] == ids[..i];
        if approve(i) {
          approvals := approvals + [ids[i]];
        } else {
          rejections := rejections + [ids[i]];
        }
      }
      assert ids[..|ids|] == ids;
      UpdateEach(approvals, "APPROVED", None);
      UpdateEach(rejections, "UNFILLED", Some(UnfilledReason));
      rep := Report(hour, location, locationType, |ids|, |approvals|, |rejections|, approvals, rejections);
    }
  }

  /** The report's totals add up, and with a primary key the two id lists
      share no id, so each candidate gets exactly one update; the ids in
      the report are exactly the matching orders, in whatever order the
      query returned them. */
  lemma ReportTotals(rows: seq<Order>, hour: string, location: Option<string>, locationType: Option<string>,
                     ids: seq<string>, approve: nat -> bool)
    requires UniqueIds(rows)
    requires multiset(ids) == multiset(CandidateIds(rows, hour, location, locationType))
    ensures |Approvals(ids, approve)| + |Rejections(ids, approve)| == |ids|
    ensures forall x :: x in Approvals(ids, approve) ==> x !in Rejections(ids, approve)
    ensures DistinctIds(ids)
    ensures forall x :: x in ids <==> IsCandidate(rows, x, hour, location, locationType)
  {
    var cands := CandidateIds(rows, hour, location, locationType);
    PartitionSizes(ids, approve);
    CandidateIdsUnique(rows, hour, location, locationType);
    CandidateIdsSpec(rows, hour, location, locationType);
    DistinctPermutation(cands, ids);
    PartitionDisjoint(ids, approve);
    forall x
      ensures x in ids <==> x in cands
    {
      assert x in ids <==> x in multiset(ids);
      assert x in cands <==> x in multiset(cands);
    }
  }

  /** Reordering keeps ids distinct. */
  lemma DistinctPermutation(a: seq<string>, b: seq<string>)
    requires DistinctIds(a) && multiset(a) == multiset(b)
    ensures DistinctIds(b)
  {
    forall i, j | 0 <= i < j < |b|
      ensures b[i] != b[j]
    {
      if b[i] == b[j] {
        MultisetAtMostOnce(a, b[i]);
        TwiceCounted(b, i, j);
        assert false;
      }
    }
  }

  /** A value at two positions occurs at least twice. */
  lemma TwiceCounted(s: seq<string>, i: nat, j: nat)
    requires i < j < |s| && s[i] == s[j]
    ensures multiset(s)[s[i]] >= 2
  {
    assert s == s[..j] + [s[j]] + s[j + 1..];
    assert s[..j][i] == s[i];
    assert multiset(s[..j])[s[i]] >= 1;
  }
}
