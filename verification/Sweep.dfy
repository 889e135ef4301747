/** The daily renewal sweep, with nobody else acting on the rows. */
module Sweep {
  import opened Text
  import opened Timestamps

  datatype Status = Pending | Issuing | Active | Failed

  datatype Row = Row(autoRenew: bool, status: Status, expires: Option<string>)

  /** One call of `renew_cert`: what the row's status was when it was selected, and how it ended. */
  datatype Attempt = Attempt(id: string, wasFailed: bool, ok: bool)

  /** The rows the first query selects; expiries are compared as text. */
  predicate Due(r: Row, threshold: string) {
    r.autoRenew && r.status.Active? && r.expires.Some? && Less(r.expires.value, threshold)
  }

  /** The rows the second query selects. */
  predicate Retryable(r: Row, threshold: string) {
    r.autoRenew && r.status.Failed? && (r.expires.None? || Less(r.expires.value, threshold))
  }

  /** What either query asks of a row. */
  predicate Chosen(retry: bool, r: Row, threshold: string) {
    if retry then Retryable(r, threshold) else Due(r, threshold)
  }

  function Of(attempts: seq<Attempt>, id: string): seq<Attempt> {
    if attempts == [] then []
    else Of(attempts[..|attempts| - 1], id)
         + if attempts[|attempts| - 1].id == id then [attempts[|attempts| - 1]] else []
  }

  lemma OfAppend(attempts: seq<Attempt>, a: Attempt, id: string)
    ensures Of(attempts + [a], id) == Of(attempts, id) + if a.id == id then [a] else []
  {
    assert (attempts + [a])[..|attempts|] == attempts;
  }

  /** The attempts that send a failure mail: those that took a row into `failed`. */
  function Mailed(attempts: seq<Attempt>): seq<string> {
    if attempts == [] then []
    else
      var a := attempts[|attempts| - 1];
      Mailed(attempts[..|attempts| - 1]) + if !a.wasFailed && !a.ok then [a.id] else []
  }

  lemma MailedAppend(attempts: seq<Attempt>, a: Attempt)
    ensures Mailed(attempts + [a]) == Mailed(attempts) + if !a.wasFailed && !a.ok then [a.id] else []
  {
    assert (attempts + [a])[..|attempts|] == attempts;
  }

  /** One mail for each failed attempt that began at a row not yet failed, in their order; `at` says
      which. */
  ghost predicate MailFor(attempts: seq<Attempt>, mails: seq<string>, at: seq<nat>) {
    && |at| == |mails|
    && (forall i :: 0 <= i < |at| ==> at[i] < |attempts| && attempts[at[i]] == Attempt(mails[i], false, false))
    && (forall i, j :: 0 <= i < j < |at| ==> at[i] < at[j])
    && (forall k :: 0 <= k < |attempts| && !attempts[k].wasFailed && !attempts[k].ok ==> k in at)
  }

  lemma {:induction false} MailedIsExact(attempts: seq<Attempt>) returns (at: seq<nat>)
    ensures MailFor(attempts, Mailed(attempts), at)
  {
    at := [];
    if attempts != [] {
      var last := |attempts| - 1;
      var a := attempts[last];
      at := MailedIsExact(attempts[..last]);
      assert attempts == attempts[..last] + [a];
      MailedAppend(attempts[..last], a);
      hide *;
      if !a.wasFailed && !a.ok {
        OneMoreMail(attempts[..last], Mailed(attempts[..last]), at, a);
        at := at + [last];
      } else {
        NoMoreMail(attempts[..last], Mailed(attempts[..last]), at, a);
        assert Mailed(attempts) == Mailed(attempts[..last]);
      }
    }
  }

  lemma OneMoreMail(attempts: seq<Attempt>, mails: seq<string>, at: seq<nat>, a: Attempt)
    requires MailFor(attempts, mails, at) && !a.wasFailed && !a.ok
    ensures MailFor(attempts + [a], mails + [a.id], at + [|attempts|])
  {
    var more := at + [|attempts|];
    assert forall k :: k in at ==> k in more;
    assert more[|at|] == |attempts|;
    assert a == Attempt(a.id, false, false);
  }

  lemma NoMoreMail(attempts: seq<Attempt>, mails: seq<string>, at: seq<nat>, a: Attempt)
    requires MailFor(attempts, mails, at) && (a.wasFailed || a.ok)
    ensures MailFor(attempts + [a], mails, at)
  {}

  /** The attempts one sweep makes at a row that was `r` when it started. */
  predicate Swept(r: Row, threshold: string, id: string, tries: seq<Attempt>) {
    if Due(r, threshold) then
      tries == [Attempt(id, false, true)]
      || (exists ok :: tries == [Attempt(id, false, false), Attempt(id, true, ok)])
    else if Retryable(r, threshold) then exists ok :: tries == [Attempt(id, true, ok)]
    else tries == []
  }

  /** In other words: every attempt is at this row, the first finds it as it was selected, a due row
      gets a second attempt exactly when the first failed, and there is no other. */
  lemma SweptIsExact(r: Row, threshold: string, id: string, tries: seq<Attempt>)
    ensures Swept(r, threshold, id, tries) <==>
            && |tries| == (if Due(r, threshold) then (if tries != [] && !tries[0].ok then 2 else 1)
                           else if Retryable(r, threshold) then 1 else 0)
            && (forall k :: 0 <= k < |tries| ==>
                  tries[k].id == id && tries[k].wasFailed == (k == 1 || r.status.Failed?))
  {
    if |tries| == 1 {
      assert tries == [Attempt(tries[0].id, tries[0].wasFailed, tries[0].ok)];
    }
    if |tries| == 2 {
      assert tries == [Attempt(tries[0].id, tries[0].wasFailed, tries[0].ok),
                       Attempt(tries[1].id, tries[1].wasFailed, tries[1].ok)];
    }
  }

  /** A row's attempts, one after another: each starts where the one before left it. */
  predicate Linked(tries: seq<Attempt>) {
    forall i :: 0 < i < |tries| ==> tries[i].wasFailed == !tries[i - 1].ok
  }

  /** Between two failure mails for a row there is a success. */
  lemma {:induction false} MailsAreSeparated(tries: seq<Attempt>, i: nat, j: nat)
    requires Linked(tries) && i < j < |tries|
    requires !tries[i].wasFailed && !tries[i].ok && !tries[j].wasFailed && !tries[j].ok
    ensures exists k :: i < k < j && tries[k].ok
  {
    assert tries[j - 1].ok;
  }

  /** Server-written expiries are selected by their time. */
  lemma DueIsByTime(r: Row, at: Instant, threshold: Instant)
    requires Valid(at) && Valid(threshold) && r.expires == Some(Render(at))
    ensures Due(r, Render(threshold)) <==> r.autoRenew && r.status.Active? && Nanos(at) < Nanos(threshold)
    ensures Retryable(r, Render(threshold)) <==> r.autoRenew && r.status.Failed? && Nanos(at) < Nanos(threshold)
  {
    hide Render, Nanos;
    TextOrderIsTimeOrder(at, threshold);
  }

  /** An expiry that could not be read from the leaf is stored as the empty text, which is due at
      every sweep. */
  lemma UnreadableExpiryIsAlwaysDue(r: Row, threshold: string)
    requires threshold != "" && r.expires == Some("")
    ensures Due(r, threshold) <==> r.autoRenew && r.status.Active?
    ensures Retryable(r, threshold) <==> r.autoRenew && r.status.Failed?
  {}

  /** A row that never got an expiry is retried when it failed, and never due. */
  lemma MissingExpiryIsRetried(r: Row, threshold: string)
    requires r.expires.None?
    ensures !Due(r, threshold) && (Retryable(r, threshold) <==> r.autoRenew && r.status.Failed?)
  {}

  predicate TrackedRow(rows: map<string, Row>, id: string, tries: seq<Attempt>) {
    tries != [] ==>
      && id in rows && Linked(tries)
      && rows[id].status == if tries[|tries| - 1].ok then Active else Failed
  }

  lemma LinkedWhenTracked(rows: map<string, Row>, id: string, tries: seq<Attempt>)
    requires TrackedRow(rows, id, tries)
    ensures Linked(tries)
  {}

  lemma TrackedAfter(was: map<string, Row>, now: map<string, Row>, id: string, tries: seq<Attempt>, ok: bool)
    requires TrackedRow(was, id, tries) && id in was && (was[id].status.Active? || was[id].status.Failed?)
    requires id in now && now[id].status == if ok then Active else Failed
    ensures TrackedRow(now, id, tries + [Attempt(id, was[id].status.Failed?, ok)])
  {}

  lemma SameRow(was: map<string, Row>, now: map<string, Row>, id: string, tries: seq<Attempt>)
    requires TrackedRow(was, id, tries) && (id in was ==> id in now && now[id] == was[id])
    ensures TrackedRow(now, id, tries)
  {}

  lemma StillTracked(was: map<string, Row>, now: map<string, Row>, attempts: seq<Attempt>, a: Attempt, x: string)
    requires TrackedRow(was, x, Of(attempts, x)) && a.id in was && (x in was ==> x in now)
    requires was[a.id].status == if a.wasFailed then Failed else Active
    requires a.id in now && now[a.id].status == if a.ok then Active else Failed
    requires x != a.id && x in was ==> now[x] == was[x]
    ensures TrackedRow(now, x, Of(attempts + [a], x))
  {
    hide Of, TrackedRow;
    OfAppend(attempts, a, x);
    if x == a.id {
      TrackedAfter(was, now, x, Of(attempts, x), a.ok);
      assert a == Attempt(x, was[x].status.Failed?, a.ok);
    } else {
      assert Of(attempts + [a], x) == Of(attempts, x);
      SameRow(was, now, x, Of(attempts, x));
    }
  }

  /** A row after one more attempt at it. */
  predicate Retried(id: string, failed: bool, tries: seq<Attempt>, was: Row, now: seq<Attempt>, row: Row) {
    && row.autoRenew == was.autoRenew
    && ((now == tries + [Attempt(id, failed, true)] && row.status.Active?)
        || (now == tries + [Attempt(id, failed, false)] && row.status.Failed? && row.expires == was.expires))
  }

  /** The attempts between two points of the log. */
  predicate SweptBetween(r: Row, threshold: string, id: string, before: seq<Attempt>, after: seq<Attempt>) {
    before <= after && Swept(r, threshold, id, after[|before|..])
  }

  /** One row through both passes. */
  lemma BothPasses(id: string, threshold: string, r: Row, m: Row, f: Row, t0: seq<Attempt>, t1: seq<Attempt>,
      t2: seq<Attempt>)
    requires if Due(r, threshold) then Retried(id, false, t0, r, t1, m) else t1 == t0 && m == r
    requires if Retryable(m, threshold) then Retried(id, true, t1, m, t2, f) else t2 == t1 && f == m
    ensures SweptBetween(r, threshold, id, t0, t2)
  {
    var tries := t2[|t0|..];
    assert t2 == t0 + tries;
    if Due(r, threshold) && Retryable(m, threshold) {
      assert t1 == t0 + [Attempt(id, false, false)];
      assert exists ok :: tries == [Attempt(id, false, false), Attempt(id, true, ok)] by {
        assert tries == [Attempt(id, false, false), Attempt(id, true, true)]
          || tries == [Attempt(id, false, false), Attempt(id, true, false)];
      }
    } else if Due(r, threshold) {
      assert tries == [Attempt(id, false, true)];
    } else if Retryable(r, threshold) {
      assert tries == [Attempt(id, true, true)] || tries == [Attempt(id, true, false)];
    }
  }

  /** The table and the log at the end of a day. */
  datatype Day = Day(rows: map<string, Row>, attempts: seq<Attempt>)

  /** One day's sweep over all rows. */
  ghost predicate SweptDay(d: Day, threshold: string, e: Day) {
    && e.rows.Keys == d.rows.Keys
    && forall id :: id in d.rows ==> SweptBetween(d.rows[id], threshold, id, Of(d.attempts, id), Of(e.attempts, id))
  }

  class Sweeper {
    /** How the n-th issuance ends: with the expiry of its leaf, or in an error. */
    const issue: nat -> Option<string>
    const recipients: bool

    var rows: map<string, Row>
    var attempts: seq<Attempt>
    var mails: seq<string>
    /** Every status written, in order. */
    var written: seq<(string, Status)>

    /** Where the last attempt left the row. */
    ghost predicate Tracked()
      reads this
    {
      && mails == (if recipients then Mailed(attempts) else [])
      && (forall k :: 0 <= k < |attempts| ==> (attempts[k].ok <==> issue(k).Some?))
      && forall id :: TrackedRow(rows, id, Of(attempts, id))
    }

    method WriteRow(id: string, row: Row)
      modifies this`rows, this`written
      ensures rows == old(rows)[id := row] && written == old(written) + [(id, row.status)]
    {
      rows := rows[id := row];
      written := written + [(id, row.status)];
    }

    /** `renew_cert`, for a row selected as active or failed. */
    method RenewCert(id: string) returns (ok: bool)
      requires id in rows && (rows[id].status.Active? || rows[id].status.Failed?) && Tracked()
      modifies this
      ensures Tracked()
      ensures attempts == old(attempts) + [Attempt(id, old(rows)[id].status.Failed?, ok)]
      ensures rows.Keys == old(rows).Keys && forall x :: x in rows && x != id ==> rows[x] == old(rows)[x]
      ensures rows[id].autoRenew == old(rows)[id].autoRenew
      ensures rows[id].status == if ok then Active else Failed
      ensures ok <==> issue(|old(attempts)|).Some?
      ensures written == old(written) + [(id, Pending), (id, Issuing), (id, if ok then Active else Failed)]
      ensures rows[id].expires == if ok then issue(|old(attempts)|) else old(rows)[id].expires
    {
      hide Of, Mailed, TrackedRow, Linked;
      var notifyOnFailure := !rows[id].status.Failed?;
      WriteRow(id, rows[id].(status := Pending));
      WriteRow(id, rows[id].(status := Issuing));
      var issued := issue(|attempts|);
      ok := issued.Some?;
      if ok {
        WriteRow(id, rows[id].(status := Active, expires := issued));
      } else {
        WriteRow(id, rows[id].(status := Failed));
        if notifyOnFailure && recipients {
          mails := mails + [id];
        }
      }
      ghost var a := Attempt(id, !notifyOnFailure, ok);
      MailedAppend(attempts, a);
      forall x ensures TrackedRow(rows, x, Of(attempts + [a], x)) {
        StillTracked(old(rows), rows, attempts, a, x);
      }
      attempts := attempts + [Attempt(id, !notifyOnFailure, ok)];
    }

    /** The ids a query returns, in some order. */
    method Select(retry: bool, threshold: string) returns (ids: seq<string>)
      ensures forall i, j :: 0 <= i < j < |ids| ==> ids[i] != ids[j]
      ensures forall id :: id in ids <==> id in rows && Chosen(retry, rows[id], threshold)
    {
      ids := [];
      var left := rows.Keys;
      while left != {}
        invariant left <= rows.Keys
        invariant forall i, j :: 0 <= i < j < |ids| ==> ids[i] != ids[j]
        invariant forall id :: id in ids <==> id in rows && id !in left && Chosen(retry, rows[id], threshold)
      {
        var id :| id in left;
        if Chosen(retry, rows[id], threshold) {
          ids := ids + [id];
        }
        left := left - {id};
      }
    }

    /** One attempt at one selected row, in terms of every row's own log. */
    method Visit(id: string, failed: bool)
      requires id in rows && rows[id].status == (if failed then Failed else Active) && Tracked()
      modifies this
      ensures Tracked() && rows.Keys == old(rows).Keys
      ensures forall x :: x != id ==> Of(attempts, x) == Of(old(attempts), x)
      ensures forall x :: x in rows && x != id ==> rows[x] == old(rows)[x]
      ensures Retried(id, failed, Of(old(attempts), id), old(rows)[id], Of(attempts, id), rows[id])
    {
      hide Of, Mailed, Linked, TrackedRow, Tracked;
      ghost var was := attempts;
      var ok := RenewCert(id);
      forall x ensures Of(attempts, x) == Of(was, x) + if x == id then [Attempt(id, failed, ok)] else [] {
        OfAppend(was, Attempt(id, failed, ok), x);
      }
    }

    /** One attempt at each selected row. */
    method Pass(ids: seq<string>, failed: bool)
      requires forall i, j :: 0 <= i < j < |ids| ==> ids[i] != ids[j]
      requires forall id :: id in ids ==> id in rows && rows[id].status == if failed then Failed else Active
      requires Tracked()
      modifies this
      ensures Tracked() && rows.Keys == old(rows).Keys
      ensures forall x :: x !in ids ==> Of(attempts, x) == Of(old(attempts), x)
      ensures forall x :: x in rows && x !in ids ==> rows[x] == old(rows)[x]
      ensures forall x :: x in ids ==> Retried(x, failed, Of(old(attempts), x), old(rows)[x], Of(attempts, x), rows[x])
    {
      hide Of, Mailed, Linked, TrackedRow, Tracked, Retried;
      for i := 0 to |ids|
        invariant Tracked() && rows.Keys == old(rows).Keys
        invariant forall x :: x !in ids[..i] ==> Of(attempts, x) == Of(old(attempts), x)
        invariant forall x :: x in rows && x !in ids[..i] ==> rows[x] == old(rows)[x]
        invariant forall x :: x in ids[..i] ==>
          Retried(x, failed, Of(old(attempts), x), old(rows)[x], Of(attempts, x), rows[x])
      {
        var id := ids[i];
        assert id !in ids[..i] && ids[..i + 1] == ids[..i] + [id];
        assert id in ids;
        Visit(id, failed);
      }
      assert ids[..|ids|] == ids;
    }

    /** `check_renewals`, up to its warnings: the due rows, then the failed ones as they are by then. */
    method CheckRenewals(threshold: string)
      requires Tracked()
      modifies this
      ensures Tracked() && rows.Keys == old(rows).Keys
      ensures forall id :: id in rows ==>
                SweptBetween(old(rows)[id], threshold, id, Of(old(attempts), id), Of(attempts, id))
      ensures forall id :: id in rows && !Due(old(rows)[id], threshold) && !Retryable(old(rows)[id], threshold) ==>
                rows[id] == old(rows)[id]
    {
      hide Of, Mailed, Linked, TrackedRow, Tracked, Retried, SweptBetween;
      var due := Select(false, threshold);
      Pass(due, false);
      ghost var middle, log := rows, attempts;
      var retry := Select(true, threshold);
      Pass(retry, true);
      forall id | id in rows
        ensures SweptBetween(old(rows)[id], threshold, id, Of(old(attempts), id), Of(attempts, id))
      {
        BothPasses(id, threshold, old(rows)[id], middle[id], rows[id], Of(old(attempts), id), Of(log, id),
            Of(attempts, id));
      }
    }

    /** `run_renewal_scheduler`, for any number of days, each with its sweep of every row: the failure
        mails sent so far are, one for one, the failed attempts that began at a row not yet failed, an
        attempt fails exactly when its issuance does, and every row's attempts link up. */
    method RunScheduler(thresholds: seq<string>) returns (ghost days: seq<Day>)
      requires attempts == [] && mails == []
      modifies this
      ensures |days| == |thresholds| + 1 && days[0] == Day(old(rows), []) && days[|thresholds|] == Day(rows, attempts)
      ensures forall i :: 0 <= i < |thresholds| ==> SweptDay(days[i], thresholds[i], days[i + 1])
      ensures mails == if recipients then Mailed(attempts) else []
      ensures forall k :: 0 <= k < |attempts| ==> (attempts[k].ok <==> issue(k).Some?)
      ensures forall id :: Linked(Of(attempts, id))
      ensures rows.Keys == old(rows).Keys
    {
      days := [Day(rows, attempts)];
      for i := 0 to |thresholds|
        invariant Tracked() && rows.Keys == old(rows).Keys
        invariant |days| == i + 1 && days[0] == Day(old(rows), []) && days[i] == Day(rows, attempts)
        invariant forall k :: 0 <= k < i ==> SweptDay(days[k], thresholds[k], days[k + 1])
      {
        CheckRenewals(thresholds[i]);
        days := days + [Day(rows, attempts)];
      }
      forall id ensures Linked(Of(attempts, id)) {
        LinkedWhenTracked(rows, id, Of(attempts, id));
      }
    }
  }
}
