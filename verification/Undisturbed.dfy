/** What one activity does from beginning to end when nobody else takes a step: the exact state each
    of the server's operations leaves, step by step through the system of `Lifecycle`. */
module Undisturbed {
  import opened Text
  import opened Lifecycle

  /** The run is legal and ends in `t`. */
  ghost predicate LeadsTo(s: State, steps: seq<Step>, t: State) {
    Legal(s, steps) && Final(s, steps) == t
  }

  lemma One(s: State, step: Step)
    requires Enabled(s, step)
    ensures LeadsTo(s, [step], Apply(s, step))
  {
    hide Enabled, Apply;
    assert [step][1..] == [] && Legal(Apply(s, step), []);
    assert Legal(s, [step]) && Final(s, [step]) == Final(Apply(s, step), []);
  }

  lemma Two(s: State, first: Step, second: Step)
    requires Enabled(s, first) && Enabled(Apply(s, first), second)
    ensures LeadsTo(s, [first, second], Apply(Apply(s, first), second))
  {
    hide Enabled, Apply;
    One(s, first);
    One(Apply(s, first), second);
    Then(s, [first], Apply(s, first), [second], Apply(Apply(s, first), second));
    assert [first] + [second] == [first, second];
  }

  /** Runs one after the other. */
  lemma {:induction false} Then(s: State, steps: seq<Step>, t: State, more: seq<Step>, u: State)
    requires LeadsTo(s, steps, t) && LeadsTo(t, more, u)
    ensures LeadsTo(s, steps + more, u)
    decreases |steps|
  {
    hide Enabled, Apply;
    if steps == [] {
      assert steps + more == more;
    } else {
      assert (steps + more)[0] == steps[0] && (steps + more)[1..] == steps[1..] + more;
      Then(Apply(s, steps[0]), steps[1..], t, more, u);
    }
  }

  // ── Issuance ───────────────────────────────────────────────────────────────

  /** The steps a task that has been started takes when nothing fails; under the backend its read of
      the secret may. */
  function IssuanceSteps(s: State, j: nat, readOk: bool): seq<Step> {
    [WriteIssuing(j), Obtain(j)]
    + (if s.external then [ReadSecret(j, readOk), WriteSecret(j, true), PointRow(j)] else [StoreColumns(j)])
    + [Activate(j)]
  }

  /** What it leaves: the row active with the new issuance's expiry and all four of its PEMs, in the
      one home the backend prescribes, with the password that was there; nothing else changed. */
  function Reissued(s: State, j: nat, readOk: bool): State
    requires j in s.jobs && s.jobs[j].id in s.rows
  {
    var id, n := s.jobs[j].id, |s.orders|;
    var row := s.rows[id];
    var carried := if readOk then SecretAt(s.kv, id).pfx else None;
    State(s.external,
          s.rows[id := if s.external then Row(Active, Some(n), EMPTY.(pfx := row.columns.pfx), true)
                       else Row(Active, Some(n), Issued(n, row.columns.pfx), row.ref)],
          if s.external then s.kv[id := Issued(n, carried)] else s.kv,
          s.used, s.orders + [id], s.jobs - {j})
  }

  function Issued(n: nat, pfx: Option<nat>): Secret {
    Secret(Some(n), Some(n), Some(n), Some(n), pfx)
  }

  /** Half-way: the certificate is there and nothing of it stored. */
  function Ordered(s: State, j: nat): State
    requires j in s.jobs && s.jobs[j].id in s.rows
  {
    var id, n := s.jobs[j].id, |s.orders|;
    s.(rows := s.rows[id := s.rows[id].(status := Issuing)], orders := s.orders + [id],
       jobs := s.jobs[j := Obtained(id, n)])
  }

  lemma Orders(s: State, j: nat)
    requires j in s.jobs && s.jobs[j].Queued? && s.jobs[j].id in s.rows
    ensures LeadsTo(s, [WriteIssuing(j), Obtain(j)], Ordered(s, j))
  {
    hide LeadsTo;
    Two(s, WriteIssuing(j), Obtain(j));
    assert Apply(Apply(s, WriteIssuing(j)), Obtain(j)) == Ordered(s, j);
  }

  lemma StoresInColumns(s: State, j: nat)
    requires j in s.jobs && s.jobs[j].Obtained? && s.jobs[j].id in s.rows && !s.external
    ensures var id, n := s.jobs[j].id, s.jobs[j].n;
            LeadsTo(s, [StoreColumns(j), Activate(j)],
                    s.(rows := s.rows[id := Row(Active, Some(n), Issued(n, s.rows[id].columns.pfx), s.rows[id].ref)],
                       jobs := s.jobs - {j}))
  {
    hide LeadsTo;
    Two(s, StoreColumns(j), Activate(j));
    var id, n := s.jobs[j].id, s.jobs[j].n;
    assert Apply(Apply(s, StoreColumns(j)), Activate(j)) ==
        s.(rows := s.rows[id := Row(Active, Some(n), Issued(n, s.rows[id].columns.pfx), s.rows[id].ref)],
           jobs := s.jobs - {j});
  }

  lemma WritesSecret(s: State, j: nat, readOk: bool)
    requires j in s.jobs && s.jobs[j].Obtained? && s.external
    ensures var id, n := s.jobs[j].id, s.jobs[j].n;
            LeadsTo(s, [ReadSecret(j, readOk), WriteSecret(j, true)],
                    s.(kv := s.kv[id := Issued(n, if readOk then SecretAt(s.kv, id).pfx else None)],
                       jobs := s.jobs[j := Written(id, n)]))
  {
    hide LeadsTo;
    Two(s, ReadSecret(j, readOk), WriteSecret(j, true));
    var id, n := s.jobs[j].id, s.jobs[j].n;
    assert Apply(Apply(s, ReadSecret(j, readOk)), WriteSecret(j, true)) ==
        s.(kv := s.kv[id := Issued(n, if readOk then SecretAt(s.kv, id).pfx else None)],
           jobs := s.jobs[j := Written(id, n)]);
  }

  lemma PointsRow(s: State, j: nat)
    requires j in s.jobs && s.jobs[j].Written? && s.jobs[j].id in s.rows
    ensures var id, n := s.jobs[j].id, s.jobs[j].n;
            LeadsTo(s, [PointRow(j), Activate(j)],
                    s.(rows := s.rows[id := Row(Active, Some(n), EMPTY.(pfx := s.rows[id].columns.pfx), true)],
                       jobs := s.jobs - {j}))
  {
    hide LeadsTo;
    Two(s, PointRow(j), Activate(j));
    var id, n := s.jobs[j].id, s.jobs[j].n;
    assert Apply(Apply(s, PointRow(j)), Activate(j)) ==
        s.(rows := s.rows[id := Row(Active, Some(n), EMPTY.(pfx := s.rows[id].columns.pfx), true)],
           jobs := s.jobs - {j});
  }

  lemma IssuanceInColumns(s: State, j: nat, readOk: bool)
    requires j in s.jobs && s.jobs[j].Queued? && s.jobs[j].id in s.rows && !s.external
    ensures LeadsTo(s, IssuanceSteps(s, j, readOk), Reissued(s, j, readOk))
  {
    hide LeadsTo;
    var t := Ordered(s, j);
    var u := Reissued(s, j, readOk);
    Orders(s, j);
    StoresInColumns(t, j);
    var id := s.jobs[j].id;
    assert t.jobs - {j} == s.jobs - {j} && t.rows[id := u.rows[id]] == u.rows;
    Then(s, [WriteIssuing(j), Obtain(j)], t, [StoreColumns(j), Activate(j)], u);
    assert IssuanceSteps(s, j, readOk) == [WriteIssuing(j), Obtain(j)] + [StoreColumns(j), Activate(j)];
  }

  lemma IssuanceInBackend(s: State, j: nat, readOk: bool)
    requires j in s.jobs && s.jobs[j].Queued? && s.jobs[j].id in s.rows && s.external
    ensures LeadsTo(s, IssuanceSteps(s, j, readOk), Reissued(s, j, readOk))
  {
    hide LeadsTo;
    var id, n := s.jobs[j].id, |s.orders|;
    var t := Ordered(s, j);
    var v := t.(kv := t.kv[id := Issued(n, if readOk then SecretAt(s.kv, id).pfx else None)],
                jobs := t.jobs[j := Written(id, n)]);
    var u := Reissued(s, j, readOk);
    Orders(s, j);
    WritesSecret(t, j, readOk);
    PointsRow(v, j);
    assert v.jobs - {j} == s.jobs - {j} && v.rows[id := u.rows[id]] == u.rows;
    Then(s, [WriteIssuing(j), Obtain(j)], t, [ReadSecret(j, readOk), WriteSecret(j, true)], v);
    Then(s, [WriteIssuing(j), Obtain(j)] + [ReadSecret(j, readOk), WriteSecret(j, true)], v,
         [PointRow(j), Activate(j)], u);
    assert IssuanceSteps(s, j, readOk)
        == [WriteIssuing(j), Obtain(j)] + [ReadSecret(j, readOk), WriteSecret(j, true)] + [PointRow(j), Activate(j)];
  }

  /** A task that nobody disturbs issues: the row then loads the new certificate, all of it, with the
      password of its home, and the recorded expiry is that of the leaf. */
  lemma Issues(s: State, j: nat, readOk: bool)
    requires Sound(s) && j in s.jobs && s.jobs[j].Queued? && s.jobs[j].id in s.rows
    ensures LeadsTo(s, IssuanceSteps(s, j, readOk), Reissued(s, j, readOk))
    ensures var id, t := s.jobs[j].id, Reissued(s, j, readOk);
            && t.rows[id].status.Active? && t.rows[id].expires == Some(|s.orders|)
            && Load(t, id) == Issued(|s.orders|, if !s.external then Load(s, id).pfx
                                                 else if readOk then SecretAt(s.kv, id).pfx else None)
            && t.rows - {id} == s.rows - {id} && t.kv - {id} == s.kv - {id}
  {
    var id := s.jobs[j].id;
    assert RowSound(s, id);
    hide LeadsTo, Own, HasPems, RowSound, Sound;
    assert s.rows[id := Reissued(s, j, readOk).rows[id]] - {id} == s.rows - {id};
    if s.external {
      IssuanceInBackend(s, j, readOk);
      assert s.kv[id := Reissued(s, j, readOk).kv[id]] - {id} == s.kv - {id};
    } else {
      IssuanceInColumns(s, j, readOk);
    }
  }

  /** A task that fails, at whatever point, leaves the row failed and its material, its expiry and
      everything else as they were at that point. */
  lemma Fails(s: State, j: nat)
    requires j in s.jobs && Live(s.jobs[j]) && !s.jobs[j].Failing? && s.jobs[j].id in s.rows
    ensures var id := s.jobs[j].id;
            LeadsTo(s, [Fail(j), MarkFailed(j)],
                    s.(rows := s.rows[id := s.rows[id].(status := Failed)], jobs := s.jobs - {j}))
  {
    hide LeadsTo;
    Two(s, Fail(j), MarkFailed(j));
    var id := s.jobs[j].id;
    assert Apply(Apply(s, Fail(j)), MarkFailed(j))
        == s.(rows := s.rows[id := s.rows[id].(status := Failed)], jobs := s.jobs - {j});
  }

  // ── Starting a task ────────────────────────────────────────────────────────

  /** A row with its task just started, and everything else as it was. */
  function Started(s: State, id: nat, j: nat): State
    requires id in s.rows
  {
    s.(rows := s.rows[id := s.rows[id].(status := Pending)], jobs := s.jobs[j := Queued(id)])
  }

  /** Renewing, retrying and sweeping a row that is not in flight all start a task on it and change
      nothing of it but the status; only a renewal does so in one step. A row in flight admits none
      of them, and an active one no retry. */
  lemma Starts(s: State, id: nat, j: nat)
    requires id in s.rows && j !in s.jobs
    ensures Enabled(s, Claim(id, j)) <==> s.rows[id].status.Active? || s.rows[id].status.Failed?
    ensures Enabled(s, PickSweep(id, j)) <==> s.rows[id].status.Active? || s.rows[id].status.Failed?
    ensures Enabled(s, PickRetry(id, j)) <==> s.rows[id].status.Failed?
    ensures Enabled(s, Claim(id, j)) ==> LeadsTo(s, [Claim(id, j)], Started(s, id, j))
    ensures Enabled(s, PickSweep(id, j)) ==> LeadsTo(s, [PickSweep(id, j), WritePending(j)], Started(s, id, j))
    ensures Enabled(s, PickRetry(id, j)) ==> LeadsTo(s, [PickRetry(id, j), WritePending(j)], Started(s, id, j))
  {
    hide LeadsTo;
    if Enabled(s, Claim(id, j)) {
      One(s, Claim(id, j));
      assert Apply(s, Claim(id, j)) == Started(s, id, j);
      Picks(s, PickSweep(id, j), id, j);
    }
    if Enabled(s, PickRetry(id, j)) {
      Picks(s, PickRetry(id, j), id, j);
    }
  }

  lemma Picks(s: State, pick: Step, id: nat, j: nat)
    requires id in s.rows && j !in s.jobs && Enabled(s, pick) && (pick == PickSweep(id, j) || pick == PickRetry(id, j))
    ensures LeadsTo(s, [pick, WritePending(j)], Started(s, id, j))
  {
    hide LeadsTo;
    Two(s, pick, WritePending(j));
    assert Apply(Apply(s, pick), WritePending(j)) == Started(s, id, j);
  }

  /** A create inserts a pending row without any material under a new id, with its task. */
  lemma Inserts(s: State, id: nat, j: nat)
    requires j !in s.jobs
    ensures Enabled(s, Insert(id, j)) <==> id !in s.used
    ensures id !in s.used ==>
              Apply(s, Insert(id, j)) ==
              s.(rows := s.rows[id := Row(Pending, None, EMPTY, false)], used := s.used + {id},
                 jobs := s.jobs[j := Queued(id)])
  {}

  // ── Downloads ──────────────────────────────────────────────────────────────

  /** A download of a row that has a certificate and no password mints one, which the row then loads
      with the PEMs it had; other rows do not get one. With a password, or without a certificate,
      there is nothing to mint. */
  lemma Mints(s: State, id: nat, j: nat, password: nat)
    requires Sound(s) && id in s.rows && j !in s.jobs
    ensures Enabled(s, PfxFetch(id, j)) <==> Load(s, id).cert.Some? && Load(s, id).pfx.None?
    ensures Enabled(s, PfxFetch(id, j)) ==>
              var steps := if s.rows[id].ref then [PfxFetch(id, j), PfxRead(j), PfxWriteSecret(j, password)]
                           else [PfxFetch(id, j), PfxWriteColumn(j, password)];
              var t := WithPassword(s, id, password);
              LeadsTo(s, steps, t) && Load(t, id) == Load(s, id).(pfx := Some(password))
  {
    assert RowSound(s, id);
    hide Sound, RowSound, Own, HasPems, LeadsTo;
    if Enabled(s, PfxFetch(id, j)) {
      if s.rows[id].ref {
        MintsInBackend(s, id, j, password);
      } else {
        MintsInColumn(s, id, j, password);
      }
    }
  }

  function WithPassword(s: State, id: nat, password: nat): State
    requires id in s.rows
  {
    if s.rows[id].ref then s.(kv := s.kv[id := SecretAt(s.kv, id).(pfx := Some(password))])
    else s.(rows := s.rows[id := s.rows[id].(columns := s.rows[id].columns.(pfx := Some(password)))])
  }

  lemma MintsInColumn(s: State, id: nat, j: nat, password: nat)
    requires id in s.rows && j !in s.jobs && !s.rows[id].ref && Enabled(s, PfxFetch(id, j))
    ensures LeadsTo(s, [PfxFetch(id, j), PfxWriteColumn(j, password)], WithPassword(s, id, password))
  {
    hide LeadsTo;
    Two(s, PfxFetch(id, j), PfxWriteColumn(j, password));
    var t := Apply(Apply(s, PfxFetch(id, j)), PfxWriteColumn(j, password));
    assert t.jobs == s.jobs;
    assert t == WithPassword(s, id, password);
  }

  lemma MintsInBackend(s: State, id: nat, j: nat, password: nat)
    requires id in s.rows && j !in s.jobs && s.rows[id].ref && Enabled(s, PfxFetch(id, j))
    ensures LeadsTo(s, [PfxFetch(id, j), PfxRead(j), PfxWriteSecret(j, password)], WithPassword(s, id, password))
  {
    hide LeadsTo;
    var t := Apply(Apply(s, PfxFetch(id, j)), PfxRead(j));
    assert t == s.(jobs := s.jobs[j := PfxHolding(id, SecretAt(s.kv, id))]);
    Two(s, PfxFetch(id, j), PfxRead(j));
    assert t.jobs - {j} == s.jobs;
    assert Apply(t, PfxWriteSecret(j, password)) == WithPassword(s, id, password);
    One(t, PfxWriteSecret(j, password));
    Then(s, [PfxFetch(id, j), PfxRead(j)], t, [PfxWriteSecret(j, password)], WithPassword(s, id, password));
    assert [PfxFetch(id, j), PfxRead(j)] + [PfxWriteSecret(j, password)]
        == [PfxFetch(id, j), PfxRead(j), PfxWriteSecret(j, password)];
  }

  /** A download that gives up changes nothing. */
  lemma GivesUp(s: State, j: nat)
    requires j in s.jobs && (s.jobs[j].PfxFetched? || s.jobs[j].PfxHolding?)
    ensures Enabled(s, PfxGiveUp(j)) && Apply(s, PfxGiveUp(j)) == s.(jobs := s.jobs - {j})
  {}

  // ── Deletes and crashes ────────────────────────────────────────────────────

  /** A delete removes the row and, if the row referred to it and the call succeeds, the secret;
      nothing else. */
  lemma Deletes(s: State, id: nat, j: nat, ok: bool)
    requires id in s.rows && j !in s.jobs
    ensures LeadsTo(s, [DeleteFetch(id, j), DeleteRow(j), DeleteSecret(j, ok)],
                    s.(rows := s.rows - {id}, kv := if ok && s.rows[id].ref then s.kv - {id} else s.kv))
  {
    hide LeadsTo;
    var t := s.(rows := s.rows - {id}, jobs := s.jobs[j := Removing(id, s.rows[id].ref)]);
    var u := s.(rows := s.rows - {id}, kv := if ok && s.rows[id].ref then s.kv - {id} else s.kv);
    RemovesRow(s, id, j);
    RemovesSecret(t, j, ok);
    assert t.jobs - {j} == s.jobs;
    Then(s, [DeleteFetch(id, j), DeleteRow(j)], t, [DeleteSecret(j, ok)], u);
    assert [DeleteFetch(id, j), DeleteRow(j)] + [DeleteSecret(j, ok)]
        == [DeleteFetch(id, j), DeleteRow(j), DeleteSecret(j, ok)];
  }

  lemma RemovesRow(s: State, id: nat, j: nat)
    requires id in s.rows && j !in s.jobs
    ensures LeadsTo(s, [DeleteFetch(id, j), DeleteRow(j)],
                    s.(rows := s.rows - {id}, jobs := s.jobs[j := Removing(id, s.rows[id].ref)]))
  {
    hide LeadsTo;
    Two(s, DeleteFetch(id, j), DeleteRow(j));
    assert Apply(Apply(s, DeleteFetch(id, j)), DeleteRow(j))
        == s.(rows := s.rows - {id}, jobs := s.jobs[j := Removing(id, s.rows[id].ref)]);
  }

  lemma RemovesSecret(s: State, j: nat, ok: bool)
    requires j in s.jobs && s.jobs[j].Removing?
    ensures LeadsTo(s, [DeleteSecret(j, ok)],
                    s.(kv := if ok && s.jobs[j].ref then s.kv - {s.jobs[j].id} else s.kv, jobs := s.jobs - {j}))
  {
    hide LeadsTo;
    One(s, DeleteSecret(j, ok));
  }

  /** A second delete of the same row finds it gone and touches no secret. */
  lemma DeletesNothing(s: State, j: nat)
    requires j in s.jobs && s.jobs[j].Deleting? && s.jobs[j].id !in s.rows
    ensures Enabled(s, DeleteRow(j)) && Apply(s, DeleteRow(j)) == s.(jobs := s.jobs - {j})
  {
    assert s.rows - {s.jobs[j].id} == s.rows;
  }

  /** A crash loses the activities and nothing that was stored. */
  lemma CrashKeepsData(s: State)
    ensures Enabled(s, Crash) && Apply(s, Crash) == s.(jobs := map[])
  {}
}
