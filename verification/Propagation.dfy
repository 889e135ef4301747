/** Waiting until every authoritative name server serves every challenge value. */
module Propagation {
  import opened Text
  import DnsWalk

  type Ip = DnsWalk.Ip

  datatype Probe = Answered(seen: set<string>) | NoRoute | Failed

  datatype NsState = Ready | Missing(count: nat) | NoAnswer | Unreachable

  /** One name server of one challenge name, with the addresses still polled. */
  datatype NsTarget = NsTarget(name: string, addrs: seq<Ip>, skipped: bool)

  datatype Target = Target(values: set<string>, servers: seq<NsTarget>)

  /** What address `a` of server `s` of name `t` answers in pass `n`. */
  type Answers = (nat, nat, nat, nat) -> Probe

  // ── Judging one name server ────────────────────────────────────────────────

  /** The largest number of missing values over the addresses that answered. */
  function Worst(expected: set<string>, probes: seq<Probe>): (w: Option<nat>)
    ensures w.Some? ==> exists i :: 0 <= i < |probes| && probes[i].Answered? && |expected - probes[i].seen| == w.value
    ensures forall i :: 0 <= i < |probes| && probes[i].Answered? ==>
              w.Some? && |expected - probes[i].seen| <= w.value
  {
    if probes == [] then None
    else
      var k := |probes| - 1;
      var w := Worst(expected, probes[..k]);
      if probes[k].Answered? then Larger(w, |expected - probes[k].seen|) else w
  }

  function Larger(w: Option<nat>, missing: nat): (r: Option<nat>)
    ensures r.Some? && r.value >= missing && (r.value == missing || r == w) && (w.Some? ==> r.value >= w.value)
  {
    if w.None? || w.value < missing then Some(missing) else w
  }

  function Assess(expected: set<string>, probes: seq<Probe>): NsState {
    if forall p :: p in probes ==> p == NoRoute then Unreachable
    else
      var w := Worst(expected, probes);
      if w.None? then NoAnswer else if w.value == 0 then Ready else Missing(w.value)
  }

  /** The verdict on a name server, in the words of the source's own documentation. */
  lemma AssessMeaning(expected: set<string>, probes: seq<Probe>)
    ensures Assess(expected, probes).Unreachable? <==> forall p :: p in probes ==> p == NoRoute
    ensures Assess(expected, probes).Ready? <==>
            (exists p :: p in probes && p.Answered?) && forall p :: p in probes && p.Answered? ==> expected <= p.seen
    ensures Assess(expected, probes).NoAnswer? <==> Failed in probes && forall p :: p in probes ==> !p.Answered?
  {
    var w := Worst(expected, probes);
    forall p | p in probes && p.Answered? ensures w.Some? && |expected - p.seen| <= w.value {
      var i :| 0 <= i < |probes| && probes[i] == p;
    }
    forall p: Probe | p.Answered? ensures |expected - p.seen| == 0 <==> expected <= p.seen {
      assert expected <= p.seen ==> expected - p.seen == {};
      assert |expected - p.seen| == 0 ==> expected - p.seen == {};
      assert forall v :: v in expected && v !in p.seen ==> v in expected - p.seen;
    }
    if w.Some? {
      var i :| 0 <= i < |probes| && probes[i].Answered? && |expected - probes[i].seen| == w.value;
      assert probes[i] in probes;
    }
  }

  /** Neither the order nor the repetition of probe results matters. */
  lemma AssessIgnoresOrder(expected: set<string>, a: seq<Probe>, b: seq<Probe>)
    requires forall p :: p in a <==> p in b
    ensures Assess(expected, a) == Assess(expected, b)
  {
    hide Worst, Assess;
    AssessMeaning(expected, a);
    AssessMeaning(expected, b);
    WorstIgnoresOrder(expected, a, b);
    AssessMissing(expected, a);
    AssessMissing(expected, b);
  }

  lemma AssessMissing(expected: set<string>, probes: seq<Probe>)
    ensures Assess(expected, probes).Missing? ==> Worst(expected, probes) == Some(Assess(expected, probes).count)
  {}

  lemma WorstIgnoresOrder(expected: set<string>, a: seq<Probe>, b: seq<Probe>)
    requires forall p :: p in a <==> p in b
    ensures Worst(expected, a) == Worst(expected, b)
  {
    WorstAtMost(expected, a, b);
    WorstAtMost(expected, b, a);
  }

  lemma WorstAtMost(expected: set<string>, a: seq<Probe>, b: seq<Probe>)
    requires forall p :: p in a ==> p in b
    ensures Worst(expected, a).Some? ==>
              Worst(expected, b).Some? && Worst(expected, a).value <= Worst(expected, b).value
  {
    var w := Worst(expected, a);
    if w.Some? {
      var i :| 0 <= i < |a| && a[i].Answered? && |expected - a[i].seen| == w.value;
      assert a[i] in b;
      var j :| 0 <= j < |b| && b[j] == a[i];
    }
  }

  // ── One pass ───────────────────────────────────────────────────────────────

  function ProbesOf(ns: NsTarget, ans: Answers, n: nat, t: nat, s: nat): (r: seq<Probe>)
    ensures |r| == |ns.addrs|
  {
    seq(|ns.addrs|, a requires 0 <= a < |ns.addrs| => ans(n, t, s, a))
  }

  /** Addresses without a route are dropped, wherever in the list they stand. */
  function Retained(addrs: seq<Ip>, gone: set<Ip>): (r: seq<Ip>)
    ensures forall ip :: ip in r <==> ip in addrs && ip !in gone
  {
    if addrs == [] then [] else (if addrs[0] in gone then [] else [addrs[0]]) + Retained(addrs[1..], gone)
  }

  function Unroutable(ns: NsTarget, ans: Answers, n: nat, t: nat, s: nat): set<Ip> {
    set a | 0 <= a < |ns.addrs| && ans(n, t, s, a) == NoRoute :: ns.addrs[a]
  }

  function NextNs(values: set<string>, ns: NsTarget, ans: Answers, n: nat, t: nat, s: nat): NsTarget {
    NsTarget(ns.name, Retained(ns.addrs, Unroutable(ns, ans, n, t, s)),
             ns.skipped || Assess(values, ProbesOf(ns, ans, n, t, s)).Unreachable?)
  }

  function NextTarget(x: Target, ans: Answers, n: nat, t: nat): (r: Target)
    ensures |r.servers| == |x.servers| && r.values == x.values
    ensures forall s :: 0 <= s < |x.servers| ==> r.servers[s].name == x.servers[s].name
  {
    Target(x.values, seq(|x.servers|, s requires 0 <= s < |x.servers| => NextNs(x.values, x.servers[s], ans, n, t, s)))
  }

  function NextTargets(ts: seq<Target>, ans: Answers, n: nat): (r: seq<Target>)
    ensures |r| == |ts|
  {
    seq(|ts|, t requires 0 <= t < |ts| => NextTarget(ts[t], ans, n, t))
  }

  /** The targets polled in pass `n`. */
  function TargetsAt(ts: seq<Target>, ans: Answers, n: nat): (r: seq<Target>)
    ensures |r| == |ts|
  {
    if n == 0 then ts else NextTargets(TargetsAt(ts, ans, n - 1), ans, n - 1)
  }

  predicate AllDropped(x: Target) {
    forall s :: 0 <= s < |x.servers| ==> x.servers[s].addrs == []
  }

  predicate NsSettled(values: set<string>, ns: NsTarget, ans: Answers, n: nat, t: nat, s: nat) {
    var state := Assess(values, ProbesOf(ns, ans, n, t, s)); state.Ready? || state.Unreachable?
  }

  predicate TargetSettled(x: Target, ans: Answers, n: nat, t: nat) {
    forall s :: 0 <= s < |x.servers| ==> NsSettled(x.values, x.servers[s], ans, n, t, s)
  }

  datatype PassResult = AllReady | Waiting | NoServer

  /** What pass `n` concludes from the targets it polled. */
  function PassVerdict(ts: seq<Target>, ans: Answers, n: nat): PassResult {
    if exists t :: 0 <= t < |ts| && AllDropped(NextTarget(ts[t], ans, n, t)) then NoServer
    else if forall t :: 0 <= t < |ts| ==> TargetSettled(ts[t], ans, n, t) then AllReady
    else Waiting
  }

  // ── The polling loop ───────────────────────────────────────────────────────

  /** Which address of which server of which name a probe result belongs to. */
  datatype Key = Key(t: nat, s: nat, a: nat)

  predicate Probed(ts: seq<Target>, k: Key) {
    k.t < |ts| && k.s < |ts[k.t].servers| && k.a < |ts[k.t].servers[k.s].addrs|
  }

  /** The order in which a pass's parallel probes complete: every probe, in any order. */
  type Arrivals = (nat, seq<Target>) -> seq<Key>

  ghost predicate Complete(order: Arrivals) {
    forall n, ts, k :: k in order(n, ts) <==> Probed(ts, k)
  }

  /** Milliseconds at the end of pass `n`: passes are at least a second apart. */
  ghost predicate Ticking(clock: nat -> nat) {
    forall n: nat :: clock(n + 1) >= clock(n) + 1_000
  }

  datatype WaitResult = Visible | GaveUp | NoServers

  /** Results of one server, in arrival order. */
  method MineOf(results: seq<(Key, Probe)>, t: nat, s: nat) returns (mine: seq<(nat, Probe)>)
    ensures forall a: nat, p :: (a, p) in mine <==> (Key(t, s, a), p) in results
  {
    mine := [];
    for i := 0 to |results|
      invariant forall a: nat, p :: (a, p) in mine <==> (Key(t, s, a), p) in results[..i]
    {
      assert results[..i + 1] == results[..i] + [results[i]];
      if results[i].0.t == t && results[i].0.s == s {
        mine := mine + [(results[i].0.a, results[i].1)];
      }
    }
    assert results[..|results|] == results;
  }

  /** Drops the unroutable addresses of one server and judges it. */
  method JudgeNs(values: set<string>, ns: NsTarget, mine: seq<(nat, Probe)>, ans: Answers, n: nat, t: nat, s: nat)
    returns (next: NsTarget, settled: bool)
    requires forall a: nat, p :: (a, p) in mine <==> a < |ns.addrs| && p == ans(n, t, s, a)
    ensures next == NextNs(values, ns, ans, n, t, s)
    ensures settled == NsSettled(values, ns, ans, n, t, s)
  {
    hide Assess;
    var gone: set<Ip> := {};
    var probes: seq<Probe> := [];
    for i := 0 to |mine|
      invariant gone == set m | m in mine[..i] && m.1 == NoRoute :: ns.addrs[m.0]
      invariant forall p :: p in probes <==> exists a :: (a, p) in mine[..i]
    {
      assert mine[..i + 1] == mine[..i] + [mine[i]];
      assert mine[i] in mine && mine[i] == (mine[i].0, mine[i].1);
      if mine[i].1 == NoRoute {
        gone := gone + {ns.addrs[mine[i].0]};
      }
      probes := probes + [mine[i].1];
    }
    assert mine[..|mine|] == mine;
    SameProbes(ns, mine, probes, gone, ans, n, t, s);
    AssessIgnoresOrder(values, probes, ProbesOf(ns, ans, n, t, s));
    var state := Assess(values, probes);
    next := NsTarget(ns.name, Retained(ns.addrs, gone), ns.skipped || state.Unreachable?);
    settled := state.Ready? || state.Unreachable?;
  }

  lemma SameProbes(ns: NsTarget, mine: seq<(nat, Probe)>, probes: seq<Probe>, gone: set<Ip>, ans: Answers, n: nat,
      t: nat, s: nat)
    requires forall a: nat, p :: (a, p) in mine <==> a < |ns.addrs| && p == ans(n, t, s, a)
    requires forall m :: m in mine ==> m.0 < |ns.addrs|
    requires gone == set m | m in mine && m.1 == NoRoute :: ns.addrs[m.0]
    requires forall p :: p in probes <==> exists a :: (a, p) in mine
    ensures gone == Unroutable(ns, ans, n, t, s)
    ensures forall p :: p in probes <==> p in ProbesOf(ns, ans, n, t, s)
  {
    var all := ProbesOf(ns, ans, n, t, s);
    forall p | p in all ensures p in probes {
      var a :| 0 <= a < |all| && all[a] == p;
      assert (a, p) in mine;
    }
    forall p | p in probes ensures p in all {
      var a :| (a, p) in mine;
      assert all[a] == p;
    }
    forall ip | ip in Unroutable(ns, ans, n, t, s) ensures ip in gone {
      var a :| 0 <= a < |ns.addrs| && ans(n, t, s, a) == NoRoute && ns.addrs[a] == ip;
      assert (a, NoRoute) in mine;
    }
    forall ip | ip in gone ensures ip in Unroutable(ns, ans, n, t, s) {
      var m :| m in mine && m.1 == NoRoute && ns.addrs[m.0] == ip;
      assert (m.0, m.1) in mine;
    }
  }

  /** Polls the located servers; `clock` and `order` are the environment's. The result is fixed by
      the answers and the clock alone, whatever the completion order of the probes. */
  method Poll(targets: seq<Target>, ans: Answers, order: Arrivals, clock: nat -> nat, deadline: nat)
    returns (r: WaitResult, passes: nat)
    requires Complete(order) && Ticking(clock)
    ensures targets == [] ==> r == Visible && passes == 0
    ensures targets != [] ==> passes > 0
    ensures forall n :: 0 <= n < passes - 1 ==>
              PassVerdict(TargetsAt(targets, ans, n), ans, n) == Waiting && clock(n) < deadline
    ensures passes > 0 ==>
              var last := PassVerdict(TargetsAt(targets, ans, passes - 1), ans, passes - 1);
              && (r == Visible <==> last == AllReady)
              && (r == NoServers <==> last == NoServer)
              && (r == GaveUp <==> last == Waiting && clock(passes - 1) >= deadline)
  {
    hide PassVerdict, NextTargets;
    if targets == [] {
      return Visible, 0;
    }
    var ts := targets;
    var n := 0;
    while true
      invariant ts == TargetsAt(targets, ans, n)
      invariant forall m :: 0 <= m < n ==>
        PassVerdict(TargetsAt(targets, ans, m), ans, m) == Waiting && clock(m) < deadline
      decreases deadline - clock(n)
    {
      var verdict, next := OnePass(ts, ans, order(n, ts), n);
      passes := n + 1;
      if verdict == NoServer {
        return NoServers, passes;
      }
      if verdict == AllReady {
        return Visible, passes;
      }
      if clock(n) >= deadline {
        return GaveUp, passes;
      }
      assert clock(n + 1) >= clock(n) + 1_000;
      ts := next;
      n := n + 1;
    }
  }

  /** Collect every probe result in completion order, then go over names and servers. */
  method OnePass(ts: seq<Target>, ans: Answers, arrivals: seq<Key>, n: nat)
      returns (verdict: PassResult, next: seq<Target>)
    requires forall k :: k in arrivals <==> Probed(ts, k)
    ensures verdict == PassVerdict(ts, ans, n)
    ensures verdict != NoServer ==> next == NextTargets(ts, ans, n)
  {
    hide Assess, NextNs, NsSettled;
    var results := seq(|arrivals|, i requires 0 <= i < |arrivals| =>
                       (arrivals[i], ans(n, arrivals[i].t, arrivals[i].s, arrivals[i].a)));
    assert forall k, p :: (k, p) in results <==> Probed(ts, k) && p == ans(n, k.t, k.s, k.a) by {
      ResultsAreAnswers(ts, ans, arrivals, n, results);
    }
    next := [];
    var allReady := true;
    for t := 0 to |ts|
      invariant |next| == t
      invariant forall k :: 0 <= k < t ==> next[k] == NextTarget(ts[k], ans, n, k) && !AllDropped(next[k])
      invariant allReady == forall k :: 0 <= k < t ==> TargetSettled(ts[k], ans, n, k)
    {
      var servers: seq<NsTarget> := [];
      var settled := true;
      for s := 0 to |ts[t].servers|
        invariant |servers| == s
        invariant forall k :: 0 <= k < s ==> servers[k] == NextNs(ts[t].values, ts[t].servers[k], ans, n, t, k)
        invariant settled == forall k :: 0 <= k < s ==> NsSettled(ts[t].values, ts[t].servers[k], ans, n, t, k)
      {
        var mine := MineOf(results, t, s);
        assert forall a: nat, p :: (a, p) in mine <==> Probed(ts, Key(t, s, a)) && p == ans(n, t, s, a);
        var ns, ok := JudgeNs(ts[t].values, ts[t].servers[s], mine, ans, n, t, s);
        servers := servers + [ns];
        settled := settled && ok;
      }
      var after := Target(ts[t].values, servers);
      assert after == NextTarget(ts[t], ans, n, t);
      if AllDropped(after) {
        return NoServer, next;
      }
      allReady := allReady && settled;
      next := next + [after];
    }
    assert next == NextTargets(ts, ans, n);
    verdict := if allReady then AllReady else Waiting;
  }

  lemma ResultsAreAnswers(ts: seq<Target>, ans: Answers, arrivals: seq<Key>, n: nat, results: seq<(Key, Probe)>)
    requires forall k :: k in arrivals <==> Probed(ts, k)
    requires |results| == |arrivals|
    requires forall i :: 0 <= i < |results| ==>
              results[i] == (arrivals[i], ans(n, arrivals[i].t, arrivals[i].s, arrivals[i].a))
    ensures forall k, p :: (k, p) in results <==> Probed(ts, k) && p == ans(n, k.t, k.s, k.a)
  {
    forall k, p ensures (k, p) in results <==> Probed(ts, k) && p == ans(n, k.t, k.s, k.a) {
      if Probed(ts, k) && p == ans(n, k.t, k.s, k.a) {
        var i :| 0 <= i < |arrivals| && arrivals[i] == k;
        assert results[i] == (k, p);
      }
      if (k, p) in results {
        var i :| 0 <= i < |results| && results[i] == (k, p);
        assert arrivals[i] in arrivals;
      }
    }
  }

  /** Where discovery leads: one target per name, unless it fails or finds nothing for some name. */
  ghost predicate Discovers(expected: seq<(string, set<string>)>, found: string -> Option<seq<(string, Ip)>>) {
    forall n :: 0 <= n < |expected| ==> found(expected[n].0).Some? && found(expected[n].0).value != []
  }

  function TargetsOf(expected: seq<(string, set<string>)>, found: string -> Option<seq<(string, Ip)>>): seq<Target>
    requires forall n :: 0 <= n < |expected| ==> found(expected[n].0).Some?
  {
    seq(|expected|, n requires 0 <= n < |expected| => Target(expected[n].1, Grouped(found(expected[n].0).value)))
  }

  /** Locates the servers of every name; stops at the first name for which that fails. */
  method Locate(expected: seq<(string, set<string>)>, found: string -> Option<seq<(string, Ip)>>)
    returns (targets: Option<seq<Target>>)
    ensures targets.Some? <==> Discovers(expected, found)
    ensures targets.Some? ==> targets.value == TargetsOf(expected, found)
  {
    hide Grouped;
    var ts: seq<Target> := [];
    for n := 0 to |expected|
      invariant |ts| == n && Discovers(expected[..n], found)
      invariant forall k :: 0 <= k < n ==> ts[k] == Target(expected[k].1, Grouped(found(expected[k].0).value))
    {
      var servers := found(expected[n].0);
      if servers.None? || servers.value == [] {
        return None;
      }
      var grouped := GroupByNs(servers.value);
      ts := ts + [Target(expected[n].1, grouped)];
    }
    assert expected[..|expected|] == expected;
    targets := Some(ts);
  }

  /** In pass `n` every name is served. */
  ghost predicate AllServed(ts: seq<Target>, ans: Answers, n: nat) {
    forall t :: 0 <= t < |ts| ==> Served(TargetsAt(ts, ans, n)[t], ans, n, t)
  }

  /** In pass `n` some name has no address left that can be reached. */
  ghost predicate SomeUnreachable(ts: seq<Target>, ans: Answers, n: nat) {
    exists t :: 0 <= t < |ts| && !Reachable(TargetsAt(ts, ans, n)[t], ans, n, t)
  }

  lemma VerdictAt(ts: seq<Target>, ans: Answers, n: nat)
    ensures var verdict := PassVerdict(TargetsAt(ts, ans, n), ans, n);
            && (verdict == AllReady <==> AllServed(ts, ans, n))
            && (verdict == NoServer <==> SomeUnreachable(ts, ans, n))
            && (verdict == Waiting <==> GoesOn(ts, ans, n))
  {
    hide PassVerdict, TargetsAt, Served, Reachable;
    PassVerdictIsExact(TargetsAt(ts, ans, n), ans, n);
  }

  ghost predicate GoesOn(ts: seq<Target>, ans: Answers, n: nat) {
    !AllServed(ts, ans, n) && !SomeUnreachable(ts, ans, n)
  }

  /** `wait_for_propagation`: discovery once, then polling. Nothing is polled for an empty request,
      nor when some name has no located server; otherwise it ends well in the first pass in which
      every name is served, unless some name has lost its last server or the time is up before. */
  method WaitForPropagation(expected: seq<(string, set<string>)>, found: string -> Option<seq<(string, Ip)>>,
                            ans: Answers, order: Arrivals, clock: nat -> nat, deadline: nat)
    returns (r: WaitResult, passes: nat)
    requires Complete(order) && Ticking(clock)
    ensures expected == [] ==> r == Visible && passes == 0
    ensures expected != [] && !Discovers(expected, found) ==> r == NoServers && passes == 0
    ensures expected != [] && Discovers(expected, found) ==>
              var ts := TargetsOf(expected, found);
              && passes > 0
              && (forall n :: 0 <= n < passes - 1 ==> GoesOn(ts, ans, n) && clock(n) < deadline)
              && (r == Visible <==> AllServed(ts, ans, passes - 1))
              && (r == NoServers <==> SomeUnreachable(ts, ans, passes - 1))
              && (r == GaveUp <==> GoesOn(ts, ans, passes - 1) && clock(passes - 1) >= deadline)
  {
    hide PassVerdict, TargetsAt, Grouped, AllServed, SomeUnreachable, GoesOn;
    if expected == [] {
      return Visible, 0;
    }
    var targets := Locate(expected, found);
    if targets.None? {
      return NoServers, 0;
    }
    r, passes := Poll(targets.value, ans, order, clock, deadline);
    forall n | 0 <= n < passes { VerdictAt(targets.value, ans, n); }
  }

  // ── When a pass settles, over the probes ───────────────────────────────────

  /** Every address that answered serves all the values; if none did, none can be reached. */
  ghost predicate ServerSettled(x: Target, ans: Answers, n: nat, t: nat, s: nat)
    requires s < |x.servers|
  {
    && (forall a :: 0 <= a < |x.servers[s].addrs| && ans(n, t, s, a).Answered? ==> x.values <= ans(n, t, s, a).seen)
    && ((exists a :: 0 <= a < |x.servers[s].addrs| && ans(n, t, s, a).Answered?)
        || forall a :: 0 <= a < |x.servers[s].addrs| ==> ans(n, t, s, a) == NoRoute)
  }

  predicate PolledAt(x: Target, s: nat, a: nat) {
    s < |x.servers| && a < |x.servers[s].addrs|
  }

  /** The address turned out unroutable, at this place of the server's list or, if listed twice, at another. */
  predicate Gone(x: Target, ans: Answers, n: nat, t: nat, s: nat, a: nat)
    requires PolledAt(x, s, a)
  {
    exists b :: 0 <= b < |x.servers[s].addrs| && x.servers[s].addrs[b] == x.servers[s].addrs[a]
                && ans(n, t, s, b) == NoRoute
  }

  ghost predicate Reachable(x: Target, ans: Answers, n: nat, t: nat) {
    exists s: nat, a: nat :: PolledAt(x, s, a) && !Gone(x, ans, n, t, s, a)
  }

  /** A name is served: some address polled for it can be reached, and of each server every address
      that answered has all the values, some one did or none has a route. */
  ghost predicate Served(x: Target, ans: Answers, n: nat, t: nat) {
    Reachable(x, ans, n, t) && forall s :: 0 <= s < |x.servers| ==> ServerSettled(x, ans, n, t, s)
  }

  /** A pass ends the wait well exactly when every name is served, and for want of servers exactly
      when some name has no address left that can be reached. */
  lemma PassVerdictIsExact(ts: seq<Target>, ans: Answers, n: nat)
    ensures PassVerdict(ts, ans, n) == AllReady <==> forall t :: 0 <= t < |ts| ==> Served(ts[t], ans, n, t)
    ensures PassVerdict(ts, ans, n) == NoServer <==> exists t :: 0 <= t < |ts| && !Reachable(ts[t], ans, n, t)
  {
    hide NextTarget, AllDropped, TargetSettled, Reachable, ServerSettled;
    forall t | 0 <= t < |ts|
      ensures AllDropped(NextTarget(ts[t], ans, n, t)) <==> !Reachable(ts[t], ans, n, t)
      ensures TargetSettled(ts[t], ans, n, t)
              <==> forall s :: 0 <= s < |ts[t].servers| ==> ServerSettled(ts[t], ans, n, t, s)
    {
      DroppedIsUnreachable(ts[t], ans, n, t);
      SettledIsSettled(ts[t], ans, n, t);
    }
  }

  lemma DroppedIsUnreachable(x: Target, ans: Answers, n: nat, t: nat)
    ensures AllDropped(NextTarget(x, ans, n, t)) <==> !Reachable(x, ans, n, t)
  {
    hide Assess;
    var y := NextTarget(x, ans, n, t);
    forall s, a: nat | 0 <= s < |x.servers| && a < |x.servers[s].addrs|
      ensures x.servers[s].addrs[a] in y.servers[s].addrs <==> !Gone(x, ans, n, t, s, a)
    {}
    if s: nat, a: nat :| PolledAt(x, s, a) && !Gone(x, ans, n, t, s, a) {
      assert x.servers[s].addrs[a] in y.servers[s].addrs;
    }
    if !AllDropped(y) {
      var s :| 0 <= s < |y.servers| && y.servers[s].addrs != [];
      var ip := y.servers[s].addrs[0];
      assert ip in y.servers[s].addrs && ip in x.servers[s].addrs;
      var a :| 0 <= a < |x.servers[s].addrs| && x.servers[s].addrs[a] == ip;
      assert PolledAt(x, s, a) && !Gone(x, ans, n, t, s, a);
    }
  }

  lemma SettledIsSettled(x: Target, ans: Answers, n: nat, t: nat)
    ensures TargetSettled(x, ans, n, t) <==> forall s :: 0 <= s < |x.servers| ==> ServerSettled(x, ans, n, t, s)
  {
    hide NsSettled, ServerSettled;
    forall s: nat | s < |x.servers|
      ensures NsSettled(x.values, x.servers[s], ans, n, t, s) <==> ServerSettled(x, ans, n, t, s)
    {
      SettledServer(x, ans, n, t, s);
    }
  }

  /** Success in pass `n` means: every name has a server that answered, every address that
      answered serves all the values, and a server that did not answer has no reachable address. */
  lemma VisibleMeansServed(ts: seq<Target>, ans: Answers, n: nat, t: nat)
    requires PassVerdict(ts, ans, n) == AllReady && t < |ts|
    ensures exists s, a :: 0 <= s < |ts[t].servers| && 0 <= a < |ts[t].servers[s].addrs| && ans(n, t, s, a).Answered?
    ensures forall s :: 0 <= s < |ts[t].servers| ==> ServerSettled(ts[t], ans, n, t, s)
  {
    hide ServerSettled;
    PassVerdictIsExact(ts, ans, n);
    var x := ts[t];
    assert Served(x, ans, n, t);
    var s, a :| PolledAt(x, s, a) && !Gone(x, ans, n, t, s, a);
    SomebodyAnswered(x, ans, n, t, s, a);
  }

  lemma SomebodyAnswered(x: Target, ans: Answers, n: nat, t: nat, s: nat, a: nat)
    requires PolledAt(x, s, a) && !Gone(x, ans, n, t, s, a) && ServerSettled(x, ans, n, t, s)
    ensures exists b :: 0 <= b < |x.servers[s].addrs| && ans(n, t, s, b).Answered?
  {
    assert ans(n, t, s, a) != NoRoute;
  }

  lemma SettledServer(x: Target, ans: Answers, n: nat, t: nat, s: nat)
    requires s < |x.servers|
    ensures NsSettled(x.values, x.servers[s], ans, n, t, s) <==> ServerSettled(x, ans, n, t, s)
  {
    hide Assess;
    var probes := ProbesOf(x.servers[s], ans, n, t, s);
    AssessMeaning(x.values, probes);
    assert forall a :: 0 <= a < |probes| ==> probes[a] == ans(n, t, s, a) && probes[a] in probes;
  }

  /** The number of passes is bounded by the timeout in seconds, rounded up, plus one. */
  lemma PassBound(clock: nat -> nat, start: nat, timeout: nat, passes: nat)
    requires Ticking(clock) && clock(0) >= start
    requires passes >= 2 ==> clock(passes - 2) < start + timeout
    ensures passes <= (timeout + 999) / 1_000 + 1
  {
    if passes >= 2 {
      ClockAtLeast(clock, passes - 2);
    }
  }

  lemma {:induction false} ClockAtLeast(clock: nat -> nat, n: nat)
    requires Ticking(clock)
    ensures clock(n) >= clock(0) + 1_000 * n
  {
    if n > 0 {
      ClockAtLeast(clock, n - 1);
      assert clock(n - 1 + 1) >= clock(n - 1) + 1_000;
    }
  }

  // ── Dropped addresses ──────────────────────────────────────────────────────

  /** All addresses polled for one name. */
  function Polled(x: Target): set<Ip> {
    set s, ip | 0 <= s < |x.servers| && ip in x.servers[s].addrs :: ip
  }

  /** No address is listed twice for a name, which discovery guarantees. */
  ghost predicate Distinct(x: Target) {
    && (forall s :: 0 <= s < |x.servers| ==> NoRepeats(x.servers[s].addrs))
    && (forall s, u, ip :: 0 <= s < u < |x.servers| && ip in x.servers[s].addrs ==> ip !in x.servers[u].addrs)
  }

  /** One pass keeps exactly the addresses that did not turn out unroutable. */
  lemma PollShrinks(x: Target, ans: Answers, n: nat, t: nat)
    requires Distinct(x)
    ensures Distinct(NextTarget(x, ans, n, t))
    ensures forall s, a :: 0 <= s < |x.servers| && 0 <= a < |x.servers[s].addrs| ==>
              (x.servers[s].addrs[a] in Polled(NextTarget(x, ans, n, t)) <==> ans(n, t, s, a) != NoRoute)
    ensures Polled(NextTarget(x, ans, n, t)) <= Polled(x)
  {
    hide Assess, Retained;
    var y := NextTarget(x, ans, n, t);
    forall s | 0 <= s < |x.servers| {
      RetainedDistinct(x.servers[s].addrs, Unroutable(x.servers[s], ans, n, t, s));
    }
    forall s, a | 0 <= s < |x.servers| && 0 <= a < |x.servers[s].addrs|
      ensures x.servers[s].addrs[a] in Polled(y) <==> ans(n, t, s, a) != NoRoute
    {
      var ip := x.servers[s].addrs[a];
      assert ip in y.servers[s].addrs <==> ans(n, t, s, a) != NoRoute;
    }
  }

  ghost predicate NoRepeats(s: seq<Ip>) {
    forall i, j :: 0 <= i < j < |s| ==> s[i] != s[j]
  }

  lemma {:induction false} RetainedDistinct(addrs: seq<Ip>, gone: set<Ip>)
    requires NoRepeats(addrs)
    ensures NoRepeats(Retained(addrs, gone))
  {
    if addrs != [] {
      RetainedDistinct(addrs[1..], gone);
      var rest := Retained(addrs[1..], gone);
      assert addrs[0] !in addrs[1..];
      assert addrs[0] !in rest;
      assert Retained(addrs, gone) == if addrs[0] in gone then rest else [addrs[0]] + rest;
    }
  }

  /** An address once found unroutable is never polled again for that name, in any later pass. */
  lemma {:induction false} DroppedForever(ts: seq<Target>, ans: Answers, n: nat, m: nat, t: nat, s: nat, a: nat)
    requires t < |ts| && Distinct(ts[t]) && n < m
    requires var x := TargetsAt(ts, ans, n)[t];
             s < |x.servers| && a < |x.servers[s].addrs| && ans(n, t, s, a) == NoRoute
    ensures TargetsAt(ts, ans, n)[t].servers[s].addrs[a] !in Polled(TargetsAt(ts, ans, m)[t])
    decreases m
  {
    hide NextTarget, Polled, Distinct;
    StaysDistinct(ts, ans, m - 1, t);
    PollShrinks(TargetsAt(ts, ans, m - 1)[t], ans, m - 1, t);
    if n + 1 < m {
      DroppedForever(ts, ans, n, m - 1, t, s, a);
    }
  }

  lemma {:induction false} StaysDistinct(ts: seq<Target>, ans: Answers, n: nat, t: nat)
    requires t < |ts| && Distinct(ts[t])
    ensures Distinct(TargetsAt(ts, ans, n)[t])
  {
    hide NextTarget, Distinct;
    if n > 0 {
      StaysDistinct(ts, ans, n - 1, t);
      PollShrinks(TargetsAt(ts, ans, n - 1)[t], ans, n - 1, t);
    }
  }

  /** Conversely an address that is no longer polled was once found unroutable: nothing else is dropped. */
  lemma {:induction false} OnlyUnroutableDropped(ts: seq<Target>, ans: Answers, n: nat, t: nat, ip: Ip)
    requires t < |ts| && Distinct(ts[t])
    requires ip in Polled(ts[t]) && ip !in Polled(TargetsAt(ts, ans, n)[t])
    ensures exists m, s, a :: 0 <= m < n && 0 <= s < |TargetsAt(ts, ans, m)[t].servers|
              && 0 <= a < |TargetsAt(ts, ans, m)[t].servers[s].addrs|
              && TargetsAt(ts, ans, m)[t].servers[s].addrs[a] == ip && ans(m, t, s, a) == NoRoute
  {
    hide NextTarget, Distinct;
    var x := TargetsAt(ts, ans, n - 1)[t];
    if ip in Polled(x) {
      StaysDistinct(ts, ans, n - 1, t);
      PollShrinks(x, ans, n - 1, t);
      var s :| 0 <= s < |x.servers| && ip in x.servers[s].addrs;
      var a :| 0 <= a < |x.servers[s].addrs| && x.servers[s].addrs[a] == ip;
      assert ans(n - 1, t, s, a) == NoRoute;
    } else {
      OnlyUnroutableDropped(ts, ans, n - 1, t, ip);
    }
  }

  /** A name server is reported as skipped only once none of its addresses is left to poll. */
  lemma {:induction false} SkippedHasNoAddress(ts: seq<Target>, ans: Answers, n: nat, t: nat, s: nat)
    requires t < |ts| && s < |ts[t].servers| && !ts[t].servers[s].skipped
    ensures s < |TargetsAt(ts, ans, n)[t].servers|
    ensures TargetsAt(ts, ans, n)[t].servers[s].skipped ==> TargetsAt(ts, ans, n)[t].servers[s].addrs == []
  {
    hide Assess;
    if n > 0 {
      SkippedHasNoAddress(ts, ans, n - 1, t, s);
      var x := TargetsAt(ts, ans, n - 1)[t];
      var ns, gone := x.servers[s], Unroutable(x.servers[s], ans, n - 1, t, s);
      var probes := ProbesOf(ns, ans, n - 1, t, s);
      AssessMeaning(x.values, probes);
      if Assess(x.values, probes).Unreachable? {
        forall a | 0 <= a < |ns.addrs| ensures ns.addrs[a] in gone { assert probes[a] in probes; }
        assert forall ip :: ip in Retained(ns.addrs, gone) ==> ip in ns.addrs && ip !in gone;
        NothingRetained(ns.addrs, gone);
      }
    }
  }

  lemma {:induction false} NothingRetained(addrs: seq<Ip>, gone: set<Ip>)
    requires forall ip :: ip in addrs ==> ip in gone
    ensures Retained(addrs, gone) == []
  {
    if addrs != [] {
      NothingRetained(addrs[1..], gone);
    }
  }

  /** And exactly then, if it was located with addresses that differ. */
  lemma {:induction false} SkippedIffNoAddress(ts: seq<Target>, ans: Answers, n: nat, t: nat, s: nat)
    requires t < |ts| && s < |ts[t].servers|
    requires !ts[t].servers[s].skipped && ts[t].servers[s].addrs != [] && NoRepeats(ts[t].servers[s].addrs)
    ensures s < |TargetsAt(ts, ans, n)[t].servers|
    ensures var ns := TargetsAt(ts, ans, n)[t].servers[s];
            NoRepeats(ns.addrs) && (ns.skipped <==> ns.addrs == [])
  {
    hide NextNs;
    if n > 0 {
      SkippedIffNoAddress(ts, ans, n - 1, t, s);
      var x := TargetsAt(ts, ans, n - 1)[t];
      OneServerNext(x.values, x.servers[s], ans, n - 1, t, s);
    }
  }

  /** What one pass leaves of a server: no address exactly when none had a route, and then it is skipped. */
  lemma OneServerNext(values: set<string>, ns: NsTarget, ans: Answers, n: nat, t: nat, s: nat)
    requires NoRepeats(ns.addrs)
    ensures var next := NextNs(values, ns, ans, n, t, s);
            && NoRepeats(next.addrs)
            && (next.addrs == [] <==> forall a :: 0 <= a < |ns.addrs| ==> ans(n, t, s, a) == NoRoute)
            && (next.skipped <==> ns.skipped || forall a :: 0 <= a < |ns.addrs| ==> ans(n, t, s, a) == NoRoute)
  {
    hide Assess, Retained, Worst, Larger;
    var probes, gone := ProbesOf(ns, ans, n, t, s), Unroutable(ns, ans, n, t, s);
    AssessMeaning(values, probes);
    RetainedDistinct(ns.addrs, gone);
    assert forall a :: 0 <= a < |probes| ==> probes[a] == ans(n, t, s, a) && probes[a] in probes;
    if forall a :: 0 <= a < |ns.addrs| ==> ans(n, t, s, a) == NoRoute {
      forall ip | ip in ns.addrs ensures ip in gone { var a :| 0 <= a < |ns.addrs| && ns.addrs[a] == ip; }
      NothingRetained(ns.addrs, gone);
    } else {
      var a :| 0 <= a < |ns.addrs| && ans(n, t, s, a) != NoRoute;
      assert ns.addrs[a] in Retained(ns.addrs, gone);
    }
  }

  // ── Grouping the discovered servers ────────────────────────────────────────

  function FirstNames(pairs: seq<(string, Ip)>): (names: seq<string>)
    ensures forall p :: p in pairs ==> p.0 in names
  {
    if pairs == [] then []
    else
      var k := |pairs| - 1;
      var names := FirstNames(pairs[..k]);
      if pairs[k].0 in names then names else names + [pairs[k].0]
  }

  function AddrsNamed(pairs: seq<(string, Ip)>, name: string): seq<Ip> {
    if pairs == [] then []
    else
      var k := |pairs| - 1;
      AddrsNamed(pairs[..k], name) + if pairs[k].0 == name then [pairs[k].1] else []
  }

  /** One entry per server in the order of first mention, each with its addresses in order. */
  function Grouped(pairs: seq<(string, Ip)>): (out: seq<NsTarget>)
    ensures |out| == |FirstNames(pairs)|
  {
    var names := FirstNames(pairs);
    seq(|names|, k requires 0 <= k < |names| => NsTarget(names[k], AddrsNamed(pairs, names[k]), false))
  }

  ghost predicate Different(names: seq<string>) {
    forall i, j :: 0 <= i < j < |names| ==> names[i] != names[j]
  }

  lemma {:induction false} FirstNamesDiffer(pairs: seq<(string, Ip)>)
    ensures Different(FirstNames(pairs))
    ensures forall name :: name in FirstNames(pairs) ==> exists ip :: (name, ip) in pairs
  {
    if pairs != [] {
      var k := |pairs| - 1;
      FirstNamesDiffer(pairs[..k]);
      var names := FirstNames(pairs[..k]);
      assert forall i :: 0 <= i < |names| ==> names[i] in names;
      assert pairs[k] == (pairs[k].0, pairs[k].1) && pairs[k] in pairs;
    }
  }

  lemma OnePairMore(pairs: seq<(string, Ip)>, name: string, ip: Ip)
    ensures var more := pairs + [(name, ip)];
            && FirstNames(more) == FirstNames(pairs) + (if name in FirstNames(pairs) then [] else [name])
            && forall x :: AddrsNamed(more, x) ==
                           if x == name then AddrsNamed(pairs, x) + [ip] else AddrsNamed(pairs, x)
  {
    assert (pairs + [(name, ip)])[..|pairs|] == pairs;
  }

  lemma PairOfKnownServer(pairs: seq<(string, Ip)>, k: nat, ip: Ip)
    requires k < |FirstNames(pairs)|
    ensures var known := Grouped(pairs)[k];
            Grouped(pairs + [(known.name, ip)]) == Grouped(pairs)[k := known.(addrs := known.addrs + [ip])]
  {
    hide FirstNames, AddrsNamed;
    assert FirstNames(pairs)[k] in FirstNames(pairs);
    OnePairMore(pairs, FirstNames(pairs)[k], ip);
    FirstNamesDiffer(pairs);
  }

  lemma PairOfNewServer(pairs: seq<(string, Ip)>, name: string, ip: Ip)
    requires name !in FirstNames(pairs)
    ensures Grouped(pairs + [(name, ip)]) == Grouped(pairs) + [NsTarget(name, [ip], false)]
  {
    hide FirstNames, AddrsNamed;
    OnePairMore(pairs, name, ip);
    NoAddrsYet(pairs, name);
    assert [] + [ip] == [ip];
    assert forall i :: 0 <= i < |FirstNames(pairs)| ==> FirstNames(pairs)[i] in FirstNames(pairs);
  }

  method PositionOf(out: seq<NsTarget>, name: string) returns (k: nat)
    ensures k <= |out| && (k < |out| ==> out[k].name == name) && forall i :: 0 <= i < k ==> out[i].name != name
  {
    k := 0;
    while k < |out| && out[k].name != name
      invariant k <= |out| && forall i :: 0 <= i < k ==> out[i].name != name
    {
      k := k + 1;
    }
  }

  /** `group_by_ns`. */
  method GroupByNs(servers: seq<(string, Ip)>) returns (out: seq<NsTarget>)
    ensures out == Grouped(servers)
    ensures forall i, j :: 0 <= i < j < |out| ==> out[i].name != out[j].name
    ensures forall ns: string, ip: Ip :: (ns, ip) in servers
              <==> exists k :: 0 <= k < |out| && out[k].name == ns && ip in out[k].addrs
  {
    hide AddrsNamed, FirstNames;
    out := [];
    NoPairs();
    for n := 0 to |servers|
      invariant out == Grouped(servers[..n])
    {
      var (name, ip) := servers[n];
      assert servers[..n + 1] == servers[..n] + [(name, ip)];
      var k := PositionOf(out, name);
      if k < |out| {
        PairOfKnownServer(servers[..n], k, ip);
        out := out[k := out[k].(addrs := out[k].addrs + [ip])];
      } else {
        assert forall i :: 0 <= i < |out| ==> FirstNames(servers[..n])[i] == out[i].name;
        PairOfNewServer(servers[..n], name, ip);
        out := out + [NsTarget(name, [ip], false)];
      }
    }
    assert servers[..|servers|] == servers;
    FirstNamesDiffer(servers);
    forall ns: string, ip: Ip
      ensures (ns, ip) in servers <==> exists k :: 0 <= k < |out| && out[k].name == ns && ip in out[k].addrs
    {
      EachPairKept(servers, ns, ip);
    }
  }

  lemma NoPairs()
    ensures Grouped([]) == []
  {}

  /** Grouping loses no pair and invents none. */
  lemma EachPairKept(pairs: seq<(string, Ip)>, ns: string, ip: Ip)
    ensures var out := Grouped(pairs);
            (ns, ip) in pairs <==> exists k :: 0 <= k < |out| && out[k].name == ns && ip in out[k].addrs
  {
    hide FirstNames, AddrsNamed;
    var names, out := FirstNames(pairs), Grouped(pairs);
    AddrsAreExact(pairs, ns, ip);
    if (ns, ip) in pairs {
      assert (ns, ip).0 in names;
      var k :| 0 <= k < |names| && names[k] == ns;
      assert out[k].name == ns;
    }
  }

  lemma {:induction false} AddrsAreExact(pairs: seq<(string, Ip)>, ns: string, ip: Ip)
    ensures ip in AddrsNamed(pairs, ns) <==> (ns, ip) in pairs
  {
    if pairs != [] {
      var k := |pairs| - 1;
      AddrsAreExact(pairs[..k], ns, ip);
      assert pairs == pairs[..k] + [(pairs[k].0, pairs[k].1)];
    }
  }

  lemma {:induction false} NoAddrsYet(pairs: seq<(string, Ip)>, name: string)
    requires name !in FirstNames(pairs)
    ensures AddrsNamed(pairs, name) == []
  {
    if pairs != [] {
      NoAddrsYet(pairs[..|pairs| - 1], name);
      assert pairs[|pairs| - 1] in pairs;
    }
  }

  lemma {:induction false} AddrsComeFromPairs(pairs: seq<(string, Ip)>, name: string)
    requires forall i, j :: 0 <= i < j < |pairs| ==> pairs[i].1 != pairs[j].1
    ensures NoRepeats(AddrsNamed(pairs, name))
    ensures forall ip :: ip in AddrsNamed(pairs, name) ==> (name, ip) in pairs
  {
    if pairs != [] {
      var k := |pairs| - 1;
      AddrsComeFromPairs(pairs[..k], name);
      assert pairs[k] == (pairs[k].0, pairs[k].1);
      assert (name, pairs[k].1) !in pairs[..k];
    }
  }

  /** Addresses that are distinct over all servers stay distinct when grouped. */
  lemma GroupedIsDistinct(pairs: seq<(string, Ip)>, values: set<string>)
    requires forall i, j :: 0 <= i < j < |pairs| ==> pairs[i].1 != pairs[j].1
    ensures Distinct(Target(values, Grouped(pairs)))
  {
    hide AddrsNamed, FirstNames;
    FirstNamesDiffer(pairs);
    var servers := Grouped(pairs);
    forall s | 0 <= s < |servers| { AddrsComeFromPairs(pairs, servers[s].name); }
  }

  // ── From discovery to polling ──────────────────────────────────────────────

  /** How the names of a request are discovered: the network, the number of queries sent before
      each name, and the text forms of names. */
  datatype Discovery = Discovery(net: DnsWalk.Network, sent: string -> nat, parse: string -> Option<DnsWalk.Name>,
                                 text: DnsWalk.Name -> string) {
    /** `authoritative_servers`: nothing for a text that is no name. */
    function Servers(fqdn: string): Option<seq<(string, Ip)>> {
      if parse(fqdn).None? then None
      else
        var out := DnsWalk.Servers(net, sent(fqdn), parse(fqdn).value).0;
        Some(seq(|out|, i requires 0 <= i < |out| => (text(out[i].0), out[i].1)))
    }

    /** What is polled once every name has been located. */
    function Targets(expected: seq<(string, set<string>)>): seq<Target>
      requires Discovers(expected, fqdn => Servers(fqdn))
    {
      TargetsOf(expected, fqdn => Servers(fqdn))
    }
  }

  /** On every network, no address is listed twice for a name once polling starts. */
  lemma DiscoveredIsDistinct(expected: seq<(string, set<string>)>, walk: Discovery, t: nat)
    requires Discovers(expected, fqdn => walk.Servers(fqdn)) && t < |expected|
    ensures |walk.Targets(expected)| == |expected| && Distinct(walk.Targets(expected)[t])
  {
    hide Grouped, Distinct;
    var fqdn := expected[t].0;
    var pairs := walk.Servers(fqdn).value;
    DnsWalk.ServersDiffer(walk.net, walk.sent(fqdn), walk.parse(fqdn).value);
    GroupedIsDistinct(pairs, expected[t].1);
  }

  /** So in every pass after discovery on any network, the wait ends well exactly when for every name
      some address polled has a route and every server is settled, and for want of servers exactly when
      for some name no address polled has one. */
  lemma DiscoveredPass(expected: seq<(string, set<string>)>, walk: Discovery, ans: Answers, n: nat)
    requires Discovers(expected, fqdn => walk.Servers(fqdn))
    ensures var ts := TargetsAt(walk.Targets(expected), ans, n);
            && (PassVerdict(ts, ans, n) == AllReady <==>
                  forall t :: 0 <= t < |ts| ==>
                    && HasRoute(ts[t], ans, n, t)
                    && forall s :: 0 <= s < |ts[t].servers| ==> ServerSettled(ts[t], ans, n, t, s))
            && (PassVerdict(ts, ans, n) == NoServer <==> exists t :: 0 <= t < |ts| && !HasRoute(ts[t], ans, n, t))
  {
    hide Distinct, TargetsAt, PassVerdict, Reachable, HasRoute, ServerSettled;
    var ts := TargetsAt(walk.Targets(expected), ans, n);
    PassVerdictIsExact(ts, ans, n);
    forall t | 0 <= t < |ts| ensures Reachable(ts[t], ans, n, t) <==> HasRoute(ts[t], ans, n, t) {
      DiscoveredIsDistinct(expected, walk, t);
      StaysDistinct(walk.Targets(expected), ans, n, t);
      DistinctRoutes(ts[t], ans, n, t);
    }
  }

  ghost predicate HasRoute(x: Target, ans: Answers, n: nat, t: nat) {
    exists s: nat, a: nat :: PolledAt(x, s, a) && ans(n, t, s, a) != NoRoute
  }

  lemma DistinctRoutes(x: Target, ans: Answers, n: nat, t: nat)
    requires Distinct(x)
    ensures Reachable(x, ans, n, t) <==> HasRoute(x, ans, n, t)
  {
    forall s: nat, a: nat | PolledAt(x, s, a) ensures Gone(x, ans, n, t, s, a) <==> ans(n, t, s, a) == NoRoute {}
  }

  /** And an address found unroutable is not polled again for that
      name in any later pass. */
  lemma UnroutableStaysDropped(expected: seq<(string, set<string>)>, walk: Discovery, ans: Answers, n: nat, m: nat,
                               t: nat, s: nat, a: nat)
    requires Discovers(expected, fqdn => walk.Servers(fqdn)) && t < |expected| && n < m
    requires var x := TargetsAt(walk.Targets(expected), ans, n)[t];
             s < |x.servers| && a < |x.servers[s].addrs| && ans(n, t, s, a) == NoRoute
    ensures var ts := walk.Targets(expected);
            TargetsAt(ts, ans, n)[t].servers[s].addrs[a] !in Polled(TargetsAt(ts, ans, m)[t])
  {
    hide Distinct, Polled, TargetsAt;
    DiscoveredIsDistinct(expected, walk, t);
    DroppedForever(walk.Targets(expected), ans, n, m, t, s, a);
  }

  /** And an address discovered for a name and polled no longer was found unroutable in an earlier
      pass: no other address is ever given up. */
  lemma GivenUpWasUnroutable(expected: seq<(string, set<string>)>, walk: Discovery, ans: Answers, n: nat, t: nat,
                             name: string, ip: Ip)
    requires Discovers(expected, fqdn => walk.Servers(fqdn)) && t < |expected|
    requires (name, ip) in walk.Servers(expected[t].0).value
    requires ip !in Polled(TargetsAt(walk.Targets(expected), ans, n)[t])
    ensures exists m, s, a :: 0 <= m < n && var x := TargetsAt(walk.Targets(expected), ans, m)[t];
              && 0 <= s < |x.servers| && 0 <= a < |x.servers[s].addrs| && x.servers[s].addrs[a] == ip
              && ans(m, t, s, a) == NoRoute
  {
    hide Distinct, TargetsAt, Grouped;
    DiscoveredIsDistinct(expected, walk, t);
    var ts := walk.Targets(expected);
    EachPairKept(walk.Servers(expected[t].0).value, name, ip);
    assert ip in Polled(ts[t]);
    OnlyUnroutableDropped(ts, ans, n, t, ip);
  }
}
