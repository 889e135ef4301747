/** One dns-01 issuance: collect the challenges, publish them name by name, wait, notify, poll,
    clean up, finalize. What the network answers is fixed in advance and arbitrary. */
module Acme {
  import opened Text

  // ── What the other side says ───────────────────────────────────────────────

  datatype Challenge = Challenge(url: string, value: string)

  /** The reply to one authorization request; `dns01` is absent when none is offered. */
  datatype Authorization =
    | Unreadable
    | Authorization(identifier: string, valid: bool, dns01: Option<Challenge>)

  datatype Notice = Accepted | Refused | Broken

  datatype AuthSeen = Unreachable | Invalid | Other

  datatype Poll = NoAnswer | Seen(status: string, auths: seq<AuthSeen>)

  datatype Verdict = Ready | Again | Failed

  datatype Outcome =
    | Issued
    | NoOrder
    | NoAuthorization
    | NoChallenge
    | DeployFailed
    | NotifyBroken
    | NotifyRefused
    | NotReady
    | NoRequest
    | NotFinalized
    | NoCertificate

  /** What the run does to the outside, in order. A deploy says which values then stand, a removal
      which ones it could not remove. */
  datatype Event =
    | Order(names: seq<string>)
    | Deploy(domain: string, values: set<string>, ok: bool, stand: set<string>)
    | Wait
    | Notify(url: string, notice: Notice)
    | OrderReady
    | Clean(domain: string, kept: set<string>)
    | Finalize(names: seq<string>)

  // ── Challenges by name ─────────────────────────────────────────────────────

  predicate Pending(a: Authorization) {
    a.Authorization? && !a.valid && a.dns01.Some?
  }

  /** The values that must stand together at one name: section 8.4 of RFC 8555 wants a TXT record
      for each authorization, and two authorizations may share the name. */
  function Wanted(auths: seq<Authorization>, domain: string): set<string> {
    set a <- auths | Pending(a) && a.identifier == domain :: a.dns01.value.value
  }

  function Names(auths: seq<Authorization>): set<string> {
    set a <- auths | Pending(a) :: a.identifier
  }

  function Urls(auths: seq<Authorization>): seq<string> {
    if auths == [] then []
    else Urls(auths[..|auths| - 1]) + if Pending(auths[|auths| - 1]) then [auths[|auths| - 1].dns01.value.url] else []
  }

  /** The first authorization that stops the collection, if any. */
  predicate Stops(a: Authorization) {
    a.Unreadable? || (!a.valid && a.dns01.None?)
  }

  /** How the first authorization that stops the collection ends the run. */
  function FirstStop(auths: seq<Authorization>): (stop: Option<Outcome>)
    ensures stop.Some? ==> stop.value == NoAuthorization || stop.value == NoChallenge
  {
    if auths == [] then None
    else
      var a := auths[|auths| - 1];
      var earlier := FirstStop(auths[..|auths| - 1]);
      if earlier.Some? || !Stops(a) then earlier
      else if a.Unreadable? then Some(NoAuthorization)
      else Some(NoChallenge)
  }

  lemma {:induction false} FirstStopStays(auths: seq<Authorization>, k: nat)
    requires k <= |auths| && FirstStop(auths[..k]).Some?
    ensures FirstStop(auths) == FirstStop(auths[..k])
    decreases |auths|
  {
    if k < |auths| {
      assert auths[..|auths| - 1][..k] == auths[..k];
      FirstStopStays(auths[..|auths| - 1], k);
    } else {
      assert auths[..k] == auths;
    }
  }

  /** The first of `n` notifications that the CA did not accept; `Accepted` when there is none. */
  function FirstRefusal(notices: nat -> Notice, n: nat): Notice {
    if n == 0 then Accepted
    else
      var earlier := FirstRefusal(notices, n - 1);
      if earlier.Accepted? then notices(n - 1) else earlier
  }

  lemma {:induction false} FirstRefusalStays(notices: nat -> Notice, k: nat, n: nat)
    requires k <= n && !FirstRefusal(notices, k).Accepted?
    ensures FirstRefusal(notices, n) == FirstRefusal(notices, k)
    decreases n
  {
    if k < n {
      FirstRefusalStays(notices, k, n - 1);
    }
  }

  lemma {:induction false} UrlsHaveNames(auths: seq<Authorization>)
    ensures Urls(auths) != [] ==> Names(auths) != {}
  {
    if auths != [] {
      var a := auths[|auths| - 1];
      UrlsHaveNames(auths[..|auths| - 1]);
      assert auths == auths[..|auths| - 1] + [a];
      OneMore(auths[..|auths| - 1], a);
    }
  }

  lemma OneMore(auths: seq<Authorization>, a: Authorization)
    ensures Names(auths + [a]) == Names(auths) + if Pending(a) then {a.identifier} else {}
    ensures Urls(auths + [a]) == Urls(auths) + if Pending(a) then [a.dns01.value.url] else []
    ensures FirstStop(auths + [a]) ==
              if FirstStop(auths).Some? || !Stops(a) then FirstStop(auths)
              else Some(if a.Unreadable? then NoAuthorization else NoChallenge)
    ensures forall d :: Wanted(auths + [a], d) ==
                        Wanted(auths, d) + if Pending(a) && a.identifier == d then {a.dns01.value.value} else {}
  {
    assert (auths + [a])[..|auths|] == auths;
  }

  lemma OneMoreBase()
    ensures Names([]) == {} && Urls([]) == [] && FirstStop([]) == None
  {}

  lemma WantedByName(auths: seq<Authorization>, d: string)
    ensures d !in Names(auths) ==> Wanted(auths, d) == {}
  {}

  /** What is wanted, over the authorizations: a value at a name, and a URL, for each one that is not
      valid yet and offers dns-01. */
  lemma WantedIsExact(auths: seq<Authorization>, d: string, v: string, u: string)
    ensures v in Wanted(auths, d) <==> exists url :: Authorization(d, false, Some(Challenge(url, v))) in auths
    ensures d in Names(auths) <==> exists url, value :: Authorization(d, false, Some(Challenge(url, value))) in auths
    ensures u in Urls(auths) <==> exists name, value :: Authorization(name, false, Some(Challenge(u, value))) in auths
  {
    forall a | a in auths && Pending(a)
      ensures a == Authorization(a.identifier, false, Some(Challenge(a.dns01.value.url, a.dns01.value.value)))
    {}
    UrlsAreExact(auths, u);
  }

  lemma {:induction false} UrlsAreExact(auths: seq<Authorization>, u: string)
    ensures u in Urls(auths) <==> exists a :: a in auths && Pending(a) && a.dns01.value.url == u
  {
    if auths != [] {
      var last := |auths| - 1;
      UrlsAreExact(auths[..last], u);
      assert auths == auths[..last] + [auths[last]];
    }
  }

  /** The collection stops at the first authorization that is unreadable or, not being valid, offers
      no dns-01, and says which of the two it was. */
  lemma FirstStopIsFirst(auths: seq<Authorization>) returns (k: nat)
    ensures FirstStop(auths).None? <==> forall i :: 0 <= i < |auths| ==> Passes(auths[i])
    ensures FirstStop(auths).Some? ==>
              && k < |auths| && !Passes(auths[k]) && (forall i :: 0 <= i < k ==> Passes(auths[i]))
              && FirstStop(auths) == Some(if auths[k].Unreadable? then NoAuthorization else NoChallenge)
  {
    k := 0;
    if auths != [] {
      var last := |auths| - 1;
      k := FirstStopIsFirst(auths[..last]);
      if FirstStop(auths[..last]).None? {
        k := last;
      }
      assert forall i :: 0 <= i < last ==> auths[..last][i] == auths[i];
    }
  }

  predicate Passes(a: Authorization) {
    match a
    case Unreadable => false
    case Authorization(_, valid, dns01) => valid || dns01 != None
  }

  /** Where the providers put a challenge: the identifier as it came. */
  function DeployName(domain: string): string {
    "_acme-challenge." + domain
  }

  function StripWildcards(domain: string): string {
    if "*." <= domain then StripWildcards(domain[2..]) else domain
  }

  /** Where the propagation check looks, and the CA. */
  function LookupName(domain: string): string {
    "_acme-challenge." + StripWildcards(domain)
  }

  lemma {:induction false} StripShortens(domain: string)
    ensures |StripWildcards(domain)| <= |domain|
    ensures StripWildcards(domain) == domain <==> !("*." <= domain)
  {
    if "*." <= domain {
      StripShortens(domain[2..]);
    }
  }

  /** Both names agree exactly for identifiers without a `*.` prefix. */
  lemma NamesAgree(domain: string)
    ensures DeployName(domain) == LookupName(domain) <==> !("*." <= domain)
  {
    StripShortens(domain);
    assert DeployName(domain)[16..] == domain;
    assert LookupName(domain)[16..] == StripWildcards(domain);
  }

  lemma DeployNameInjective(a: string, b: string)
    requires DeployName(a) == DeployName(b)
    ensures a == b
  {
    assert DeployName(a)[16..] == a && DeployName(b)[16..] == b;
  }

  // ── Reading a trace ────────────────────────────────────────────────────────

  function Deployed(trace: seq<Event>): seq<string> {
    if trace == [] then []
    else
      var e := trace[|trace| - 1];
      Deployed(trace[..|trace| - 1]) + if e.Deploy? && e.ok then [e.domain] else []
  }

  function Cleaned(trace: seq<Event>): seq<string> {
    if trace == [] then []
    else
      var e := trace[|trace| - 1];
      Cleaned(trace[..|trace| - 1]) + if e.Clean? then [e.domain] else []
  }

  function Notified(trace: seq<Event>): seq<string> {
    if trace == [] then []
    else
      var e := trace[|trace| - 1];
      Notified(trace[..|trace| - 1]) + if e.Notify? && e.notice.Accepted? then [e.url] else []
  }

  /** The notifications sent, with what each returned. */
  function Told(trace: seq<Event>): seq<(string, Notice)> {
    if trace == [] then []
    else
      var e := trace[|trace| - 1];
      Told(trace[..|trace| - 1]) + if e.Notify? then [(e.url, e.notice)] else []
  }

  function Waits(trace: seq<Event>): nat {
    if trace == [] then 0 else Waits(trace[..|trace| - 1]) + if trace[|trace| - 1].Wait? then 1 else 0
  }

  function Phase(e: Event): nat {
    match e
    case Order(_) => 0
    case Deploy(_, _, _, _) => 1
    case Wait => 2
    case Notify(_, _) => 3
    case OrderReady => 4
    case Clean(_, _) => 5
    case Finalize(_) => 6
  }

  /** The phases of a run follow each other: none is gone back to, and none after phase `p` begun. */
  ghost predicate InPhases(trace: seq<Event>, p: nat) {
    && (forall i, k :: 0 <= i < k < |trace| ==> Phase(trace[i]) <= Phase(trace[k]))
    && (forall k :: 0 <= k < |trace| ==> Phase(trace[k]) <= p)
  }

  lemma PhasesFollow(names: seq<string>, domain: string, values: set<string>, ok: bool, url: string, notice: Notice)
    ensures Phase(Order(names)) < Phase(Deploy(domain, values, ok, values)) < Phase(Wait) < Phase(Notify(url, notice))
            < Phase(OrderReady) < Phase(Clean(domain, values)) < Phase(Finalize(names))
  {}

  lemma NextPhase(trace: seq<Event>, p: nat, e: Event)
    requires InPhases(trace, p) && p <= Phase(e)
    ensures InPhases(trace + [e], Phase(e))
  {}

  /** The names whose deploy failed. */
  function Undeployed(trace: seq<Event>): set<string> {
    set e <- trace | e.Deploy? && !e.ok :: e.domain
  }

  /** The TXT values at a name after a trace. */
  function RRset(before: string -> set<string>, trace: seq<Event>, name: string): set<string> {
    if trace == [] then before(name)
    else
      var e := trace[|trace| - 1];
      var earlier := RRset(before, trace[..|trace| - 1], name);
      if e.Deploy? && DeployName(e.domain) == name then e.stand
      else if e.Clean? && DeployName(e.domain) == name then earlier * e.kept
      else earlier
  }

  lemma After(before: string -> set<string>, trace: seq<Event>, e: Event)
    ensures (trace + [e])[..|trace|] == trace && (trace + [e])[|trace|] == e
    ensures Deployed(trace + [e]) == Deployed(trace) + if e.Deploy? && e.ok then [e.domain] else []
    ensures Cleaned(trace + [e]) == Cleaned(trace) + if e.Clean? then [e.domain] else []
    ensures Notified(trace + [e]) == Notified(trace) + if e.Notify? && e.notice.Accepted? then [e.url] else []
    ensures Undeployed(trace + [e]) == Undeployed(trace) + if e.Deploy? && !e.ok then {e.domain} else {}
    ensures Told(trace + [e]) == Told(trace) + if e.Notify? then [(e.url, e.notice)] else []
    ensures Waits(trace + [e]) == Waits(trace) + if e.Wait? then 1 else 0
    ensures forall name :: RRset(before, trace + [e], name) ==
              if e.Deploy? && DeployName(e.domain) == name then e.stand
              else if e.Clean? && DeployName(e.domain) == name then RRset(before, trace, name) * e.kept
              else RRset(before, trace, name)
  {
    hide *;
    assert (trace + [e])[..|trace|] == trace;
    AfterNames(trace, e);
    forall name { AfterAt(before, trace, e, name); }
  }

  lemma AfterNames(trace: seq<Event>, e: Event)
    ensures Deployed(trace + [e]) == Deployed(trace) + if e.Deploy? && e.ok then [e.domain] else []
    ensures Cleaned(trace + [e]) == Cleaned(trace) + if e.Clean? then [e.domain] else []
    ensures Notified(trace + [e]) == Notified(trace) + if e.Notify? && e.notice.Accepted? then [e.url] else []
    ensures Undeployed(trace + [e]) == Undeployed(trace) + if e.Deploy? && !e.ok then {e.domain} else {}
    ensures Told(trace + [e]) == Told(trace) + if e.Notify? then [(e.url, e.notice)] else []
    ensures Waits(trace + [e]) == Waits(trace) + if e.Wait? then 1 else 0
  {
    assert (trace + [e])[..|trace|] == trace;
  }

  lemma AfterAt(before: string -> set<string>, trace: seq<Event>, e: Event, name: string)
    ensures RRset(before, trace + [e], name) ==
              if e.Deploy? && DeployName(e.domain) == name then e.stand
              else if e.Clean? && DeployName(e.domain) == name then RRset(before, trace, name) * e.kept
              else RRset(before, trace, name)
  {
    hide DeployName;
    assert (trace + [e])[..|trace|] == trace;
  }

  /** Every name carries all of its values at once. */
  ghost predicate AllLive(before: string -> set<string>, auths: seq<Authorization>, trace: seq<Event>) {
    forall d :: RRset(before, trace, DeployName(d)) ==
                if d in Names(auths) then Wanted(auths, d) else before(DeployName(d))
  }

  lemma QuietKeepsLive(before: string -> set<string>, auths: seq<Authorization>, trace: seq<Event>, e: Event)
    requires AllLive(before, auths, trace) && !e.Deploy? && !e.Clean?
    ensures AllLive(before, auths, trace + [e])
  {
    hide Wanted, Names, Deployed, Cleaned, Notified, Told, Waits, Undeployed, RRset;
    After(before, trace, e);
  }

  /** Each name with the set it was given, the name whose deploy failed with what that left, and
      every other name as it was. */
  ghost predicate Placed(before: string -> set<string>, remains: string -> set<string>, auths: seq<Authorization>,
                         trace: seq<Event>) {
    forall d :: RRset(before, trace, DeployName(d)) ==
                if d in Deployed(trace) then Wanted(auths, d)
                else if d in Undeployed(trace) then remains(d)
                else before(DeployName(d))
  }

  lemma OneMorePlaced(before: string -> set<string>, remains: string -> set<string>, auths: seq<Authorization>,
                      trace: seq<Event>, e: Event)
    requires Placed(before, remains, auths, trace) && !e.Clean?
    requires e.Deploy? ==> e.domain !in Deployed(trace)
                           && e.stand == if e.ok then Wanted(auths, e.domain) else remains(e.domain)
    ensures Placed(before, remains, auths, trace + [e])
  {
    hide Wanted, Names, Deployed, Cleaned, Notified, Told, Waits, Undeployed, RRset, DeployName;
    After(before, trace, e);
    if e.Deploy? {
      forall d | DeployName(d) == DeployName(e.domain) ensures d == e.domain { DeployNameInjective(d, e.domain); }
    }
  }

  /** With every name deployed, what is placed is what should be live. */
  lemma PlacedIsLive(before: string -> set<string>, remains: string -> set<string>, auths: seq<Authorization>,
                     trace: seq<Event>)
    requires Undeployed(trace) == {} && forall d :: d in Deployed(trace) <==> d in Names(auths)
    ensures Placed(before, remains, auths, trace) <==> AllLive(before, auths, trace)
  {
    hide Wanted, Names, Deployed, Cleaned, Notified, Told, Waits, Undeployed, RRset, DeployName;
  }

  lemma {:induction false} DeployedBy(trace: seq<Event>, d: string)
    requires d in Deployed(trace)
    ensures exists k :: 0 <= k < |trace| && trace[k].Deploy? && trace[k].ok && trace[k].domain == d
  {
    var last := |trace| - 1;
    if !(trace[last].Deploy? && trace[last].ok && trace[last].domain == d) {
      DeployedBy(trace[..last], d);
    }
  }

  predicate Distinct(xs: seq<string>) {
    forall i, j :: 0 <= i < j < |xs| ==> xs[i] != xs[j]
  }

  /** What a CA that looks a challenge up finds: the value is there exactly when it is among the
      values wanted for the stripped name, or when nothing is and it stood there before. */
  lemma LookedUp(before: string -> set<string>, auths: seq<Authorization>, trace: seq<Event>, a: Authorization)
    requires AllLive(before, auths, trace) && a in auths && Pending(a)
    ensures a.dns01.value.value in RRset(before, trace, LookupName(a.identifier)) <==>
              a.dns01.value.value in
              if StripWildcards(a.identifier) in Names(auths) then Wanted(auths, StripWildcards(a.identifier))
              else before(LookupName(a.identifier))
    ensures !("*." <= a.identifier) ==> a.dns01.value.value in RRset(before, trace, LookupName(a.identifier))
  {
    assert LookupName(a.identifier) == DeployName(StripWildcards(a.identifier));
    StripShortens(a.identifier);
  }

  // ── Polling ────────────────────────────────────────────────────────────────

  predicate Settles(a: AuthSeen) {
    a.Unreachable? || a.Invalid?
  }

  function Judge(p: Poll): Verdict {
    if p.NoAnswer? then Failed
    else if p.status == "ready" then Ready
    else if p.status == "invalid" then Failed
    else if p.status == "pending" then (if exists a <- p.auths :: Settles(a) then Failed else Again)
    else Again
  }

  /** Polling succeeds at once on `ready`, goes on while the order is neither ready nor failed, and
      fails on a reply that does not come, on an invalid order, and on a pending one of which some
      authorization is invalid or cannot be read. */
  lemma JudgeIsExact(p: Poll)
    ensures Judge(p) == Ready <==> p.Seen? && p.status == "ready"
    ensures Judge(p) == Failed <==>
              || p.NoAnswer? || p.status == "invalid"
              || (p.status == "pending" && exists i :: 0 <= i < |p.auths| && p.auths[i] in {Unreachable, Invalid})
  {
    if p.Seen? {
      forall i | 0 <= i < |p.auths| ensures Settles(p.auths[i]) <==> p.auths[i] in {Unreachable, Invalid} {}
      if a :| a in p.auths && Settles(a) {
        var i :| 0 <= i < |p.auths| && p.auths[i] == a;
        assert p.auths[i] in {Unreachable, Invalid};
      }
      if i :| 0 <= i < |p.auths| && p.auths[i] in {Unreachable, Invalid} {
        assert p.auths[i] in p.auths && Settles(p.auths[i]);
      }
    }
  }

  const SLEEP_MS := 5000
  const READY_TIMEOUT_MS := 120000

  class Issuer {
    /** The replies, in order of asking; the TXT records that stood before the run, the ones a
        failing deploy leaves at its name, and the ones a removal there fails to remove. */
    const ordered: bool
    const deploys: string -> bool
    const kept: string -> set<string>
    const notices: nat -> Notice
    const polls: nat -> Poll
    /** Milliseconds from the start of polling to its i-th look at the clock. */
    const clock: nat -> nat
    const csr: bool
    const finalizes: bool
    const delivers: bool
    const before: string -> set<string>
    const remains: string -> set<string>

    var trace: seq<Event>

    constructor (ordered: bool, deploys: string -> bool, kept: string -> set<string>, notices: nat -> Notice,
                 polls: nat -> Poll, clock: nat -> nat, csr: bool, finalizes: bool, delivers: bool,
                 before: string -> set<string>, remains: string -> set<string>)
      ensures this.ordered == ordered && this.deploys == deploys && this.kept == kept
      ensures this.notices == notices && this.polls == polls && this.clock == clock && this.csr == csr
      ensures this.finalizes == finalizes && this.delivers == delivers && this.before == before
      ensures this.remains == remains && trace == []
    {
      this.ordered, this.deploys, this.kept, this.notices := ordered, deploys, kept, notices;
      this.polls, this.clock, this.csr := polls, clock, csr;
      this.finalizes, this.delivers, this.before := finalizes, delivers, before;
      this.remains, trace := remains, [];
    }

    ghost predicate ClockRuns() {
      clock(0) == 0 && forall i: nat :: clock(i + 1) >= clock(i) + SLEEP_MS
    }

    /** The names of the order: CN first, then the others as they are first mentioned, each once. */
    ghost predicate NamesOf(cn: string, sans: seq<string>, domains: seq<string>) {
      && |domains| > 0 && domains[0] == cn && Distinct(domains)
      && (forall d :: d in domains <==> d == cn || d in sans)
      && (forall i, j :: 1 <= i < j < |domains| ==> MentionedFirst(sans, domains[i], domains[j]))
    }

    ghost predicate MentionedFirst(sans: seq<string>, a: string, b: string) {
      exists p :: 0 <= p < |sans| && sans[p] == a && b !in sans[..p + 1]
    }

    method Identifiers(cn: string, sans: seq<string>) returns (domains: seq<string>)
      ensures NamesOf(cn, sans, domains)
    {
      domains := [cn];
      for i := 0 to |sans|
        invariant NamesOf(cn, sans[..i], domains)
      {
        assert sans[..i + 1] == sans[..i] + [sans[i]];
        ghost var was := domains;
        if sans[i] !in domains {
          domains := domains + [sans[i]];
        }
        forall k, j | 1 <= k < j < |domains| ensures MentionedFirst(sans[..i + 1], domains[k], domains[j]) {
          StillFirst(sans, i, was, k, domains[j]);
        }
      }
      assert sans[..|sans|] == sans;
    }

    lemma StillFirst(sans: seq<string>, i: nat, was: seq<string>, k: nat, b: string)
      requires i < |sans| && 1 <= k < |was| && was[k] in sans[..i]
      requires MentionedFirst(sans[..i], was[k], b) || (b == sans[i] && b !in sans[..i])
      ensures MentionedFirst(sans[..i + 1], was[k], b)
    {
      var p :| 0 <= p < i && sans[..i][p] == was[k] && b !in sans[..i][..p + 1];
      assert sans[..i + 1][p] == was[k] && sans[..i + 1][..p + 1] == sans[..i][..p + 1];
    }

    /** Collect every challenge under the name it lands on. */
    method Collect(auths: seq<Authorization>)
        returns (wanted: map<string, set<string>>, urls: seq<string>, stop: Option<Outcome>)
      ensures stop == FirstStop(auths)
      ensures stop.None? ==> urls == Urls(auths) && wanted.Keys == Names(auths)
                             && forall d :: d in wanted ==> wanted[d] == Wanted(auths, d)
    {
      hide Wanted, Names, Urls, FirstStop;
      wanted, urls := map[], [];
      OneMoreBase();
      for i := 0 to |auths|
        invariant FirstStop(auths[..i]) == None
        invariant urls == Urls(auths[..i]) && wanted.Keys == Names(auths[..i])
        invariant forall d :: d in wanted ==> wanted[d] == Wanted(auths[..i], d)
      {
        var a := auths[i];
        assert auths[..i + 1] == auths[..i] + [a];
        OneMore(auths[..i], a);
        if a.Unreadable? {
          FirstStopStays(auths, i + 1);
          return wanted, urls, Some(NoAuthorization);
        }
        if a.valid {
          continue;
        }
        if a.dns01.None? {
          FirstStopStays(auths, i + 1);
          return wanted, urls, Some(NoChallenge);
        }
        WantedByName(auths[..i], a.identifier);
        var values := if a.identifier in wanted then wanted[a.identifier] else {};
        wanted := wanted[a.identifier := values + {a.dns01.value.value}];
        urls := urls + [a.dns01.value.url];
      }
      assert auths[..|auths|] == auths;
      stop := None;
    }

    method Record(e: Event)
      modifies this`trace
      ensures trace == old(trace) + [e]
    {
      trace := trace + [e];
    }

    /** `cleanup`: one removal for each name, whatever becomes of it; no other name is touched. */
    method Cleanup(deployed: seq<string>)
      requires Distinct(deployed) && InPhases(trace, Phase(OrderReady))
      modifies this`trace
      ensures |trace| == |old(trace)| + |deployed| && trace[..|old(trace)|] == old(trace)
      ensures forall k :: |old(trace)| <= k < |trace| ==> trace[k].Clean?
      ensures Cleaned(trace) == Cleaned(old(trace)) + deployed
      ensures Deployed(trace) == Deployed(old(trace)) && Notified(trace) == Notified(old(trace))
      ensures Undeployed(trace) == Undeployed(old(trace)) && Told(trace) == Told(old(trace))
      ensures Waits(trace) == Waits(old(trace)) && InPhases(trace, Phase(Clean("", {})))
      ensures forall d :: RRset(before, trace, DeployName(d)) ==
                if d in deployed then RRset(before, old(trace), DeployName(d)) * kept(d)
                else RRset(before, old(trace), DeployName(d))
    {
      hide Deployed, Cleaned, Notified, Told, Waits, Undeployed, RRset, DeployName;
      for i := 0 to |deployed|
        invariant |trace| == |old(trace)| + i && trace[..|old(trace)|] == old(trace)
        invariant forall k :: |old(trace)| <= k < |trace| ==> trace[k].Clean?
        invariant Cleaned(trace) == Cleaned(old(trace)) + deployed[..i]
        invariant Deployed(trace) == Deployed(old(trace)) && Notified(trace) == Notified(old(trace))
        invariant Undeployed(trace) == Undeployed(old(trace)) && Told(trace) == Told(old(trace))
        invariant Waits(trace) == Waits(old(trace)) && InPhases(trace, Phase(Clean("", {})))
        invariant forall d :: RRset(before, trace, DeployName(d)) ==
                    if d in deployed[..i] then RRset(before, old(trace), DeployName(d)) * kept(d)
                    else RRset(before, old(trace), DeployName(d))
      {
        After(before, trace, Clean(deployed[i], kept(deployed[i])));
        NextPhase(trace, Phase(Clean("", {})), Clean(deployed[i], kept(deployed[i])));
        Record(Clean(deployed[i], kept(deployed[i])));
        assert deployed[..i + 1] == deployed[..i] + [deployed[i]];
        forall d | DeployName(d) == DeployName(deployed[i]) ensures d == deployed[i] {
          DeployNameInjective(d, deployed[i]);
        }
      }
      assert deployed[..|deployed|] == deployed;
    }

    /** A deploy sends the whole set of one wanted name. */
    ghost predicate Whole(auths: seq<Authorization>, e: Event) {
      e.Deploy? ==>
        && e.domain in Names(auths) && e.values == Wanted(auths, e.domain) && e.ok == deploys(e.domain)
        && e.stand == if e.ok then e.values else remains(e.domain)
    }

    /** Nothing is deployed after a deploy that failed. */
    ghost predicate FailsLast(run: seq<Event>) {
      forall i, k :: 0 <= i < k < |run| && run[i].Deploy? && !run[i].ok ==> !run[k].Deploy?
    }

    /** One deploy: the values of the name stand together, or whatever the failure left. */
    method DeployOne(auths: seq<Authorization>, domain: string, values: set<string>) returns (ok: bool)
      requires Placed(before, remains, auths, trace) && Undeployed(trace) == {}
      requires domain in Names(auths) && domain !in Deployed(trace) && values == Wanted(auths, domain)
      modifies this`trace
      ensures |trace| == |old(trace)| + 1 && old(trace) <= trace && ok == deploys(domain)
      ensures trace[|old(trace)|].Deploy? && trace[|old(trace)|].ok == ok && Whole(auths, trace[|old(trace)|])
      ensures Deployed(trace) == Deployed(old(trace)) + if ok then [domain] else []
      ensures Cleaned(trace) == Cleaned(old(trace)) && Notified(trace) == Notified(old(trace))
      ensures Told(trace) == Told(old(trace)) && Waits(trace) == Waits(old(trace))
      ensures Placed(before, remains, auths, trace) && Undeployed(trace) == if ok then {} else {domain}
    {
      hide Wanted, Names, Deployed, Cleaned, Notified, Told, Waits, Undeployed, RRset, Placed;
      ok := deploys(domain);
      var e := Deploy(domain, values, ok, if ok then values else remains(domain));
      After(before, trace, e);
      OneMorePlaced(before, remains, auths, trace, e);
      Record(e);
    }

    /** Publish every name's whole set; stop at the first failure. */
    method DeployAll(auths: seq<Authorization>, wanted: map<string, set<string>>)
      returns (deployed: seq<string>, ok: bool)
      requires Begun(trace) && wanted.Keys == Names(auths) && forall d :: d in wanted ==> wanted[d] == Wanted(auths, d)
      modifies this`trace
      ensures old(trace) <= trace
      ensures deployed == Deployed(trace) && Distinct(deployed) && Cleaned(trace) == [] && Notified(trace) == []
      ensures forall k :: 1 <= k < |trace| ==> trace[k].Deploy? && Whole(auths, trace[k])
      ensures Placed(before, remains, auths, trace) && WhichFailed(auths, !ok, trace)
      ensures Told(trace) == [] && Waits(trace) == 0 && FailsLast(trace)
      ensures ok ==> AllLive(before, auths, trace)
      ensures ok <==> forall d :: d in Names(auths) ==> deploys(d)
      ensures ok ==> forall d :: d in Names(auths) ==> d in deployed
    {
      hide Wanted, Names, Deployed, Cleaned, Notified, Told, Waits, Undeployed, RRset, DeployName, AllLive, Placed;
      hide Whole;
      NothingPlaced(auths);
      assert !trace[0].Deploy?;
      var left := wanted.Keys;
      deployed := [];
      while left != {}
        invariant left <= wanted.Keys && old(trace) <= trace
        invariant forall d :: d in deployed <==> d in wanted && d !in left
        invariant deployed == Deployed(trace) && Distinct(deployed) && Cleaned(trace) == [] && Notified(trace) == []
        invariant Undeployed(trace) == {} && Placed(before, remains, auths, trace)
        invariant Told(trace) == [] && Waits(trace) == 0
        invariant forall k :: 0 <= k < |trace| && trace[k].Deploy? ==> trace[k].ok
        invariant forall k :: 1 <= k < |trace| ==> trace[k].Deploy? && Whole(auths, trace[k])
        invariant forall d :: d in wanted && d !in left ==> deploys(d)
      {
        var domain :| domain in left;
        ok := DeployOne(auths, domain, wanted[domain]);
        if !ok {
          return;
        }
        deployed := deployed + [domain];
        left := left - {domain};
      }
      PlacedIsLive(before, remains, auths, trace);
      ok := true;
    }

    /** The CA may be told once the propagation wait is over, while every value stands. */
    ghost predicate MayTell(auths: seq<Authorization>, sofar: seq<Event>) {
      Wait in sofar && AllLive(before, auths, sofar)
    }

    /** One notification for each challenge in turn, until one is not accepted. */
    ghost predicate ToldInTurn(urls: seq<string>, told: seq<(string, Notice)>) {
      && |told| <= |urls| && (forall i :: 0 <= i < |told| ==> told[i] == (urls[i], notices(i)))
      && (forall i :: 0 <= i < |told| - 1 ==> told[i].1.Accepted?)
      && (|told| < |urls| ==> told != [] && !told[|told| - 1].1.Accepted?)
    }

    /** Tell the CA, challenge by challenge. */
    method NotifyAll(auths: seq<Authorization>, urls: seq<string>) returns (notice: Notice)
      requires AllLive(before, auths, trace) && Wait in trace && Told(trace) == []
      modifies this`trace
      ensures old(trace) <= trace && forall k :: |old(trace)| <= k < |trace| ==>
                trace[k].Notify? && MayTell(auths, trace[..k])
      ensures AllLive(before, auths, trace)
      ensures Cleaned(trace) == Cleaned(old(trace)) && Deployed(trace) == Deployed(old(trace))
      ensures Undeployed(trace) == Undeployed(old(trace)) && Waits(trace) == Waits(old(trace))
      ensures ToldInTurn(urls, Told(trace))
      ensures notice.Accepted? ==> Notified(trace) == Notified(old(trace)) + urls
      ensures notice == FirstRefusal(notices, |urls|)
    {
      hide Wanted, Names, Deployed, Cleaned, Notified, Told, Waits, Undeployed, RRset, AllLive;
      for i := 0 to |urls|
        invariant old(trace) <= trace && forall k :: |old(trace)| <= k < |trace| ==>
          trace[k].Notify? && MayTell(auths, trace[..k])
        invariant AllLive(before, auths, trace)
        invariant Cleaned(trace) == Cleaned(old(trace)) && Deployed(trace) == Deployed(old(trace))
        invariant Undeployed(trace) == Undeployed(old(trace)) && Waits(trace) == Waits(old(trace))
        invariant |Told(trace)| == i && forall k :: 0 <= k < i ==>
          Told(trace)[k] == (urls[k], notices(k)) && notices(k).Accepted?
        invariant Notified(trace) == Notified(old(trace)) + urls[..i]
        invariant FirstRefusal(notices, i).Accepted?
      {
        var e := Notify(urls[i], notices(i));
        After(before, trace, e);
        QuietKeepsLive(before, auths, trace, e);
        ghost var was := trace;
        Record(e);
        assert forall k :: 0 <= k <= |was| ==> trace[..k] == was[..k];
        assert was[..|was|] == was;
        assert urls[..i + 1] == urls[..i] + [urls[i]];
        if !notices(i).Accepted? {
          FirstRefusalStays(notices, i + 1, |urls|);
          return notices(i);
        }
      }
      assert urls[..|urls|] == urls;
      notice := Accepted;
    }

    /** `poll_order_ready`: ready exactly when some poll in time says so and every earlier one says
        to go on; it ends within 25 polls whatever the CA answers. */
    method PollOrderReady() returns (ready: bool, asked: nat)
      requires ClockRuns()
      ensures asked <= 25
      ensures forall i :: 0 <= i < asked - 1 ==> Judge(polls(i)).Again?
      ensures ready <==> SeenReady()
      ensures if ready then asked > 0 && Judge(polls(asked - 1)).Ready?
              else clock(asked) > READY_TIMEOUT_MS || (asked > 0 && Judge(polls(asked - 1)).Failed?)
    {
      asked := 0;
      while true
        invariant forall i: nat :: i < asked ==> Judge(polls(i)).Again? && clock(i) <= READY_TIMEOUT_MS
        invariant asked * SLEEP_MS <= clock(asked)
        invariant asked <= READY_TIMEOUT_MS / SLEEP_MS + 1
        decreases READY_TIMEOUT_MS / SLEEP_MS + 1 - asked
      {
        if clock(asked) > READY_TIMEOUT_MS {
          LaterStill(asked);
          return false, asked;
        }
        var p := polls(asked);
        if p.NoAnswer? {
          return false, asked + 1;
        }
        if p.status == "ready" {
          return true, asked + 1;
        }
        if p.status == "invalid" || p.status == "pending" {
          for i := 0 to |p.auths|
            invariant forall k :: 0 <= k < i ==> !Settles(p.auths[k])
          {
            if Settles(p.auths[i]) {
              assert p.auths[i] in p.auths;
              return false, asked + 1;
            }
          }
          if p.status == "invalid" {
            return false, asked + 1;
          }
        }
        asked := asked + 1;
      }
    }

    /** Why publishing and notifying fail, if they do. */
    ghost function PublishFailure(auths: seq<Authorization>): Option<Outcome> {
      if exists d :: d in Names(auths) && !deploys(d) then Some(DeployFailed)
      else
        match FirstRefusal(notices, |Urls(auths)|)
        case Broken => Some(NotifyBroken)
        case Refused => Some(NotifyRefused)
        case Accepted => None
    }

    ghost function AuthorizeFailure(auths: seq<Authorization>): Option<Outcome> {
      if PublishFailure(auths).Some? then PublishFailure(auths)
      else if !SeenReady() then Some(NotReady)
      else None
    }

    /** How a run ends, from the replies alone. */
    ghost function OutcomeOf(auths: seq<Authorization>): Outcome {
      if !ordered then NoOrder
      else if FirstStop(auths).Some? then FirstStop(auths).value
      else if AuthorizeFailure(auths).Some? then AuthorizeFailure(auths).value
      else if !csr then NoRequest
      else if !finalizes then NotFinalized
      else if !delivers then NoCertificate
      else Issued
    }

    predicate PastDeploys(outcome: Outcome) {
      !outcome.NoOrder? && !outcome.NoAuthorization? && !outcome.NoChallenge? && !outcome.DeployFailed?
    }

    /** The order has been asked for and nothing else done. */
    ghost predicate Begun(run: seq<Event>) {
      |run| == 1 && run[0].Order?
    }

    lemma NothingPlaced(auths: seq<Authorization>)
      requires Begun(trace)
      ensures Deployed(trace) == [] && Cleaned(trace) == [] && Notified(trace) == [] && Undeployed(trace) == {}
      ensures Told(trace) == [] && Waits(trace) == 0
      ensures Placed(before, remains, auths, trace)
    {
      assert trace[..0] == [];
    }

    /** At most one deploy has failed, and one has exactly when the run is `stopped` by it. */
    ghost predicate WhichFailed(auths: seq<Authorization>, stopped: bool, run: seq<Event>) {
      if stopped then exists d :: d in Names(auths) && !deploys(d) && Undeployed(run) == {d}
      else Undeployed(run) == {}
    }

    /** What stands when the run is over: at a published name the values that could not be removed
        (all of them when nothing was cleaned), at the name whose deploy failed whatever that left,
        since it is not cleaned, and elsewhere what stood before. */
    ghost predicate LeftAsSaid(auths: seq<Authorization>, cleaned: bool, run: seq<Event>) {
      forall d :: RRset(before, run, DeployName(d)) ==
                  if d in Deployed(run) then (if cleaned then Wanted(auths, d) * kept(d) else Wanted(auths, d))
                  else if d in Undeployed(run) then remains(d)
                  else before(DeployName(d))
    }

    /** The wait and the notifications there have been. */
    ghost predicate Heard(auths: seq<Authorization>, deployed: bool, run: seq<Event>) {
      if deployed then Waits(run) == (if Urls(auths) != [] then 1 else 0) && ToldInTurn(Urls(auths), Told(run))
      else Waits(run) == 0 && Told(run) == []
    }

    /** What holds of the trace of every run, however it ends. */
    ghost predicate Proper(auths: seq<Authorization>, outcome: Outcome, run: seq<Event>) {
      // the order comes first, and once
      && |run| > 0 && run[0].Order? && (forall k :: 1 <= k < |run| ==> !run[k].Order?)
      // each name is published once, with all of its values
      && Distinct(Deployed(run))
      && (forall k :: 1 <= k < |run| ==> Whole(auths, run[k]))
      && (PastDeploys(outcome) ==> forall d :: d in Names(auths) ==> d in Deployed(run))
      // after a failed deploy nothing more is published, and the phases of the run never go back
      && FailsLast(run) && InPhases(run, Phase(Finalize([])))
      // there is one propagation wait if there is something to tell, and the CA is told in turn
      && Heard(auths, PastDeploys(outcome), run)
      // that is after the wait and only while every value stands
      && (forall k :: 0 <= k < |run| && run[k].Notify? ==> MayTell(auths, run[..k]))
      // each published name is cleaned once, unless telling the CA broke down
      && Cleaned(run) == (if outcome.NotifyBroken? then [] else Deployed(run))
      && WhichFailed(auths, outcome.DeployFailed?, run)
      && LeftAsSaid(auths, !outcome.NotifyBroken?, run)
      // the order is finalized only after it was seen ready, with every challenge told and every name
      // cleaned, and the request names what the order named
      && (forall k :: 0 <= k < |run| && run[k].Finalize? ==>
            OrderReady in run[..k] && Notified(run[..k]) == Urls(auths)
                && Cleaned(run[..k]) == Deployed(run[..k]) && run[k].names == run[0].names)
      && (OrderReady in run ==> SeenReady())
      && (outcome.Issued? ==> Finalize(run[0].names) in run)
    }

    ghost predicate SeenReady() {
      exists n: nat :: clock(n) <= 120_000 && Judge(polls(n)).Ready?
                       && forall i: nat :: i < n ==> Judge(polls(i)).Again?
    }

    /** A trace before anything is removed: names published whole, the CA told only while every
        value stands. */
    ghost predicate Published(auths: seq<Authorization>, deployed: seq<string>, run: seq<Event>) {
      && |run| > 0 && run[0].Order?
      && deployed == Deployed(run) && Distinct(deployed) && Cleaned(run) == []
      && (forall k :: 1 <= k < |run| ==> Early(auths, run[k]))
      && (forall k :: 0 <= k < |run| && run[k].Notify? ==> MayTell(auths, run[..k]))
      && FailsLast(run) && InPhases(run, Phase(Notify("", Accepted)))
      && Placed(before, remains, auths, run)
    }

    ghost predicate Early(auths: seq<Authorization>, e: Event) {
      (e.Deploy? || e.Wait? || e.Notify?) && Whole(auths, e)
    }

    /** The propagation wait, then the notifications. */
    method WaitAndTell(auths: seq<Authorization>, urls: seq<string>) returns (notice: Notice)
      requires AllLive(before, auths, trace) && Told(trace) == [] && Waits(trace) == 0
      requires InPhases(trace, Phase(Deploy("", {}, true, {})))
      modifies this`trace
      ensures old(trace) + [Wait] <= trace && forall k :: |old(trace)| < k < |trace| ==>
                trace[k].Notify? && MayTell(auths, trace[..k])
      ensures forall k :: |old(trace)| <= k < |trace| ==> Early(auths, trace[k])
      ensures AllLive(before, auths, trace) && InPhases(trace, Phase(Notify("", Accepted)))
      ensures Cleaned(trace) == Cleaned(old(trace)) && Deployed(trace) == Deployed(old(trace))
      ensures Undeployed(trace) == Undeployed(old(trace)) && Waits(trace) == 1
      ensures ToldInTurn(urls, Told(trace))
      ensures notice.Accepted? ==> Notified(trace) == Notified(old(trace)) + urls
      ensures notice == FirstRefusal(notices, |urls|)
    {
      hide Wanted, Names, Deployed, Cleaned, Notified, Told, Waits, Undeployed, RRset, AllLive, MayTell, ToldInTurn;
      After(before, trace, Wait);
      QuietKeepsLive(before, auths, trace, Wait);
      Record(Wait);
      notice := NotifyAll(auths, urls);
    }

    method Publish(auths: seq<Authorization>, wanted: map<string, set<string>>, urls: seq<string>)
      returns (deployed: seq<string>, failed: Option<Outcome>)
      requires Begun(trace) && urls == Urls(auths) && wanted.Keys == Names(auths)
      requires forall d :: d in wanted ==> wanted[d] == Wanted(auths, d)
      modifies this`trace
      ensures old(trace) <= trace && Published(auths, deployed, trace)
      ensures WhichFailed(auths, failed == Some(DeployFailed), trace)
      ensures Heard(auths, failed != Some(DeployFailed), trace)
      ensures failed == PublishFailure(auths)
      ensures failed.None? ==> Notified(trace) == Urls(auths)
      ensures failed != Some(DeployFailed) ==> forall d :: d in Names(auths) ==> d in deployed
      ensures failed == Some(NotifyBroken) ==> AllLive(before, auths, trace)
    {
      hide Wanted, Names, Urls, Deployed, Cleaned, Notified, Told, Waits, Undeployed, RRset, AllLive, Distinct, Placed;
      hide MayTell, Whole;
      var ok;
      deployed, ok := DeployAll(auths, wanted);
      if !ok {
        return deployed, Some(DeployFailed);
      }
      if urls == [] {
        assert Notified(trace) == urls;
        return deployed, None;
      }
      DeployedAreNames(auths);
      var notice := WaitAndTell(auths, urls);
      failed := if notice.Broken? then Some(NotifyBroken) else if notice.Refused? then Some(NotifyRefused) else None;
      PlacedIsLive(before, remains, auths, trace);
    }

    lemma DeployedAreNames(auths: seq<Authorization>)
      requires |trace| > 0 && trace[0].Order? && forall k :: 1 <= k < |trace| ==> Whole(auths, trace[k])
      ensures forall d :: d in Deployed(trace) ==> d in Names(auths)
    {
      hide Names, Wanted, Deployed;
      forall d | d in Deployed(trace) ensures d in Names(auths) {
        DeployedBy(trace, d);
      }
    }

    /** After the removals. */
    lemma CleanedIsProper(auths: seq<Authorization>, deployed: seq<string>, told: seq<Event>, outcome: Outcome)
      requires told <= trace && forall k :: |told| <= k < |trace| ==> trace[k].Clean? || trace[k].OrderReady?
      requires |told| > 0 && told[0].Order? && forall k :: 1 <= k < |told| ==> Early(auths, told[k])
      requires forall k :: 0 <= k < |told| && told[k].Notify? ==> MayTell(auths, told[..k])
      requires Deployed(trace) == deployed && Distinct(deployed) && Cleaned(trace) == deployed
      requires WhichFailed(auths, outcome.DeployFailed?, trace) && LeftAsSaid(auths, !outcome.NotifyBroken?, trace)
      requires Heard(auths, PastDeploys(outcome), trace) && FailsLast(trace) && InPhases(trace, Phase(Finalize([])))
      requires OrderReady in trace ==> SeenReady()
      requires PastDeploys(outcome) ==> forall d :: d in Names(auths) ==> d in deployed
      requires !outcome.NotifyBroken? && !outcome.Issued?
      ensures Proper(auths, outcome, trace)
    {
      hide Wanted, Names, Urls, Deployed, Cleaned, Notified, Told, Waits, Undeployed, RRset, AllLive, Distinct;
      hide DeployName;
      hide SeenReady, LeftAsSaid, WhichFailed;
      assert forall k :: 0 <= k <= |told| ==> trace[..k] == told[..k];
      forall k | 0 <= k < |trace| && (trace[k].Deploy? || trace[k].Notify? || trace[k].Finalize?)
        ensures 1 <= k < |told| && trace[k] == told[k]
      {}
    }

    /** Publish, wait, notify and poll; whatever was published is cleaned unless `NotifyBroken`. */
    method Authorize(auths: seq<Authorization>, wanted: map<string, set<string>>, urls: seq<string>)
        returns (failed: Option<Outcome>)
      requires Begun(trace) && ClockRuns() && urls == Urls(auths) && wanted.Keys == Names(auths)
      requires forall d :: d in wanted ==> wanted[d] == Wanted(auths, d)
      modifies this`trace
      ensures old(trace) <= trace && forall k :: 0 <= k < |trace| ==> !trace[k].Finalize?
      ensures Proper(auths, if failed.Some? then failed.value else NoRequest, trace)
      ensures failed == AuthorizeFailure(auths)
      ensures failed.None? ==> OrderReady in trace && Notified(trace) == Urls(auths)
    {
      hide Wanted, Names, Urls, Deployed, Cleaned, Notified, Told, Waits, Undeployed, RRset, AllLive, Distinct;
      hide DeployName, Judge, Placed, MayTell, ToldInTurn, Whole, FailsLast, LeftAsSaid, SeenReady;
      hide WhichFailed, Heard;
      var deployed;
      deployed, failed := Publish(auths, wanted, urls);
      ghost var told := trace;
      if failed == Some(NotifyBroken) {
        PlacedIsLeft(auths);
        return;
      }
      if failed.None? {
        var ready := SeeReady(auths);
        failed := if ready then None else Some(NotReady);
      }
      assert failed.None? ==> trace[|told|] == OrderReady;
      Withdraw(auths, deployed, told, if failed.Some? then failed.value else NoRequest);
    }

    /** Poll, and note whether the order was seen ready. */
    method SeeReady(auths: seq<Authorization>) returns (ready: bool)
      requires ClockRuns() && Placed(before, remains, auths, trace) && FailsLast(trace)
      requires InPhases(trace, Phase(Notify("", Accepted)))
      modifies this`trace
      ensures ready == SeenReady() && trace == old(trace) + if ready then [OrderReady] else []
      ensures Placed(before, remains, auths, trace) && FailsLast(trace) && InPhases(trace, Phase(OrderReady))
      ensures Deployed(trace) == Deployed(old(trace)) && Undeployed(trace) == Undeployed(old(trace))
      ensures Cleaned(trace) == Cleaned(old(trace)) && Notified(trace) == Notified(old(trace))
      ensures forall stopped :: WhichFailed(auths, stopped, trace) <==> WhichFailed(auths, stopped, old(trace))
      ensures forall deployed :: Heard(auths, deployed, trace) <==> Heard(auths, deployed, old(trace))
    {
      hide Wanted, Names, Deployed, Cleaned, Notified, Told, Waits, Undeployed, RRset, Placed, SeenReady, Judge;
      hide WhichFailed, Heard, LeftAsSaid, FailsLast;
      var asked;
      ready, asked := PollOrderReady();
      if ready {
        QuietStep(auths, trace, OrderReady);
        OneMorePlaced(before, remains, auths, trace, OrderReady);
        NextPhase(trace, Phase(Notify("", Accepted)), OrderReady);
        Record(OrderReady);
      }
    }

    /** The removals that end an authorization. */
    method Withdraw(auths: seq<Authorization>, deployed: seq<string>, ghost told: seq<Event>, ghost outcome: Outcome)
      requires told <= trace && forall k :: |told| <= k < |trace| ==> trace[k].OrderReady?
      requires |told| > 0 && told[0].Order? && forall k :: 1 <= k < |told| ==> Early(auths, told[k])
      requires forall k :: 0 <= k < |told| && told[k].Notify? ==> MayTell(auths, told[..k])
      requires Deployed(trace) == deployed && Distinct(deployed) && Cleaned(trace) == []
      requires WhichFailed(auths, outcome.DeployFailed?, trace) && Placed(before, remains, auths, trace)
      requires Heard(auths, PastDeploys(outcome), trace) && FailsLast(trace) && InPhases(trace, Phase(OrderReady))
      requires OrderReady in trace ==> SeenReady()
      requires PastDeploys(outcome) ==> forall d :: d in Names(auths) ==> d in deployed
      requires !outcome.NotifyBroken? && !outcome.Issued?
      modifies this`trace
      ensures old(trace) <= trace && Proper(auths, outcome, trace) && Notified(trace) == Notified(old(trace))
      ensures forall k :: |old(trace)| <= k < |trace| ==> trace[k].Clean?
    {
      hide Wanted, Names, Urls, Deployed, Cleaned, Notified, Told, Waits, Undeployed, RRset, AllLive, Distinct;
      hide DeployName, Placed;
      hide LeftAsSaid, Proper, SeenReady, PastDeploys, Early;
      ghost var polled := trace;
      Cleanup(deployed);
      assert trace[..|polled|] == polled;
      CleanedIsLeft(auths, polled);
      CleanedIsProper(auths, deployed, told, outcome);
    }

    lemma PlacedIsLeft(auths: seq<Authorization>)
      requires Placed(before, remains, auths, trace)
      ensures LeftAsSaid(auths, false, trace)
    {
      hide RRset, DeployName, Deployed, Undeployed, Wanted;
    }

    lemma CleanedIsLeft(auths: seq<Authorization>, polled: seq<Event>)
      requires Placed(before, remains, auths, polled)
      requires Deployed(trace) == Deployed(polled) && Undeployed(trace) == Undeployed(polled)
      requires forall d :: RRset(before, trace, DeployName(d)) ==
                 if d in Deployed(polled) then RRset(before, polled, DeployName(d)) * kept(d)
                 else RRset(before, polled, DeployName(d))
      ensures LeftAsSaid(auths, true, trace)
    {
      hide RRset, DeployName, Deployed, Undeployed, Wanted;
    }

    /** An event that neither publishes, waits, tells nor removes changes nothing of this. */
    lemma QuietStep(auths: seq<Authorization>, run: seq<Event>, e: Event)
      requires e.OrderReady? || e.Finalize?
      ensures Deployed(run + [e]) == Deployed(run) && Undeployed(run + [e]) == Undeployed(run)
      ensures Cleaned(run + [e]) == Cleaned(run) && Notified(run + [e]) == Notified(run)
      ensures forall stopped :: WhichFailed(auths, stopped, run + [e]) <==> WhichFailed(auths, stopped, run)
      ensures forall deployed :: Heard(auths, deployed, run + [e]) <==> Heard(auths, deployed, run)
      ensures forall cleaned :: LeftAsSaid(auths, cleaned, run + [e]) <==> LeftAsSaid(auths, cleaned, run)
      ensures FailsLast(run) ==> FailsLast(run + [e])
    {
      hide Wanted, Names, Urls, Deployed, Cleaned, Notified, Told, Waits, Undeployed, RRset, DeployName, ToldInTurn;
      After(before, run, e);
      assert Told(run + [e]) == Told(run);
    }

    /** Send the request for the certificate, once everything else is done. */
    method Finish(auths: seq<Authorization>, domains: seq<string>) returns (outcome: Outcome)
      requires Proper(auths, NoRequest, trace) && OrderReady in trace && Notified(trace) == Urls(auths)
      requires trace[0] == Order(domains) && forall k :: 0 <= k < |trace| ==> !trace[k].Finalize?
      modifies this`trace
      ensures old(trace) <= trace
      ensures Proper(auths, outcome, trace) && Cleaned(trace) == Deployed(trace)
      ensures outcome == if !csr then NoRequest else if !finalizes then NotFinalized
                         else if !delivers then NoCertificate else Issued
    {
      hide Wanted, Names, Urls, Deployed, Cleaned, Notified, Told, Waits, Undeployed, RRset, AllLive, SeenReady;
      hide DeployName, MayTell, ToldInTurn, Distinct, Placed, LeftAsSaid, FailsLast, Heard, WhichFailed;
      if !csr {
        return NoRequest;
      }
      ghost var was := trace;
      QuietStep(auths, trace, Finalize(domains));
      NextPhase(trace, Phase(Finalize([])), Finalize(domains));
      Record(Finalize(domains));
      assert forall k :: 0 <= k <= |was| ==> trace[..k] == was[..k];
      assert was[..|was|] == was && trace[|was|] == Finalize(domains);
      outcome := if !finalizes then NotFinalized else if !delivers then NoCertificate else Issued;
    }

    /** `issue_certificate`. How it ends is fixed by the replies; the removals are skipped exactly
        when a notification broke in transport. */
    method IssueCertificate(cn: string, sans: seq<string>, auths: seq<Authorization>) returns (outcome: Outcome)
      requires trace == [] && ClockRuns()
      modifies this`trace
      ensures Proper(auths, outcome, trace) && outcome == OutcomeOf(auths)
      ensures NamesOf(cn, sans, trace[0].names)
      ensures if outcome.NotifyBroken? then Deployed(trace) != [] && Cleaned(trace) == []
              else Cleaned(trace) == Deployed(trace)
    {
      hide Wanted, Names, Urls, Deployed, Cleaned, Notified, Told, Waits, Undeployed, RRset, AllLive, FirstStop;
      hide PublishFailure, SeenReady, Proper;
      BrokenMeansPublished(auths);
      var domains := Identifiers(cn, sans);
      Record(Order(domains));
      NothingDone(auths);
      if !ordered {
        return NoOrder;
      }
      var wanted, urls, stop := Collect(auths);
      if stop.Some? {
        return stop.value;
      }
      var failed := Authorize(auths, wanted, urls);
      if failed.Some? {
        BrokenLeavesRecords(auths, failed.value);
        return failed.value;
      }
      outcome := Finish(auths, domains);
    }

    /** What stands when a notification broke: something was published, and nothing was removed. */
    lemma BrokenLeavesRecords(auths: seq<Authorization>, outcome: Outcome)
      requires Proper(auths, outcome, trace) && (outcome.NotifyBroken? ==> Names(auths) != {})
      ensures if outcome.NotifyBroken? then Deployed(trace) != [] && Cleaned(trace) == []
              else Cleaned(trace) == Deployed(trace)
    {
      hide Wanted, Names, Urls, Deployed, Cleaned, Notified, Told, Waits, Undeployed, RRset, AllLive, SeenReady;
      hide Whole, FailsLast, InPhases, Heard, MayTell, WhichFailed, LeftAsSaid;
      if outcome.NotifyBroken? {
        var d :| d in Names(auths);
        assert d in Deployed(trace);
      }
    }

    /** While nothing but the order has been sent. */
    lemma NothingDone(auths: seq<Authorization>)
      requires Begun(trace)
      ensures Proper(auths, NoOrder, trace)
      ensures Proper(auths, NoAuthorization, trace) && Proper(auths, NoChallenge, trace)
      ensures Deployed(trace) == [] && Cleaned(trace) == []
    {
      hide Wanted, Names, Urls, Deployed, Cleaned, Notified, Told, Waits, Undeployed, RRset, DeployName;
      NothingPlaced(auths);
    }

    /** A notification can only break once there are names to publish. */
    lemma BrokenMeansPublished(auths: seq<Authorization>)
      ensures PublishFailure(auths) == Some(NotifyBroken) ==> Names(auths) != {}
    {
      UrlsHaveNames(auths);
    }

    lemma LaterStill(from: nat)
      requires ClockRuns() && clock(from) > READY_TIMEOUT_MS
      ensures forall n: nat :: n >= from ==> clock(n) > READY_TIMEOUT_MS
    {
      forall n: nat | n >= from ensures clock(n) > READY_TIMEOUT_MS { Monotone(from, n); }
    }

    lemma Monotone(from: nat, n: nat)
      requires ClockRuns() && from <= n
      ensures clock(from) <= clock(n)
      decreases n - from
    {
      if from < n {
        Monotone(from, n - 1);
        assert clock(n - 1 + 1) >= clock(n - 1) + SLEEP_MS;
      }
    }
  }

  /** A run that ends with its records left behind: the one notification breaks in transport. */
  method LeftBehind() returns (trace: seq<Event>, outcome: Outcome)
    ensures outcome == NotifyBroken && Deployed(trace) != [] && Cleaned(trace) == []
  {
    hide Wanted, RRset, AllLive, Deployed, Cleaned, Notified, Told, Waits, Undeployed, Judge;
    var issuer := new Issuer(true, (d: string) => true, (d: string) => {}, (n: nat) => Broken, (n: nat) => NoAnswer,
                             (n: nat) => SLEEP_MS * n, true, true, true, (name: string) => {}, (d: string) => {});
    var auth := Authorization("d", false, Some(Challenge("u", "v")));
    OneChallenge(auth);
    BreaksAtOnce(issuer, [auth]);
    hide *;
    outcome := issuer.IssueCertificate("d", [], [auth]);
    trace := issuer.trace;
  }

  lemma OneChallenge(a: Authorization)
    requires Pending(a)
    ensures FirstStop([a]) == None && |Urls([a])| == 1
  {
    assert [a][..0] == [];
  }

  lemma BreaksAtOnce(issuer: Issuer, auths: seq<Authorization>)
    requires issuer.ordered && FirstStop(auths) == None && |Urls(auths)| == 1
    requires (forall d :: issuer.deploys(d)) && issuer.notices(0) == Broken
    ensures issuer.OutcomeOf(auths) == NotifyBroken
  {
    assert FirstRefusal(issuer.notices, 1) == Broken;
  }
}
