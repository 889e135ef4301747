/** Which DNS integration, which zone and which record name a challenge goes to. */
module Routing {
  import opened Text
  import opened Hosts

  /** What one integration's `list_zones` returns; `None` when the call fails. */
  type Listing = Option<seq<string>>

  /** How routing and the create pre-flight compare zone names: dot-stripped, lower-cased. */
  function ZoneKey(z: string): string {
    Lower(TrimDots(z))
  }

  const CHALLENGE := "_acme-challenge."

  // ── Routing over several integrations ──────────────────────────────────────

  predicate ListingCovers(l: Listing, d: string) {
    l.Some? && exists z :: z in l.value && Covers(ZoneKey(z), d)
  }

  /** What the create handler's pre-flight asks of one name. */
  predicate PreflightCovers(providers: seq<Listing>, d: string) {
    exists z :: z in AllZones(providers) && ZoneKey(z) != "" && Covers(ZoneKey(z), d)
  }

  function AllZones(providers: seq<Listing>): set<string> {
    set i, z | 0 <= i < |providers| && providers[i].Some? && z in providers[i].value :: z
  }

  class MultiDnsProvider {
    /** The integrations' listings in insertion order; they do not change during a request. */
    const providers: seq<Listing>

    constructor (providers: seq<Listing>)
      ensures this.providers == providers
    {
      this.providers := providers;
    }

    /** The first integration with a zone that covers the domain. */
    method Route(domain: string) returns (r: Option<nat>)
      ensures r.Some? ==> r.value < |providers| && ListingCovers(providers[r.value], ZoneKey(domain))
      ensures forall i :: 0 <= i < (if r.Some? then r.value else |providers|) ==>
                !ListingCovers(providers[i], ZoneKey(domain))
    {
      hide ZoneKey, Covers;
      var d := ZoneKey(domain);
      for i := 0 to |providers|
        invariant forall k :: 0 <= k < i ==> !ListingCovers(providers[k], d)
      {
        if providers[i].Some? {
          var zones := providers[i].value;
          for j := 0 to |zones|
            invariant forall z :: z in zones[..j] ==> !Covers(ZoneKey(z), d)
          {
            if Covers(ZoneKey(zones[j]), d) {
              assert zones[j] in zones;
              return Some(i);
            }
            assert zones[..j + 1] == zones[..j] + [zones[j]];
          }
          assert zones[..|zones|] == zones;
        }
      }
      r := None;
    }

    /** The union of all zones, first spelling of each key kept. */
    method ListZones() returns (out: seq<string>)
      ensures forall z :: z in out ==> z in AllZones(providers)
      ensures forall z :: z in AllZones(providers) ==> exists y :: y in out && ZoneKey(y) == ZoneKey(z)
      ensures forall i, j :: 0 <= i < j < |out| ==> ZoneKey(out[i]) != ZoneKey(out[j])
    {
      hide ZoneKey;
      var all: seq<string> := [];
      for i := 0 to |providers|
        invariant forall z :: z in all <==> z in AllZones(providers[..i])
      {
        assert providers[..i + 1] == providers[..i] + [providers[i]];
        AllZonesAppend(providers[..i], providers[i]);
        if providers[i].Some? {
          all := all + providers[i].value;
        }
      }
      assert providers[..|providers|] == providers;

      var seen: set<string> := {};
      out := [];
      for i := 0 to |all|
        invariant forall z :: z in out ==> z in all
        invariant seen == set y | y in out :: ZoneKey(y)
        invariant forall z :: z in all[..i] ==> ZoneKey(z) in seen
        invariant forall i, j :: 0 <= i < j < |out| ==> ZoneKey(out[i]) != ZoneKey(out[j])
      {
        assert all[..i + 1] == all[..i] + [all[i]];
        if ZoneKey(all[i]) !in seen {
          seen := seen + {ZoneKey(all[i])};
          out := out + [all[i]];
        }
      }
      assert all[..|all|] == all;
    }

    /** The create handler's pre-flight: the requested names no managed zone covers. */
    method Preflight(names: seq<string>) returns (uncovered: seq<string>)
      ensures forall d :: d in uncovered <==> d in names && !PreflightCovers(providers, d)
    {
      hide ZoneKey, Covers, PreflightCovers, AllZones;
      var zones := ListZones();
      var keys := ZoneKeys(zones);
      forall d: string ensures (exists k :: k in keys && Covers(k, d)) <==> PreflightCovers(providers, d) {
        KeysDecidePreflight(providers, zones, keys, d);
      }
      uncovered := [];
      for i := 0 to |names|
        invariant forall d :: d in uncovered <==> d in names[..i] && !PreflightCovers(providers, d)
      {
        assert names[..i + 1] == names[..i] + [names[i]];
        var covered := exists k :: k in keys && Covers(k, names[i]);
        if !covered {
          uncovered := uncovered + [names[i]];
        }
      }
      assert names[..|names|] == names;
    }
  }

  /** The pre-flight's list of non-empty keys. */
  method ZoneKeys(zones: seq<string>) returns (keys: seq<string>)
    ensures forall k :: k in keys <==> k != "" && exists z :: z in zones && ZoneKey(z) == k
  {
    hide ZoneKey;
    keys := [];
    for i := 0 to |zones|
      invariant forall k :: k in keys <==> k != "" && exists z :: z in zones[..i] && ZoneKey(z) == k
    {
      assert zones[..i + 1] == zones[..i] + [zones[i]];
      if ZoneKey(zones[i]) != "" {
        keys := keys + [ZoneKey(zones[i])];
      }
    }
    assert zones[..|zones|] == zones;
  }

  lemma AllZonesAppend(ps: seq<Listing>, l: Listing)
    ensures forall z :: z in AllZones(ps + [l]) <==> z in AllZones(ps) || (l.Some? && z in l.value)
  {
    var all := ps + [l];
    forall z ensures z in AllZones(all) <==> z in AllZones(ps) || (l.Some? && z in l.value) {
      if z in AllZones(ps) {
        var i :| 0 <= i < |ps| && ps[i].Some? && z in ps[i].value;
        assert all[i] == ps[i];
      }
      if l.Some? && z in l.value {
        assert all[|ps|] == l;
      }
    }
  }

  lemma KeysDecidePreflight(providers: seq<Listing>, zones: seq<string>, keys: seq<string>, d: string)
    requires forall z :: z in zones ==> z in AllZones(providers)
    requires forall z :: z in AllZones(providers) ==> exists y :: y in zones && ZoneKey(y) == ZoneKey(z)
    requires forall k :: k in keys <==> k != "" && exists z :: z in zones && ZoneKey(z) == k
    ensures (exists k :: k in keys && Covers(k, d)) <==> PreflightCovers(providers, d)
  {
    hide ZoneKey, Covers, AllZones;
    if PreflightCovers(providers, d) {
      var z :| z in AllZones(providers) && ZoneKey(z) != "" && Covers(ZoneKey(z), d);
      assert ZoneKey(z) in keys;
    }
  }

  ghost predicate Routable(providers: seq<Listing>, domain: string) {
    exists i :: 0 <= i < |providers| && ListingCovers(providers[i], ZoneKey(domain))
  }

  /** For a name in canonical form, the pre-flight accepts it exactly when it is not the empty
      name and routing finds it an integration. */
  lemma PreflightIsRoutable(providers: seq<Listing>, d: string)
    requires ZoneKey(d) == d
    ensures PreflightCovers(providers, d) <==> d != "" && Routable(providers, d)
  {
    if d != "" && Routable(providers, d) {
      var i :| 0 <= i < |providers| && ListingCovers(providers[i], ZoneKey(d));
      var z :| z in providers[i].value && Covers(ZoneKey(z), d);
      assert d[|d| - 1] != '.';
      assert ZoneKey(z) != "";
      assert z in AllZones(providers);
    }
    if PreflightCovers(providers, d) {
      var z :| z in AllZones(providers) && ZoneKey(z) != "" && Covers(ZoneKey(z), d);
      var i :| 0 <= i < |providers| && providers[i].Some? && z in providers[i].value;
      assert ListingCovers(providers[i], ZoneKey(d));
    }
  }

  /** The gap: the request `"."` canonicalises to the empty name, which a root zone routes but
      the pre-flight refuses. */
  lemma EmptyNameGap()
    ensures var ps := [Some(["."])]; NormalizeHost(".") == "" && Routable(ps, "") && !PreflightCovers(ps, "")
  {
    hide NormalizeHost, Trim;
    RootName();
    var ps: seq<Listing> := [Some(["."])];
    assert "." in ps[0].value;
    assert ListingCovers(ps[0], ZoneKey(""));
  }

  lemma RootName()
    ensures NormalizeHost(".") == "" && ZoneKey(".") == "" && ZoneKey("") == ""
  {
    hide Trim;
    TrimIsIdentityOnInk(".");
    assert Lower(".") == "." && "."[..0] == "";
    assert TrimDots(".") == TrimDots("") == "";
  }

  /** Canonical names, as the handler passes them on, are in the form routing compares. */
  lemma CanonicalNamesAreKeys(s: string)
    ensures ZoneKey(NormalizeHost(s)) == NormalizeHost(s)
  {
    hide NormalizeHost;
    NormalizeHostShape(s);
  }

  /** The challenge of `*.d` goes to `d`, and `d` can be routed exactly when some zone other than one
      literally called `*.d` covers `*.d`. */
  lemma WildcardRoutableIff(providers: seq<Listing>, d: string)
    requires ZoneKey(d) == d && d != ""
    ensures Routable(providers, d) <==> exists z :: z in AllZones(providers) && OtherZoneCovers(ZoneKey(z), d)
  {
    hide ZoneKey, Covers, Labels, AllZones;
    PreflightIsRoutable(providers, d);
    if PreflightCovers(providers, d) {
      var z :| z in AllZones(providers) && ZoneKey(z) != "" && Covers(ZoneKey(z), d);
      AddFirstLabel(ZoneKey(z), "*", d);
    }
    if z :| z in AllZones(providers) && OtherZoneCovers(ZoneKey(z), d) {
      assert "*." + d == "*" + "." + d;
      DropFirstLabel(ZoneKey(z), "*", d);
    }
  }

  /** A zone, not called `*.d`, covers `*.d`. */
  predicate OtherZoneCovers(key: string, d: string) {
    key != "" && key != "*." + d && Covers(key, "*." + d)
  }

  /** So accepting `*.d` means that `d` can be routed, unless a zone is literally called `*.d`. */
  lemma WildcardIsRoutable(providers: seq<Listing>, d: string)
    requires ZoneKey(d) == d && PreflightCovers(providers, "*." + d)
    ensures Routable(providers, d) || exists z :: z in AllZones(providers) && ZoneKey(z) == "*." + d
  {
    hide ZoneKey, Covers, Labels;
    var z :| z in AllZones(providers) && ZoneKey(z) != "" && Covers(ZoneKey(z), "*." + d);
    if ZoneKey(z) != "*." + d {
      assert "*." + d == "*" + "." + d;
      DropFirstLabel(ZoneKey(z), "*", d);
      var i :| 0 <= i < |providers| && providers[i].Some? && z in providers[i].value;
      assert ListingCovers(providers[i], ZoneKey(d));
    }
  }

  /** A zone that covers `d` covers everything below `d`, and is not it. */
  lemma AddFirstLabel(zone: string, first: string, d: string)
    requires Covers(zone, d)
    ensures Covers(zone, first + "." + d) && zone != first + "." + d
  {
    var full := first + "." + d;
    if zone == d {
      assert full[|full| - |d| - 1..] == "." + d;
    } else {
      assert full[|full| - |zone| - 1..] == d[|d| - |zone| - 1..];
    }
  }

  /** A zone that covers `first.d` without being it covers `d`. */
  lemma DropFirstLabel(zone: string, first: string, d: string)
    requires Covers(zone, first + "." + d) && zone != first + "." + d
    requires forall i :: 0 <= i < |first| ==> first[i] != '.'
    ensures Covers(zone, d)
  {
    hide Covers, Labels, IsSuffix;
    NoDotsOneLabel(first);
    var full := first + "." + d;
    CoversIsLabelSuffix(zone, full);
    CoversIsLabelSuffix(zone, d);
    LabelsOfDotted(first, d);
    if Labels(zone) == Labels(full) {
      JoinLabels(zone);
      JoinLabels(full);
    }
    ShorterSuffix(Labels(zone), first, Labels(d));
  }

  lemma ShorterSuffix<T>(p: seq<T>, x: T, s: seq<T>)
    requires IsSuffix(p, [x] + s) && p != [x] + s
    ensures IsSuffix(p, s)
  {
    var all := [x] + s;
    assert all[0..] == all;
    if |p| < |all| {
      assert all[|all| - |p|..] == s[|s| - |p|..];
    }
  }

  lemma {:induction false} NoDotsOneLabel(s: string)
    requires forall i :: 0 <= i < |s| ==> s[i] != '.'
    ensures Labels(s) == [s]
  {
    if s != "" {
      NoDotsOneLabel(s[1..]);
      assert s == [s[0]] + s[1..];
    }
  }

  // ── Zone and record name within one integration ────────────────────────────

  /** Where a zone of length `n` goes: after the last one at least as long. */
  method InsertionPoint(r: seq<string>, n: nat) returns (k: nat)
    requires forall i, j :: 0 <= i < j < |r| ==> |r[i]| >= |r[j]|
    ensures k <= |r| && (forall i :: 0 <= i < k ==> |r[i]| >= n) && forall i :: k <= i < |r| ==> |r[i]| < n
  {
    k := 0;
    while k < |r| && |r[k]| >= n
      invariant k <= |r| && forall i :: 0 <= i < k ==> |r[i]| >= n
    {
      k := k + 1;
    }
  }

  /** `sort_by_key(Reverse(len))`. */
  method LongestFirst(zones: seq<string>) returns (r: seq<string>)
    ensures forall i, j :: 0 <= i < j < |r| ==> |r[i]| >= |r[j]|
    ensures forall z :: z in r <==> z in zones
  {
    r := [];
    for n := 0 to |zones|
      invariant forall i, j :: 0 <= i < j < |r| ==> |r[i]| >= |r[j]|
      invariant forall z :: z in r <==> z in zones[..n]
    {
      assert zones[..n + 1] == zones[..n] + [zones[n]];
      var k := InsertionPoint(r, |zones[n]|);
      assert r == r[..k] + r[k..];
      r := r[..k] + [zones[n]] + r[k..];
    }
    assert zones[..|zones|] == zones;
  }

  /** Longest literal suffix match for the challenge name: the found zone is the one and only
      longest zone that covers it. */
  method FindZone(zones: seq<string>, domain: string) returns (r: Option<string>)
    ensures r.Some? ==> r.value in zones && Covers(r.value, CHALLENGE + domain)
    ensures forall z :: z in zones && Covers(z, CHALLENGE + domain) ==>
              r.Some? && (z == r.value || |z| < |r.value|)
  {
    hide Covers;
    var challenge := CHALLENGE + domain;
    var sorted := LongestFirst(zones);
    for i := 0 to |sorted|
      invariant forall z :: z in sorted[..i] ==> !Covers(z, challenge)
    {
      if Covers(sorted[i], challenge) {
        forall z | z in zones && Covers(z, challenge)
          ensures z == sorted[i] || |z| < |sorted[i]|
        {
          var k :| 0 <= k < |sorted| && sorted[k] == z;
          assert forall j :: 0 <= j < i ==> sorted[j] in sorted[..i];
          if |z| == |sorted[i]| { SameLengthSameZone(z, sorted[i], challenge); }
        }
        return Some(sorted[i]);
      }
      assert sorted[..i + 1] == sorted[..i] + [sorted[i]];
    }
    assert sorted[..|sorted|] == sorted;
    r := None;
  }

  lemma SameLengthSameZone(y: string, z: string, d: string)
    requires Covers(y, d) && Covers(z, d) && |y| == |z|
    ensures y == z
  {
    if |y| < |d| {
      assert y == d[|d| - |y| - 1..][1..] && z == d[|d| - |z| - 1..][1..];
    }
  }

  /** The PowerDNS variant, on names reported with a trailing dot: with no covering zone it falls
      back to the last two labels. */
  method FindZonePdns(zones: seq<string>, domain: string) returns (zone: string)
    ensures (forall z :: z in zones ==> !Covers(TrimDots(z), CHALLENGE + domain)) ==> zone == LastTwoLabels(domain)
    ensures forall z :: z in zones && Covers(TrimDots(z), CHALLENGE + domain) ==>
              (exists y :: y in zones && zone == TrimDots(y)) && Covers(zone, CHALLENGE + domain)
              && (TrimDots(z) == zone || |TrimDots(z)| < |zone|)
  {
    hide Covers, TrimDots, LastTwoLabels;
    var names: seq<string> := [];
    for i := 0 to |zones|
      invariant forall z :: z in zones[..i] ==> TrimDots(z) in names
      invariant forall n :: n in names ==> exists z :: z in zones && n == TrimDots(z)
    {
      assert zones[..i + 1] == zones[..i] + [zones[i]];
      assert zones[i] in zones;
      names := names + [TrimDots(zones[i])];
    }
    assert zones[..|zones|] == zones;
    var found := FindZone(names, domain);
    zone := if found.Some? then found.value else LastTwoLabels(domain);
  }

  function LastTwoLabels(domain: string): string {
    var ls := Labels(domain);
    if |ls| <= 2 then domain else ls[|ls| - 2] + "." + ls[|ls| - 1]
  }

  /** The fallback is the domain's last two labels, or the domain if it has no more, and so a
      suffix zone of it. */
  lemma FallbackZone(domain: string)
    ensures var ls := Labels(domain);
            Labels(LastTwoLabels(domain)) == if |ls| <= 2 then ls else ls[|ls| - 2..]
    ensures Covers(LastTwoLabels(domain), domain)
  {
    hide Labels, Covers;
    var ls := Labels(domain);
    if |ls| > 2 {
      var a, b := ls[|ls| - 2], ls[|ls| - 1];
      LabelHasNoDot(domain, |ls| - 2);
      LabelHasNoDot(domain, |ls| - 1);
      TwoLabels(a, b);
      assert ls[|ls| - 2..] == [a, b];
    }
    CoversIsLabelSuffix(LastTwoLabels(domain), domain);
  }

  lemma TwoLabels(a: string, b: string)
    requires (forall i :: 0 <= i < |a| ==> a[i] != '.') && forall i :: 0 <= i < |b| ==> b[i] != '.'
    ensures Labels(a + "." + b) == [a, b]
  {
    hide Labels;
    NoDotsOneLabel(a);
    NoDotsOneLabel(b);
    LabelsOfDotted(a, b);
  }

  lemma {:induction false} LabelHasNoDot(s: string, k: nat)
    requires k < |Labels(s)|
    ensures forall i :: 0 <= i < |Labels(s)[k]| ==> Labels(s)[k][i] != '.'
  {
    if s != "" {
      var rest := Labels(s[1..]);
      if s[0] == '.' {
        if k > 0 { LabelHasNoDot(s[1..], k - 1); }
      } else {
        LabelHasNoDot(s[1..], k);
      }
    }
  }

  /** The record name inside the zone, `@` at its apex; put back together with the zone it is
      the challenge name. */
  function RecordSubname(domain: string, zone: string): (sub: string)
    ensures Covers(zone, CHALLENGE + domain) ==> FullName(sub, zone) == CHALLENGE + domain
    ensures sub == "@" <==> CHALLENGE + domain == zone
  {
    var full := CHALLENGE + domain;
    if full == zone then "@"
    else if |zone| < |full| && full[|full| - |zone| - 1..] == "." + zone then
      assert full[0] == '_';
      full[..|full| - |zone| - 1]
    else
      assert full[0] == '_';
      full
  }

  function FullName(sub: string, zone: string): string {
    if sub == "@" then zone else sub + "." + zone
  }

  /** Challenges of different domains never share a record of one zone. */
  lemma RecordsDoNotCollide(d1: string, d2: string, zone: string)
    requires Covers(zone, CHALLENGE + d1) && Covers(zone, CHALLENGE + d2)
    requires RecordSubname(d1, zone) == RecordSubname(d2, zone)
    ensures d1 == d2
  {
    hide RecordSubname, Covers;
    var f1, f2 := CHALLENGE + d1, CHALLENGE + d2;
    assert f1 == f2;
    assert f1[|CHALLENGE|..] == d1 && f2[|CHALLENGE|..] == d2;
  }

  /** The routed integration finds a zone for the challenge exactly when one of its covering
      zones is spelt in lower case: routing ignores case, `find_zone` does not. */
  lemma RoutedFindZoneIff(zones: seq<string>, d: string)
    requires ZoneKey(d) == d && d != ""
    requires forall z :: z in zones ==> TrimDots(z) == z
    ensures (exists z :: z in zones && Covers(z, CHALLENGE + d)) <==>
            exists z :: z in zones && Lower(z) == z && Covers(ZoneKey(z), CHALLENGE + d)
  {
    hide Covers;
    assert Lower(CHALLENGE + d) == CHALLENGE + d;
    if z :| z in zones && Covers(z, CHALLENGE + d) {
      SuffixOfLower(z, CHALLENGE + d);
      assert ZoneKey(z) == z;
    }
  }

  lemma SuffixOfLower(z: string, d: string)
    requires Covers(z, d) && Lower(d) == d
    ensures Lower(z) == z
  {
    if z != d {
      assert z == d[|d| - |z| - 1..][1..];
      assert forall i :: 0 <= i < |z| ==> z[i] == d[|d| - |z| + i];
      assert forall i :: 0 <= i < |d| ==> LowerChar(d[i]) == d[i] by {
        assert forall i :: 0 <= i < |d| ==> Lower(d)[i] == d[i];
      }
    }
  }

  /** With lower-case zones, an integration that routes a name has a zone for its challenge. */
  lemma LowercaseZonesAreFound(zones: seq<string>, d: string)
    requires ListingCovers(Some(zones), d)
    requires forall z :: z in zones ==> ZoneKey(z) == z
    ensures exists z :: z in zones && Covers(z, CHALLENGE + d)
  {
    hide ZoneKey;
    var z :| z in zones && Covers(ZoneKey(z), d);
    var full := CHALLENGE + d;
    if z == d {
      assert full[|full| - |z| - 1..] == "." + z;
    } else {
      assert full[|full| - |z| - 1..] == d[|d| - |z| - 1..];
    }
  }

  /** And with a mixed-case zone it can have none: the order then fails after being accepted. */
  lemma MixedCaseZoneIsMissed()
    ensures ListingCovers(Some(["A.b"]), "a.b") && !Covers("A.b", CHALLENGE + "a.b")
  {
    var zones := ["A.b"];
    assert Lower("A.b") == "a.b" && TrimDots("A.b") == "A.b";
    assert zones[0] in zones;
    var full := CHALLENGE + "a.b";
    assert full[|full| - 4..][1] == 'a' && ("." + "A.b")[1] == 'A';
  }

  // ── Publishing the record set ──────────────────────────────────────────────

  datatype Kind = TXT | Other

  datatype Record = Record(id: nat, kind: Kind, name: string, value: string)

  predicate IsChallenge(r: Record, name: string) {
    r.kind == TXT && r.name == name
  }

  function Keep(rs: seq<Record>, p: Record -> bool): (k: seq<Record>)
    ensures forall r :: r in k <==> r in rs && p(r)
  {
    if rs == [] then [] else (if p(rs[0]) then [rs[0]] else []) + Keep(rs[1..], p)
  }

  lemma {:induction false} KeepAppend(a: seq<Record>, b: seq<Record>, p: Record -> bool)
    ensures Keep(a + b, p) == Keep(a, p) + Keep(b, p)
  {
    if a == [] {
      assert a + b == b;
    } else {
      assert (a + b)[1..] == a[1..] + b;
      KeepAppend(a[1..], b, p);
    }
  }

  function Values(rs: seq<Record>, name: string): set<string> {
    set r | r in rs && IsChallenge(r, name) :: r.value
  }

  function Others(rs: seq<Record>, name: string): seq<Record> {
    Keep(rs, r => !IsChallenge(r, name))
  }

  /** One zone at a provider. */
  class Zone {
    var records: seq<Record>

    /** DigitalOcean, Hetzner and Cloudflare delete matching records one by one; `stuck` are the
        ids whose deletion fails, which is only logged. */
    method CleanChallenge(name: string, stuck: set<nat>)
      modifies this
      ensures records == Keep(old(records), (r: Record) => !IsChallenge(r, name) || r.id in stuck)
    {
      hide Keep;
      ghost var stays := (r: Record) => !IsChallenge(r, name) || r.id in stuck;
      var kept: seq<Record> := [];
      KeepNone([], stays);
      for i := 0 to |records|
        invariant records == old(records)
        invariant kept == Keep(records[..i], stays)
      {
        assert records[..i + 1] == records[..i] + [records[i]];
        KeepOne(records[..i], records[i], stays);
        if !IsChallenge(records[i], name) || records[i].id in stuck {
          kept := kept + [records[i]];
        }
      }
      assert records[..|records|] == records;
      records := kept;
    }

    /** Clean once, then add value after value until a POST fails; the n-th one succeeds when
        `posts(n)`. The record set is then the values added plus exactly those stale ones the cleaning
        got stuck on; a failure undoes nothing. */
    method DeployByAdding(name: string, values: seq<string>, stuck: set<nat>, posts: nat -> bool, newId: nat -> nat)
      returns (ok: bool)
      modifies this
      ensures ok <==> forall n :: 0 <= n < |values| ==> posts(n)
      ensures Values(records, name) == (set v | v in Added(values, posts)) + Stale(old(records), name, stuck)
      ensures Others(records, name) == Others(old(records), name)
    {
      hide Values, Others, Stale, Keep;
      CleanChallenge(name, stuck);
      ghost var cleaned := records;
      CleaningKeepsOthers(old(records), name, stuck);
      for n := 0 to |values|
        invariant forall k :: 0 <= k < n ==> posts(k)
        invariant Added(values[..n], posts) == values[..n]
        invariant Values(records, name) == (set v | v in values[..n]) + Values(cleaned, name)
        invariant Others(records, name) == Others(cleaned, name)
      {
        assert values[..n + 1][..n] == values[..n] && values[..n + 1] == values[..n] + [values[n]];
        if !posts(n) {
          AddedStops(values, posts, n + 1);
          return false;
        }
        var r := Record(newId(n), TXT, name, values[n]);
        AddChallenge(records, r, name);
        records := records + [r];
      }
      assert values[..|values|] == values;
      ok := true;
    }

    /** Gandi's PUT and PowerDNS's REPLACE swap the whole record set in one call. */
    method DeployByReplacing(name: string, values: seq<string>, accepted: bool, newId: nat -> nat)
      returns (ok: bool)
      modifies this
      ensures ok == accepted
      ensures ok ==> Values(records, name) == set v | v in values
      ensures !ok ==> records == old(records)
      ensures Others(records, name) == Others(old(records), name)
    {
      if accepted {
        var added := seq(|values|, n requires 0 <= n < |values| => Record(newId(n), TXT, name, values[n]));
        ReplacedSet(records, name, values, added);
        records := Others(records, name) + added;
      }
      ok := accepted;
    }
  }

  /** The values whose POST succeeded before the first that failed. */
  function Added(values: seq<string>, posts: nat -> bool): (r: seq<string>)
    ensures r <= values && forall n :: 0 <= n < |r| ==> posts(n)
    ensures |r| < |values| ==> !posts(|r|)
  {
    if values == [] then []
    else
      var last := |values| - 1;
      var r := Added(values[..last], posts);
      if |r| == last && posts(last) then values else r
  }

  /** Nothing is added past a failure. */
  lemma {:induction false} AddedStops(values: seq<string>, posts: nat -> bool, n: nat)
    requires 0 < n <= |values| && !posts(n - 1)
    ensures Added(values, posts) == Added(values[..n], posts)
    decreases |values|
  {
    var last := |values| - 1;
    if n <= last {
      assert values[..last][..n] == values[..n];
      AddedStops(values[..last], posts, n);
    } else {
      assert values[..n] == values;
    }
  }

  function Stale(rs: seq<Record>, name: string, stuck: set<nat>): set<string> {
    set r | r in rs && IsChallenge(r, name) && r.id in stuck :: r.value
  }

  /** What belongs to a challenge: the TXT records of its name and no others, whatever their value. */
  lemma ChallengeRecords(rs: seq<Record>, name: string, stuck: set<nat>, r: Record, v: string)
    ensures r in Others(rs, name) <==> r in rs && (r.kind == Other || r.name != name)
    ensures v in Values(rs, name) <==> exists id :: Record(id, TXT, name, v) in rs
    ensures v in Stale(rs, name, stuck) <==> exists id :: id in stuck && Record(id, TXT, name, v) in rs
  {
    if v in Values(rs, name) {
      var x :| x in rs && IsChallenge(x, name) && x.value == v;
      assert x == Record(x.id, TXT, name, v);
    }
    if v in Stale(rs, name, stuck) {
      var x :| x in rs && IsChallenge(x, name) && x.id in stuck && x.value == v;
      assert x == Record(x.id, TXT, name, v);
    }
  }

  lemma CleaningKeepsOthers(rs: seq<Record>, name: string, stuck: set<nat>)
    ensures var k := Keep(rs, r => !IsChallenge(r, name) || r.id in stuck);
            Others(k, name) == Others(rs, name) && Values(k, name) == Stale(rs, name, stuck)
  {
    if rs != [] {
      var p := r => !IsChallenge(r, name) || r.id in stuck;
      var q := r => !IsChallenge(r, name);
      CleaningKeepsOthers(rs[1..], name, stuck);
      KeepAppend(if p(rs[0]) then [rs[0]] else [], Keep(rs[1..], p), q);
    }
  }

  lemma AddChallenge(rs: seq<Record>, r: Record, name: string)
    requires IsChallenge(r, name)
    ensures Values(rs + [r], name) == Values(rs, name) + {r.value}
    ensures Others(rs + [r], name) == Others(rs, name)
  {
    KeepAppend(rs, [r], x => !IsChallenge(x, name));
  }

  lemma ReplacedSet(rs: seq<Record>, name: string, values: seq<string>, added: seq<Record>)
    requires |added| == |values|
    requires forall n :: 0 <= n < |values| ==> IsChallenge(added[n], name) && added[n].value == values[n]
    ensures var after := Others(rs, name) + added;
            Values(after, name) == (set v | v in values) && Others(after, name) == Others(rs, name)
  {
    var p := x => !IsChallenge(x, name);
    var after := Others(rs, name) + added;
    KeepAppend(Others(rs, name), added, p);
    KeepTwice(rs, p);
    KeepNone(added, p);
    forall v | v in values ensures v in Values(after, name) {
      var n :| 0 <= n < |values| && values[n] == v;
      assert added[n] in after;
    }
  }

  lemma KeepOne(rs: seq<Record>, r: Record, p: Record -> bool)
    ensures Keep(rs + [r], p) == Keep(rs, p) + if p(r) then [r] else []
  {
    hide Keep;
    KeepAppend(rs, [r], p);
    KeepSingle(r, p);
  }

  lemma KeepSingle(r: Record, p: Record -> bool)
    ensures Keep([r], p) == if p(r) then [r] else []
  {
    assert [r][1..] == [];
  }

  lemma {:induction false} KeepTwice(rs: seq<Record>, p: Record -> bool)
    ensures Keep(Keep(rs, p), p) == Keep(rs, p)
  {
    if rs != [] {
      KeepTwice(rs[1..], p);
      var first := if p(rs[0]) then [rs[0]] else [];
      KeepAppend(first, Keep(rs[1..], p), p);
    }
  }

  lemma {:induction false} KeepNone(rs: seq<Record>, p: Record -> bool)
    requires forall r :: r in rs ==> !p(r)
    ensures Keep(rs, p) == []
  {
    if rs != [] {
      KeepNone(rs[1..], p);
    }
  }
}
