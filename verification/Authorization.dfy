/** Scoped permissions: how role assignments become grants, how an API token's ceiling
    shrinks them, and exactly which domain lists they authorise. */
module Authorization {
  import opened Text
  import opened Hosts

  /** One row of `role_assignments JOIN role_permissions`. */
  datatype GrantRow = GrantRow(scope: string, perm: string)

  datatype ScopedGrant = ScopedGrant(scope: string, permissions: set<string>)

  const GLOBAL := "global"
  const ZONE_PREFIX := "zone:"

  predicate ZoneCovers(zone: string, domain: string) {
    var z, d := Lower(TrimDots(Trim(zone))), Lower(TrimDots(Trim(domain)));
    z != "" && Covers(z, d)
  }

  /** The zone a scope names, when it is a zone scope at all. */
  function ZoneOf(scope: string): Option<string> {
    if ZONE_PREFIX <= scope then Some(scope[|ZONE_PREFIX|..]) else None
  }

  /** The identity a request runs under: global permissions and scoped grants. */
  class AuthUser {
    var permissions: set<string>
    var scoped: seq<ScopedGrant>

    /** `load_user_grants`: one pass over the joined rows, bucketing by scope; the buckets of a
        hash map come out in no particular order. */
    constructor (rows: seq<GrantRow>)
      ensures forall p :: p in permissions <==> GrantRow(GLOBAL, p) in rows
      ensures forall s, p :: Holds(scoped, s, p) <==> s != GLOBAL && GrantRow(s, p) in rows
    {
      var global: set<string> := {};
      var byScope: map<string, set<string>> := map[];
      for i := 0 to |rows|
        invariant forall p :: p in global <==> GrantRow(GLOBAL, p) in rows[..i]
        invariant forall s, p :: (s in byScope && p in byScope[s]) <==> s != GLOBAL && GrantRow(s, p) in rows[..i]
      {
        var row := rows[i];
        assert rows[..i + 1] == rows[..i] + [row];
        if row.scope == GLOBAL {
          global := global + {row.perm};
        } else {
          var bucket := if row.scope in byScope then byScope[row.scope] else {};
          byScope := byScope[row.scope := bucket + {row.perm}];
        }
      }
      assert rows[..|rows|] == rows;
      var grants: seq<ScopedGrant> := [];
      var left := byScope.Keys;
      while left != {}
        invariant left <= byScope.Keys
        invariant forall s, p :: Holds(grants, s, p) <==> s in byScope && s !in left && p in byScope[s]
      {
        var s :| s in left;
        ghost var before := grants;
        grants := grants + [ScopedGrant(s, byScope[s])];
        left := left - {s};
        HoldsAppend(before, ScopedGrant(s, byScope[s]));
      }
      permissions := global;
      scoped := grants;
    }

    /** The ceiling an API token carries: every set is cut down to the allowed keys. */
    method ApplyCeiling(allow: set<string>)
      modifies this
      ensures permissions == old(permissions) * allow
      ensures forall s, p :: Holds(scoped, s, p) <==> p in allow && Holds(old(scoped), s, p)
    {
      permissions := permissions * allow;
      var grants := scoped;
      for i := 0 to |scoped|
        invariant |grants| == |scoped|
        invariant forall k :: 0 <= k < i ==>
          grants[k] == scoped[k].(permissions := scoped[k].permissions * allow)
        invariant forall k :: i <= k < |scoped| ==> grants[k] == scoped[k]
      {
        grants := grants[i := scoped[i].(permissions := scoped[i].permissions * allow)];
      }
      ghost var before := scoped;
      scoped := grants;
      forall s, p ensures Holds(scoped, s, p) <==> p in allow && Holds(before, s, p) {
        if p in allow && Holds(before, s, p) {
          var k :| 0 <= k < |before| && before[k].scope == s && p in before[k].permissions;
          assert scoped[k].scope == s && p in scoped[k].permissions;
        }
        if Holds(scoped, s, p) {
          var k :| 0 <= k < |scoped| && scoped[k].scope == s && p in scoped[k].permissions;
          assert before[k].scope == s && p in before[k].permissions;
        }
      }
    }

    method CoversDomain(perm: string, domain: string) returns (ok: bool)
      ensures ok <==> perm in permissions || GrantCovers(scoped, perm, domain)
    {
      if perm in permissions {
        return true;
      }
      for i := 0 to |scoped|
        invariant !GrantCovers(scoped[..i], perm, domain)
      {
        assert scoped[..i + 1] == scoped[..i] + [scoped[i]];
        var zone := ZoneOf(scoped[i].scope);
        if zone.Some? && perm in scoped[i].permissions && ZoneCovers(zone.value, domain) {
          return true;
        }
      }
      assert scoped[..|scoped|] == scoped;
      ok := false;
    }

    method HasForDomains(perm: string, domains: seq<string>) returns (ok: bool)
      ensures ok <==> Authorized(permissions, scoped, perm, domains)
    {
      if perm in permissions {
        return true;
      }
      if domains == [] {
        return false;
      }
      for i := 0 to |domains|
        invariant forall d :: d in domains[..i] ==> GrantCovers(scoped, perm, d)
      {
        var c := CoversDomain(perm, domains[i]);
        if !c {
          assert domains[i] in domains;
          return false;
        }
        assert domains[..i + 1] == domains[..i] + [domains[i]];
      }
      assert domains[..|domains|] == domains;
      ok := true;
    }
  }

  ghost predicate Holds(grants: seq<ScopedGrant>, scope: string, perm: string) {
    exists k :: 0 <= k < |grants| && grants[k].scope == scope && perm in grants[k].permissions
  }

  lemma HoldsAppend(grants: seq<ScopedGrant>, g: ScopedGrant)
    ensures forall s, p :: Holds(grants + [g], s, p) <==> Holds(grants, s, p) || (s == g.scope && p in g.permissions)
  {
    forall s, p ensures Holds(grants + [g], s, p) <==> Holds(grants, s, p) || (s == g.scope && p in g.permissions) {
      var all := grants + [g];
      if Holds(grants, s, p) {
        var k :| 0 <= k < |grants| && grants[k].scope == s && p in grants[k].permissions;
        assert all[k] == grants[k];
      }
      if s == g.scope && p in g.permissions {
        assert all[|grants|] == g;
      }
    }
  }

  ghost predicate GrantCovers(grants: seq<ScopedGrant>, perm: string, domain: string) {
    exists k :: 0 <= k < |grants| && perm in grants[k].permissions
             && ZoneOf(grants[k].scope).Some? && ZoneCovers(ZoneOf(grants[k].scope).value, domain)
  }

  ghost predicate Authorized(permissions: set<string>, scoped: seq<ScopedGrant>, perm: string, domains: seq<string>) {
    perm in permissions || (domains != [] && forall d :: d in domains ==> GrantCovers(scoped, perm, d))
  }

  // ── What the check decides ─────────────────────────────────────────────────

  /** The DNS meaning of a zone grant: the zone is a real name and its labels end those of the domain. */
  ghost predicate InZone(zone: string, domain: string) {
    NormalizeHost(zone) != "" && IsSuffix(Labels(NormalizeHost(zone)), Labels(NormalizeHost(domain)))
  }

  lemma ZoneCoversIsInZone(zone: string, domain: string)
    ensures ZoneCovers(zone, domain) <==> InZone(zone, domain)
  {
    hide Labels, IsSuffix, Covers, TrimDots, Lower, Trim;
    TrimDotsLowerCommute(Trim(zone));
    TrimDotsLowerCommute(Trim(domain));
    CoversIsLabelSuffix(NormalizeHost(zone), NormalizeHost(domain));
  }

  /** The assignment rows, read as a policy: which permission they give on which domains under a ceiling. */
  ghost predicate Policy(rows: seq<GrantRow>, ceiling: set<string>, perm: string, domains: seq<string>) {
    perm in ceiling &&
    (GrantRow(GLOBAL, perm) in rows ||
     (domains != [] && forall d :: d in domains ==> ZoneRow(rows, perm, d)))
  }

  ghost predicate ZoneRow(rows: seq<GrantRow>, perm: string, domain: string) {
    exists zone :: GrantRow(ZONE_PREFIX + zone, perm) in rows && InZone(zone, domain)
  }

  /** The whole path from assignment rows through the token ceiling to the verdict is exactly the policy. */
  method Decide(rows: seq<GrantRow>, ceiling: set<string>, perm: string, domains: seq<string>) returns (ok: bool)
    ensures ok <==> Policy(rows, ceiling, perm, domains)
  {
    hide GrantCovers, ZoneRow, Holds;
    var auth := new AuthUser(rows);
    auth.ApplyCeiling(ceiling);
    ok := auth.HasForDomains(perm, domains);
    forall d ensures GrantCovers(auth.scoped, perm, d) <==> perm in ceiling && ZoneRow(rows, perm, d) {
      GrantsAreRows(rows, ceiling, auth.scoped, perm, d);
    }
    assert domains != [] ==> domains[0] in domains;
  }

  lemma GrantsAreRows(rows: seq<GrantRow>, ceiling: set<string>, grants: seq<ScopedGrant>, perm: string, d: string)
    requires forall s, p :: Holds(grants, s, p) <==> p in ceiling && s != GLOBAL && GrantRow(s, p) in rows
    ensures GrantCovers(grants, perm, d) <==> perm in ceiling && ZoneRow(rows, perm, d)
  {
    hide ZoneCovers, InZone;
    if GrantCovers(grants, perm, d) {
      var k :| 0 <= k < |grants| && perm in grants[k].permissions
            && ZoneOf(grants[k].scope).Some? && ZoneCovers(ZoneOf(grants[k].scope).value, d);
      assert Holds(grants, grants[k].scope, perm);
      var zone := ZoneOf(grants[k].scope).value;
      assert grants[k].scope == ZONE_PREFIX + zone;
      ZoneCoversIsInZone(zone, d);
    }
    if perm in ceiling && ZoneRow(rows, perm, d) {
      var zone :| GrantRow(ZONE_PREFIX + zone, perm) in rows && InZone(zone, d);
      var s := ZONE_PREFIX + zone;
      assert s[0] != GLOBAL[0];
      assert Holds(grants, s, perm);
      var k :| 0 <= k < |grants| && grants[k].scope == s && perm in grants[k].permissions;
      assert ZoneOf(s) == Some(zone);
      ZoneCoversIsInZone(zone, d);
    }
  }

  /** A tighter ceiling never authorises more, and no ceiling adds to what the roles give. */
  lemma CeilingOnlyNarrows(rows: seq<GrantRow>, tight: set<string>, loose: set<string>, perm: string,
      domains: seq<string>)
    requires tight <= loose && Policy(rows, tight, perm, domains)
    ensures Policy(rows, loose, perm, domains)
  {}

  // ── From the request to the stored row ─────────────────────────────────────

  function RequestDomains(q: Request): seq<string> {
    [q.cn] + q.sans
  }

  /** Both checks, whatever the assignments and the ceiling are. */
  ghost predicate RawCheckSuffices(q: Request) {
    forall rows, ceiling, perm :: Policy(rows, ceiling, perm, RequestDomains(q)) ==>
                                  Policy(rows, ceiling, perm, RequestDomains(Canonical(q)))
  }

  /** Some requested name is empty once normalised, so that no zone grant covers it; or the labels
      of every stored name end in those of a requested one. */
  ghost predicate NamesInherit(q: Request) {
    (exists r :: r in RequestDomains(q) && NormalizeHost(r) == "")
    || forall d :: d in RequestDomains(Canonical(q)) ==> Inherits(q, d)
  }

  ghost predicate Inherits(q: Request, d: string) {
    exists r :: r in RequestDomains(q) && IsSuffix(Labels(NormalizeHost(r)), Labels(NormalizeHost(d)))
  }

  /** Passing the check on the raw names implies passing it on the canonical names the row stores,
      which later renewals, downloads and deletes are checked against: for every assignment and
      ceiling, exactly when the stored names inherit from the requested ones. */
  lemma RawCheckIsExact(q: Request)
    ensures RawCheckSuffices(q) <==> NamesInherit(q)
  {
    hide Canonical, Policy, NormalizeHost, Labels;
    if NamesInherit(q) {
      forall rows, ceiling, perm | Policy(rows, ceiling, perm, RequestDomains(q))
        ensures Policy(rows, ceiling, perm, RequestDomains(Canonical(q)))
      {
        InheritedCheck(q, rows, ceiling, perm);
      }
    } else {
      var d :| d in RequestDomains(Canonical(q)) && !Inherits(q, d);
      OwnZones(q, d);
      var rows := ZoneRows(RequestDomains(q));
      assert Policy(rows, {"p"}, "p", RequestDomains(q)) && !Policy(rows, {"p"}, "p", RequestDomains(Canonical(q)));
    }
  }

  lemma InheritedCheck(q: Request, rows: seq<GrantRow>, ceiling: set<string>, perm: string)
    requires NamesInherit(q) && Policy(rows, ceiling, perm, RequestDomains(q))
    ensures Policy(rows, ceiling, perm, RequestDomains(Canonical(q)))
  {
    hide NormalizeHost, Canonical, Labels, IsSuffix;
    if GrantRow(GLOBAL, perm) !in rows {
      forall d | d in RequestDomains(Canonical(q)) ensures ZoneRow(rows, perm, d) {
        if r :| r in RequestDomains(q) && NormalizeHost(r) == "" {
          EmptyNameHasNoZone(rows, perm, r);
          assert false;
        }
        var r :| r in RequestDomains(q) && IsSuffix(Labels(NormalizeHost(r)), Labels(NormalizeHost(d)));
        var zone :| GrantRow(ZONE_PREFIX + zone, perm) in rows && InZone(zone, r);
        SuffixTransitive(Labels(NormalizeHost(zone)), Labels(NormalizeHost(r)), Labels(NormalizeHost(d)));
      }
    }
  }

  lemma SuffixTransitive<T>(a: seq<T>, b: seq<T>, c: seq<T>)
    requires IsSuffix(a, b) && IsSuffix(b, c)
    ensures IsSuffix(a, c)
  {}

  lemma EmptyNameHasNoZone(rows: seq<GrantRow>, perm: string, r: string)
    requires NormalizeHost(r) == ""
    ensures !ZoneRow(rows, perm, r)
  {
    hide NormalizeHost, Labels;
    forall zone ensures !InZone(zone, r) {
      CoversIsLabelSuffix(NormalizeHost(zone), "");
    }
  }

  /** Each requested name granted as a zone of its own, under one permission. */
  function ZoneRows(names: seq<string>): (rows: seq<GrantRow>)
    ensures forall g :: g in rows <==> exists r :: r in names && g == GrantRow(ZONE_PREFIX + r, "p")
  {
    if names == [] then [] else [GrantRow(ZONE_PREFIX + names[0], "p")] + ZoneRows(names[1..])
  }

  lemma OwnZones(q: Request, d: string)
    requires d in RequestDomains(Canonical(q)) && !Inherits(q, d)
    requires forall r :: r in RequestDomains(q) ==> NormalizeHost(r) != ""
    ensures var rows := ZoneRows(RequestDomains(q));
            Policy(rows, {"p"}, "p", RequestDomains(q)) && !Policy(rows, {"p"}, "p", RequestDomains(Canonical(q)))
  {
    hide NormalizeHost, Canonical, Labels;
    var rows := ZoneRows(RequestDomains(q));
    forall zone ensures ZONE_PREFIX + zone != GLOBAL && (ZONE_PREFIX + zone)[|ZONE_PREFIX|..] == zone {
      assert (ZONE_PREFIX + zone)[0] != GLOBAL[0];
    }
    forall r | r in RequestDomains(q) ensures ZoneRow(rows, "p", r) {
      assert GrantRow(ZONE_PREFIX + r, "p") in rows;
      assert InZone(r, r);
    }
    forall zone | GrantRow(ZONE_PREFIX + zone, "p") in rows ensures !InZone(zone, d) {
      var r :| r in RequestDomains(q) && GrantRow(ZONE_PREFIX + zone, "p") == GrantRow(ZONE_PREFIX + r, "p");
      assert r == zone;
    }
  }

  /** In particular for a stable request, whose stored names have the normal forms of requested ones. */
  lemma RawCheckCoversStoredRow(q: Request)
    requires Stable(q)
    ensures RawCheckSuffices(q)
  {
    hide NormalizeHost, SpaceBeforeDots, Sorted, KeptNames, Labels, Policy, RawCheckSuffices;
    forall d | d in RequestDomains(Canonical(q)) ensures Inherits(q, d) {
      var raw: string;
      if d == NormalizeHost(q.cn) {
        raw := q.cn;
      } else {
        assert d in Canonical(q).sans;
        assert d in OtherNames(q.cn, q.sans);
        raw :| raw in q.sans && Kept(q.cn, raw) && NormalizeHost(raw) == d;
      }
      assert raw in RequestDomains(q);
      NormalizeHostIdempotence(raw);
      assert IsSuffix(Labels(NormalizeHost(raw)), Labels(NormalizeHost(d)));
    }
    RawCheckIsExact(q);
  }

  /** Without it the checks can disagree: a grant on the zone `"a. ."` passes the request for the
      name `"a. ."`, but not the row stored for it, whose name is `"a. "`. */
  lemma RawCheckCounterexample(perm: string)
    ensures var q := Request("a. .", []); var rows := [GrantRow(ZONE_PREFIX + "a. .", perm)];
            Policy(rows, {perm}, perm, RequestDomains(q)) && !Policy(rows, {perm}, perm, RequestDomains(Canonical(q)))
  {
    hide NormalizeHost, Labels, Sorted, KeptNames;
    var name := "a. .";
    var q, rows := Request(name, []), [GrantRow(ZONE_PREFIX + name, perm)];
    ZonesDiffer();
    assert (ZONE_PREFIX + name)[0] != GLOBAL[0];
    assert rows[0] in rows && RequestDomains(q) == [name];
    assert ZoneRow(rows, perm, name);
    assert RequestDomains(Canonical(q))[0] == NormalizeHost(name);
    forall zone | GrantRow(ZONE_PREFIX + zone, perm) in rows ensures zone == name {
      assert (ZONE_PREFIX + zone)[|ZONE_PREFIX|..] == (ZONE_PREFIX + name)[|ZONE_PREFIX|..];
    }
    assert !ZoneRow(rows, perm, NormalizeHost(name));
  }

  lemma ZonesDiffer()
    ensures InZone("a. .", "a. .") && !InZone("a. .", NormalizeHost("a. ."))
  {
    hide NormalizeHost;
    var n := NormalizeHost("a. .");
    NormalizeHostCounterexample();
    NormalizeHostIdempotence("a. .");
    assert |NormalizeHost(n)| < |n|;
    JoinLabels(n);
    JoinLabels(NormalizeHost(n));
    CoversIsLabelSuffix(n, NormalizeHost(n));
  }
}
