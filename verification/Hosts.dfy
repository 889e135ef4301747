/** Canonical form of host names and of certificate requests
    (`normalize_host`, `normalize_request`). */
module Hosts {
  import opened Text

  function NormalizeHost(s: string): string {
    TrimDots(Lower(Trim(s)))
  }

  /** White space directly in front of the trailing dots, as in `"a. ."`. */
  ghost predicate SpaceBeforeDots(s: string) {
    exists i :: 0 <= i < |Trim(s)| && IsSpace(Trim(s)[i]) && AllDots(Trim(s)[i + 1..])
  }

  ghost predicate AllDots(s: string) {
    forall i :: 0 <= i < |s| ==> s[i] == '.'
  }

  lemma NormalizeHostShape(s: string)
    ensures NormalizeHost(s) == Lower(TrimDots(Trim(s)))
    ensures var n := NormalizeHost(s); n == "" || (!IsSpace(n[0]) && n[|n| - 1] != '.')
    ensures Lower(NormalizeHost(s)) == NormalizeHost(s)
  {
    TrimDotsLowerCommute(Trim(s));
  }

  lemma TrimIsIdentityOnInk(s: string)
    requires s == "" || (!IsSpace(s[0]) && !IsSpace(s[|s| - 1]))
    ensures Trim(s) == s
  {}

  /** On names without white space inside, normalising is the identity; otherwise it shortens them. */
  lemma NormalizeNormalized(n: string)
    requires Lower(n) == n && (n == "" || (!IsSpace(n[0]) && n[|n| - 1] != '.'))
    ensures NormalizeHost(n) == n <==> n == "" || !IsSpace(n[|n| - 1])
    ensures NormalizeHost(n) != n ==> |NormalizeHost(n)| < |n|
  {
    if n == "" || !IsSpace(n[|n| - 1]) {
      TrimIsIdentityOnInk(n);
    } else {
      assert TrimStart(n) == n;
      assert |Trim(n)| < |n|;
    }
  }

  lemma SpaceBeforeDotsMeaning(s: string)
    ensures var n := TrimDots(Trim(s)); SpaceBeforeDots(s) <==> n != "" && IsSpace(n[|n| - 1])
  {
    hide Trim;
    var t := Trim(s);
    var k := |TrimDots(t)|;
    if k > 0 && IsSpace(t[k - 1]) {
      assert AllDots(t[k - 1 + 1..]);
    }
    if SpaceBeforeDots(s) {
      var i :| 0 <= i < |t| && IsSpace(t[i]) && AllDots(t[i + 1..]);
      assert k > i;
      assert forall j :: i < j < |t| ==> t[j] == t[i + 1..][j - (i + 1)];
      assert k == i + 1;
      assert TrimDots(t)[k - 1] == t[i];
    }
  }

  /** `normalize_host` is idempotent on a name exactly when no white space precedes its trailing dots. */
  lemma NormalizeHostIdempotence(s: string)
    ensures NormalizeHost(NormalizeHost(s)) == NormalizeHost(s) <==> !SpaceBeforeDots(s)
    ensures NormalizeHost(NormalizeHost(s)) != NormalizeHost(s) ==>
              |NormalizeHost(NormalizeHost(s))| < |NormalizeHost(s)|
  {
    hide NormalizeHost, Trim, TrimDots, SpaceBeforeDots;
    NormalizeHostShape(s);
    SpaceBeforeDotsMeaning(s);
    NormalizeNormalized(NormalizeHost(s));
  }

  /** `"a. ."` normalises to `"a. "`, which is not a fixed point. */
  lemma NormalizeHostCounterexample()
    ensures NormalizeHost(NormalizeHost("a. .")) != NormalizeHost("a. .")
  {
    hide NormalizeHost, Trim;
    var s := "a. .";
    TrimIsIdentityOnInk(s);
    assert IsSpace(Trim(s)[2]) && AllDots(Trim(s)[2 + 1..]);
    NormalizeHostIdempotence(s);
  }

  // ── Requests ───────────────────────────────────────────────────────────────

  predicate Kept(cn: string, san: string) {
    NormalizeHost(san) != "" && NormalizeHost(san) != NormalizeHost(cn)
  }

  /** The names a request asks for besides its common name. */
  function OtherNames(cn: string, sans: seq<string>): set<string> {
    set s | s in sans && Kept(cn, s) :: NormalizeHost(s)
  }

  datatype Request = Request(cn: string, sans: seq<string>)

  /** The one sorted, duplicate-free list of a set of names. */
  function Sorted(names: seq<string>): (r: seq<string>)
    ensures StrictlySorted(r)
    ensures forall x :: x in r <==> x in names
  {
    if names == [] then [] else InsertName(names[0], Sorted(names[1..]))
  }

  function InsertName(x: string, s: seq<string>): (r: seq<string>)
    requires StrictlySorted(s)
    ensures StrictlySorted(r)
    ensures forall y :: y in r <==> y == x || y in s
    ensures s != [] && r != [] ==> r[0] == x || r[0] == s[0]
  {
    LessTrichotomy(x, if s == [] then "" else s[0]);
    if s == [] || Less(x, s[0]) then [x] + s
    else if x == s[0] then s
    else
      assert StrictlySorted(s[1..]);
      var r := [s[0]] + InsertName(x, s[1..]);
      assert forall i :: 0 < i < |r| - 1 ==> r[i] == r[1..][i - 1] && r[i + 1] == r[1..][i];
      r
  }

  function KeptNames(cn: string, sans: seq<string>): (r: seq<string>)
    ensures forall x :: x in r <==> x in OtherNames(cn, sans)
  {
    if sans == [] then [] else
      (if Kept(cn, sans[0]) then [NormalizeHost(sans[0])] else []) + KeptNames(cn, sans[1..])
  }

  /** What two requests have in common when the server treats them as the same certificate. */
  function Canonical(q: Request): Request {
    Request(NormalizeHost(q.cn), Sorted(KeptNames(q.cn, q.sans)))
  }

  /** The canonical form lists, in order and once, every normalised name that is neither empty nor the
      common name. */
  lemma CanonicalNames(q: Request, x: string)
    ensures Canonical(q).cn == NormalizeHost(q.cn) && StrictlySorted(Canonical(q).sans)
    ensures x in Canonical(q).sans <==>
            x != "" && x != NormalizeHost(q.cn) && exists i :: 0 <= i < |q.sans| && NormalizeHost(q.sans[i]) == x
  {
    hide NormalizeHost, Sorted, KeptNames;
    if x in Canonical(q).sans {
      var s :| s in q.sans && Kept(q.cn, s) && NormalizeHost(s) == x;
      var i :| 0 <= i < |q.sans| && q.sans[i] == s;
    }
    if i :| 0 <= i < |q.sans| && NormalizeHost(q.sans[i]) == x && x != "" && x != NormalizeHost(q.cn) {
      assert q.sans[i] in q.sans && Kept(q.cn, q.sans[i]);
    }
  }

  /** Two requests get the same canonical form exactly when their normalised common names
      and their sets of other names agree: order, case, dots and repetition never matter. */
  lemma CanonicalIsExact(p: Request, q: Request)
    ensures Canonical(p) == Canonical(q) <==>
            NormalizeHost(p.cn) == NormalizeHost(q.cn) && OtherNames(p.cn, p.sans) == OtherNames(q.cn, q.sans)
  {
    hide NormalizeHost, Sorted, KeptNames;
    var a, b := Canonical(p).sans, Canonical(q).sans;
    assert forall x :: x in a <==> x in OtherNames(p.cn, p.sans);
    assert forall x :: x in b <==> x in OtherNames(q.cn, q.sans);
    if OtherNames(p.cn, p.sans) == OtherNames(q.cn, q.sans) {
      SortedUnique(a, b);
    }
    if a == b {
      assert OtherNames(p.cn, p.sans) == OtherNames(q.cn, q.sans);
    }
  }

  /** A request whose every name that survives is safe to normalise twice. */
  ghost predicate Stable(q: Request) {
    !SpaceBeforeDots(q.cn) && forall s :: s in q.sans && Kept(q.cn, s) ==> !SpaceBeforeDots(s)
  }

  /** Canonicalising twice changes nothing exactly when the request is stable. */
  lemma CanonicalIdempotence(q: Request)
    ensures Canonical(Canonical(q)) == Canonical(q) <==> Stable(q)
  {
    hide NormalizeHost, Sorted, KeptNames, SpaceBeforeDots;
    var c := Canonical(q);
    NormalizeHostIdempotence(q.cn);
    forall s | s in q.sans { NormalizeHostIdempotence(s); }
    CanonicalIsExact(c, q);
    assert forall x :: x in c.sans <==> x in OtherNames(q.cn, q.sans);
    assert forall s :: s in q.sans && Kept(q.cn, s) ==> NormalizeHost(s) in c.sans;
    if Stable(q) {
      assert forall x :: x in c.sans ==> NormalizeHost(x) == x;
      assert OtherNames(c.cn, c.sans) == OtherNames(q.cn, q.sans);
    }
    if Canonical(c) == c {
      forall s | s in q.sans && Kept(q.cn, s) ensures !SpaceBeforeDots(s) {
        if SpaceBeforeDots(s) {
          UnstableNameHasLongerSource(q, NormalizeHost(s), TotalLength(c.sans));
        }
      }
    }
  }

  function TotalLength(names: seq<string>): (n: nat)
    ensures forall x :: x in names ==> |x| <= n
  {
    if names == [] then 0 else |names[0]| + TotalLength(names[1..])
  }

  /** In a canonical fixed point an unstable name would need an endless chain of ever longer ones. */
  lemma {:induction false} UnstableNameHasLongerSource(q: Request, x: string, bound: nat)
    requires var c := Canonical(q); Canonical(c) == c && x in c.sans
    requires NormalizeHost(x) != x
    requires forall y :: y in Canonical(q).sans ==> |y| <= bound
    ensures false
    decreases bound - |x|
  {
    hide NormalizeHost, Sorted, KeptNames, SpaceBeforeDots;
    var c := Canonical(q);
    assert x in OtherNames(c.cn, c.sans);
    var y :| y in c.sans && NormalizeHost(y) == x;
    assert y in OtherNames(q.cn, q.sans);
    var s :| s in q.sans && NormalizeHost(s) == y;
    NormalizeHostIdempotence(s);
    UnstableNameHasLongerSource(q, y, bound);
  }

  // ── The loop the server runs ───────────────────────────────────────────────

  /** Insertion sort standing for the standard library's in-place `sort`. */
  method Sort(v: seq<string>) returns (r: seq<string>)
    ensures forall i :: 0 <= i < |r| - 1 ==> !Less(r[i + 1], r[i])
    ensures forall x :: x in r <==> x in v
  {
    r := [];
    for n := 0 to |v|
      invariant forall i :: 0 <= i < |r| - 1 ==> !Less(r[i + 1], r[i])
      invariant forall x :: x in r <==> x in v[..n]
    {
      var k := 0;
      while k < |r| && !Less(v[n], r[k])
        invariant k <= |r|
        invariant k > 0 ==> !Less(v[n], r[k - 1])
      {
        k := k + 1;
      }
      ghost var before := r;
      assert before == before[..k] + before[k..] && v[..n + 1] == v[..n] + [v[n]];
      r := r[..k] + [v[n]] + r[k..];
      if k < |before| {
        LessTrichotomy(v[n], before[k]);
      }
      forall i | 0 <= i < |r| - 1 ensures !Less(r[i + 1], r[i]) {
        if i + 1 < k {
          assert !Less(before[i + 1], before[i]);
        } else if i > k {
          assert !Less(before[i], before[i - 1]);
        }
      }
    }
    assert v[..|v|] == v;
  }

  /** `Vec::dedup`: drops an element equal to the one kept just before it. */
  method Dedup(v: seq<string>) returns (r: seq<string>)
    requires forall i :: 0 <= i < |v| - 1 ==> !Less(v[i + 1], v[i])
    ensures StrictlySorted(r)
    ensures forall x :: x in r <==> x in v
  {
    r := [];
    for n := 0 to |v|
      invariant StrictlySorted(r)
      invariant forall x :: x in r <==> x in v[..n]
      invariant n == 0 ==> r == []
      invariant n > 0 ==> r != [] && r[|r| - 1] == v[n - 1]
    {
      if n == 0 || r[|r| - 1] != v[n] {
        if n > 0 {
          assert !Less(v[n - 1 + 1], v[n - 1]);
          LessTrichotomy(v[n - 1], v[n]);
        }
        ghost var kept := r;
        r := r + [v[n]];
        assert forall i :: 0 <= i < |r| - 1 ==> r[i] == kept[i];
      }
      assert v[..n + 1] == v[..n] + [v[n]];
    }
    assert v[..|v|] == v;
  }

  /** Normalise, filter, sort and dedup in one mutable vector: the result is the canonical form. */
  method NormalizeRequest(cn: string, sans: seq<string>) returns (cnN: string, sansN: seq<string>)
    ensures Request(cnN, sansN) == Canonical(Request(cn, sans))
  {
    hide NormalizeHost, Sorted, KeptNames;
    cnN := NormalizeHost(cn);
    sansN := [];
    for i := 0 to |sans|
      invariant forall x :: x in sansN <==> exists s :: s in sans[..i] && Kept(cn, s) && NormalizeHost(s) == x
    {
      var s := NormalizeHost(sans[i]);
      if s != "" && s != cnN {
        sansN := sansN + [s];
      }
      assert sans[..i + 1] == sans[..i] + [sans[i]];
    }
    assert sans[..|sans|] == sans;
    sansN := Sort(sansN);
    sansN := Dedup(sansN);
    SortedUnique(sansN, Sorted(KeptNames(cn, sans)));
  }
}
