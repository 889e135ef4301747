/** The iterative walk from the root hints to a name's authoritative servers, against servers
    that may answer anything at all. */
module DnsWalk {
  import opened Text

  /** An absolute name as its labels, leftmost first, compared case-insensitively by the DNS
      library: labels here are already folded. The root is the empty sequence. */
  type Name = seq<string>

  type Ip = nat

  datatype RType = NS | A | AAAA

  /** `EmptyNs` is a record of type NS without data. */
  datatype RData = Ns(target: Name) | EmptyNs | Address(ip: Ip) | Other

  datatype Record = Record(owner: Name, data: RData)

  datatype Message = Message(aa: bool, answers: seq<Record>, authority: seq<Record>, additionals: seq<Record>)

  datatype Delegation = Delegation(zone: Name, nsNames: seq<Name>, glue: seq<(Name, Ip)>)

  /** What the network answers to the n-th `query_any`; `None` when every server fails. */
  type Network = (nat, seq<Ip>, Name, RType) -> Option<Message>

  const MAX_DEPTH: nat := 12

  /** Stands for the 26 root addresses; only their being there matters. */
  const ROOT_HINTS: seq<Ip> := [0]

  predicate ZoneOf(zone: Name, name: Name) {
    |zone| <= |name| && name[|name| - |zone|..] == zone
  }

  // ── Reading a response ─────────────────────────────────────────────────────

  predicate IsNs(r: Record) {
    r.data.Ns? || r.data.EmptyNs?
  }

  /** The owner of the first NS record. */
  function FirstOwner(rs: seq<Record>): Option<Name> {
    if rs == [] then None else if IsNs(rs[0]) then Some(rs[0].owner) else FirstOwner(rs[1..])
  }

  predicate Names(r: Record, owner: Name) {
    r.data.Ns? && r.owner == owner
  }

  /** The servers that the NS records of one owner name. */
  function Targets(rs: seq<Record>, owner: Name): (names: seq<Name>)
    ensures |names| <= |rs|
  {
    if rs == [] then []
    else
      var last := rs[|rs| - 1];
      Targets(rs[..|rs| - 1], owner) + if Names(last, owner) then [last.data.target] else []
  }

  /** The NS set of one section, if it has one for a zone the name is in. */
  function SectionNs(section: seq<Record>, name: Name): (r: Option<(Name, seq<Name>)>)
    ensures r.Some? ==> r.value.1 != [] && ZoneOf(r.value.0, name) && |r.value.1| <= |section|
  {
    var owner := FirstOwner(section);
    if owner.None? then None
    else
      var names := Targets(section, owner.value);
      if names != [] && ZoneOf(owner.value, name) then Some((owner.value, names)) else None
  }

  function NsRrset(resp: Message, name: Name): (r: Option<(Name, seq<Name>)>)
    ensures r.Some? ==> r.value.1 != [] && ZoneOf(r.value.0, name)
    ensures r.Some? ==> |r.value.1| <= |resp.answers| || |r.value.1| <= |resp.authority|
  {
    var fromAnswers := SectionNs(resp.answers, name);
    if fromAnswers.Some? then fromAnswers else SectionNs(resp.authority, name)
  }

  function GlueFor(additionals: seq<Record>, nsNames: seq<Name>): (glue: seq<(Name, Ip)>)
    ensures forall g :: g in glue ==> g.0 in nsNames
  {
    if additionals == [] then []
    else
      var r := additionals[0];
      var rest := GlueFor(additionals[1..], nsNames);
      if r.data.Address? && r.owner in nsNames then [(r.owner, r.data.ip)] + rest else rest
  }

  /** The glue is every address of a named server, and nothing else. */
  lemma {:induction false} GlueIsExact(additionals: seq<Record>, nsNames: seq<Name>, ns: Name, ip: Ip)
    ensures (ns, ip) in GlueFor(additionals, nsNames) <==> ns in nsNames && Record(ns, Address(ip)) in additionals
  {
    if additionals != [] {
      GlueIsExact(additionals[1..], nsNames, ns, ip);
      assert additionals == [additionals[0]] + additionals[1..];
    }
  }

  function Ips(glue: seq<(Name, Ip)>): (r: seq<Ip>)
    ensures |r| == |glue|
  {
    seq(|glue|, i requires 0 <= i < |glue| => glue[i].1)
  }

  function Addresses(rs: seq<Record>): seq<Ip> {
    if rs == [] then [] else (if rs[0].data.Address? then [rs[0].data.ip] else []) + Addresses(rs[1..])
  }

  /** `sort` and `dedup` of an address list. */
  function SortedIps(ips: seq<Ip>): seq<Ip> {
    if ips == [] then [] else InsertIp(ips[0], SortedIps(ips[1..]))
  }

  function InsertIp(x: Ip, s: seq<Ip>): seq<Ip> {
    if s == [] || x < s[0] then [x] + s else if x == s[0] then s else [s[0]] + InsertIp(x, s[1..])
  }

  // ── The walk as a function of the network ──────────────────────────────────

  function Fuel(depth: nat): nat {
    if depth > MAX_DEPTH then 0 else MAX_DEPTH + 1 - depth
  }

  function Ask(net: Network, t: nat, servers: seq<Ip>, name: Name, rtype: RType): Option<Message> {
    if servers == [] then None else net(t, servers, name, rtype)
  }

  /** What one response does to the walk. */
  datatype Verdict =
    | Stop                          // keep the delegation found so far
    | Final(deleg: Delegation)      // the zone's own apex: take it and stop
    | Refer(deleg: Delegation)      // take it and descend

  function Judge(resp: Option<Message>, name: Name, best: Option<Delegation>): (v: Verdict)
    ensures !v.Stop? ==> ZoneOf(v.deleg.zone, name) && v.deleg.nsNames != []
    ensures v.Refer? && best.Some? ==> |best.value.zone| < |v.deleg.zone|
    ensures !v.Stop? ==> resp.Some? && NsRrset(resp.value, name) == Some((v.deleg.zone, v.deleg.nsNames))
  {
    if resp.None? then Stop
    else
      var nsSet := NsRrset(resp.value, name);
      if nsSet.None? then Stop else JudgeNs(nsSet.value.0, nsSet.value.1, resp.value, name, best)
  }

  function JudgeNs(owner: Name, names: seq<Name>, resp: Message, name: Name, best: Option<Delegation>): (v: Verdict)
    requires ZoneOf(owner, name)
    ensures !v.Stop? ==> v.deleg.zone == owner && v.deleg.nsNames == names
    ensures v.Refer? && best.Some? ==> |best.value.zone| < |owner|
  {
    if !ZoneOf(owner, name) || (best.Some? && !ZoneOf(best.value.zone, owner)) then Stop
    else
      var d := Delegation(owner, names, GlueFor(resp.additionals, names));
      if (best.Some? && best.value.zone == owner) || (resp.aa && resp.answers != []) then Final(d)
      else
        assert owner[0..] == owner;
        Refer(d)
  }

  /** `delegation_for`, returning also the number of queries sent so far. */
  function DelegationFor(net: Network, t: nat, name: Name, depth: nat): (r: (Option<Delegation>, nat))
    ensures r.0.Some? ==> ZoneOf(r.0.value.zone, name) && r.0.value.nsNames != []
    decreases Fuel(depth), 1, 0
  {
    if depth > MAX_DEPTH then (None, t) else Walk(net, t, name, depth, MAX_DEPTH, ROOT_HINTS, None)
  }

  /** The referral loop with `hops` iterations to go. */
  function Walk(net: Network, t: nat, name: Name, depth: nat, hops: nat, servers: seq<Ip>, best: Option<Delegation>)
    : (r: (Option<Delegation>, nat))
    requires depth <= MAX_DEPTH
    ensures best.Some? ==> r.0.Some?
    ensures r.0.Some? ==> r.0 == best || (ZoneOf(r.0.value.zone, name) && r.0.value.nsNames != [])
    decreases Fuel(depth), 0, hops + 1
  {
    if hops == 0 then (best, t)
    else
      match Judge(Ask(net, t, servers, name, NS), name, best)
      case Stop => (best, t + 1)
      case Final(d) => (Some(d), t + 1)
      case Refer(d) =>
        var (next, t1) := NextServers(net, t + 1, d, depth);
        if next == [] then (Some(d), t1) else Walk(net, t1, name, depth, hops - 1, next, Some(d))
  }

  /** Where a delegation leads: its glue, or else its servers' own addresses. */
  function NextServers(net: Network, t: nat, d: Delegation, depth: nat): (seq<Ip>, nat)
    requires depth <= MAX_DEPTH
    decreases Fuel(depth), 0, 0
  {
    if d.glue != [] then (Ips(d.glue), t) else FirstResolved(net, t, d.nsNames, depth + 1)
  }

  /** Addresses of the first name server that resolves to any. */
  function FirstResolved(net: Network, t: nat, names: seq<Name>, depth: nat): (seq<Ip>, nat)
    decreases Fuel(depth), 3, |names|
  {
    if names == [] then ([], t)
    else
      var (ips, t1) := ResolveHost(net, t, names[0], depth);
      if ips.Some? && ips.value != [] then (ips.value, t1) else FirstResolved(net, t1, names[1..], depth)
  }

  function ResolveHost(net: Network, t: nat, name: Name, depth: nat): (Option<seq<Ip>>, nat)
    decreases Fuel(depth), 2, 0
  {
    if depth > MAX_DEPTH then (None, t)
    else
      var (deleg, t1) := DelegationFor(net, t, name, depth);
      if deleg.None? then (None, t1)
      else
        var (servers, t2) := NextServers(net, t1, deleg.value, depth);
        if servers == [] then (None, t2)
        else
          var a, aaaa := Ask(net, t2, servers, name, A), Ask(net, t2 + 1, servers, name, AAAA);
          (Some(SortedIps(AnswerIps(a) + AnswerIps(aaaa))), t2 + 2)
  }

  function AnswerIps(resp: Option<Message>): seq<Ip> {
    if resp.Some? then Addresses(resp.value.answers) else []
  }

  // ── The loops the server runs ──────────────────────────────────────────────

  class Resolver {
    const net: Network
    var asked: nat

    method QueryAny(servers: seq<Ip>, name: Name, rtype: RType) returns (resp: Option<Message>)
      modifies this`asked
      ensures resp == Ask(net, old(asked), servers, name, rtype) && asked == old(asked) + 1
    {
      resp := if servers == [] then None else net(asked, servers, name, rtype);
      asked := asked + 1;
    }

    /** Terminates whatever the servers say: either the depth grows towards its limit, or the
        hop counter does. */
    method WalkDelegation(name: Name, depth: nat) returns (r: Option<Delegation>)
      modifies this`asked
      ensures (r, asked) == DelegationFor(net, old(asked), name, depth)
      decreases Fuel(depth), 1, 0
    {
      if depth > MAX_DEPTH {
        return None;
      }
      var servers := ROOT_HINTS;
      r := None;
      var hop := 0;
      while hop < MAX_DEPTH
        invariant hop <= MAX_DEPTH
        invariant Walk(net, asked, name, depth, MAX_DEPTH - hop, servers, r)
                  == DelegationFor(net, old(asked), name, depth)
        decreases MAX_DEPTH - hop
      {
        var resp := QueryAny(servers, name, NS);
        var verdict := Judge(resp, name, r);
        if verdict.Stop? {
          break;
        }
        r := Some(verdict.deleg);
        if verdict.Final? {
          break;
        }
        var next := Ips(verdict.deleg.glue);
        if next == [] {
          next := ResolveFirst(verdict.deleg.nsNames, depth + 1);
        }
        if next == [] {
          break;
        }
        servers := next;
        hop := hop + 1;
      }
    }

    method ResolveFirst(names: seq<Name>, depth: nat) returns (ips: seq<Ip>)
      modifies this`asked
      ensures (ips, asked) == FirstResolved(net, old(asked), names, depth)
      decreases Fuel(depth), 3, 0
    {
      hide ResolveHost;
      ips := [];
      var i := 0;
      assert names[i..] == names;
      while i < |names|
        invariant i <= |names| && ips == []
        invariant FirstResolved(net, asked, names[i..], depth) == FirstResolved(net, old(asked), names, depth)
        decreases |names| - i
      {
        assert names[i..][0] == names[i] && names[i..][1..] == names[i + 1..];
        var found := Resolve(names[i], depth);
        if found.Some? {
          assert ips + found.value == found.value;
          ips := ips + found.value;
          if ips != [] {
            break;
          }
        }
        i := i + 1;
      }
      assert i == |names| ==> names[i..] == [];
    }

    method Resolve(name: Name, depth: nat) returns (r: Option<seq<Ip>>)
      modifies this`asked
      ensures (r, asked) == ResolveHost(net, old(asked), name, depth)
      decreases Fuel(depth), 2, 0
    {
      hide DelegationFor, FirstResolved, SortedIps, AnswerIps;
      if depth > MAX_DEPTH {
        return None;
      }
      var deleg := WalkDelegation(name, depth);
      if deleg.None? {
        return None;
      }
      var servers := Ips(deleg.value.glue);
      if servers == [] {
        servers := ResolveFirst(deleg.value.nsNames, depth + 1);
      }
      if servers == [] {
        return None;
      }
      var a := QueryAny(servers, name, A);
      var aaaa := QueryAny(servers, name, AAAA);
      r := Some(SortedIps(AnswerIps(a) + AnswerIps(aaaa)));
    }

    /** `authoritative_servers`: every address found for a server of the delegation, glued or
        resolved, once, under the first server it was found for. */
    method AuthoritativeServers(name: Name) returns (out: seq<(Name, Ip)>)
      modifies this`asked
      ensures (out, asked) == Servers(net, old(asked), name)
    {
      hide DelegationFor, ResolveHost, HostIps;
      out := [];
      var deleg := WalkDelegation(name, 0);
      if deleg.None? {
        return;
      }
      ghost var start := asked;
      var nsNames, glue := deleg.value.nsNames, deleg.value.glue;
      assert nsNames[0..] == nsNames;
      for i := 0 to |nsNames|
        invariant NoIpTwice(out)
        invariant Located(net, asked, nsNames[i..], glue, out) == Located(net, start, nsNames, glue, [])
      {
        assert nsNames[i..][0] == nsNames[i] && nsNames[i..][1..] == nsNames[i + 1..];
        var ips := ServerIps(glue, nsNames[i]);
        out := AddNew(out, nsNames[i], ips);
      }
    }

    /** The addresses of one server: its glue, or else what it resolves to. */
    method ServerIps(glue: seq<(Name, Ip)>, ns: Name) returns (ips: seq<Ip>)
      modifies this`asked
      ensures (ips, asked) == HostIps(net, old(asked), glue, ns)
    {
      hide ResolveHost;
      ips := GluedIps(glue, ns);
      if ips == [] {
        var found := Resolve(ns, 1);
        ips := if found.Some? then found.value else [];
      }
    }
  }

  // ── The servers of a delegation ────────────────────────────────────────────

  function HostIps(net: Network, t: nat, glue: seq<(Name, Ip)>, ns: Name): (seq<Ip>, nat) {
    if GluedIps(glue, ns) != [] then (GluedIps(glue, ns), t)
    else
      var (found, t1) := ResolveHost(net, t, ns, 1);
      (if found.Some? then found.value else [], t1)
  }

  /** The servers of a name, each address under the first server that has it; none when the walk
      fails. With it the number of queries sent so far. */
  function Servers(net: Network, t: nat, name: Name): (seq<(Name, Ip)>, nat) {
    var (deleg, t1) := DelegationFor(net, t, name, 0);
    if deleg.None? then ([], t1) else Located(net, t1, deleg.value.nsNames, deleg.value.glue, [])
  }

  ghost predicate NoIpTwice(out: seq<(Name, Ip)>) {
    forall i, j :: 0 <= i < j < |out| ==> out[i].1 != out[j].1
  }

  /** Discovery lists no address twice. */
  lemma ServersDiffer(net: Network, t: nat, name: Name)
    ensures NoIpTwice(Servers(net, t, name).0)
  {
    hide Located;
    var (deleg, t1) := DelegationFor(net, t, name, 0);
    if deleg.Some? {
      LocatedDiffer(net, t1, deleg.value.nsNames, deleg.value.glue, []);
    }
  }

  lemma {:induction false} LocatedDiffer(net: Network, t: nat, nsNames: seq<Name>, glue: seq<(Name, Ip)>,
                                         out: seq<(Name, Ip)>)
    requires NoIpTwice(out)
    ensures NoIpTwice(Located(net, t, nsNames, glue, out).0)
    decreases |nsNames|
  {
    hide HostIps, Appended;
    if nsNames != [] {
      var (ips, t1) := HostIps(net, t, glue, nsNames[0]);
      AppendedDiffer(out, nsNames[0], ips);
      LocatedDiffer(net, t1, nsNames[1..], glue, Appended(out, nsNames[0], ips));
    }
  }

  lemma {:induction false} AppendedDiffer(out: seq<(Name, Ip)>, ns: Name, ips: seq<Ip>)
    requires NoIpTwice(out)
    ensures NoIpTwice(Appended(out, ns, ips))
    decreases |ips|
  {
    if ips != [] {
      var more := if exists p :: p in out && p.1 == ips[0] then out else out + [(ns, ips[0])];
      assert forall i :: 0 <= i < |out| ==> out[i] in out;
      AppendedDiffer(more, ns, ips[1..]);
    }
  }

  function Located(net: Network, t: nat, nsNames: seq<Name>, glue: seq<(Name, Ip)>, out: seq<(Name, Ip)>)
    : (seq<(Name, Ip)>, nat)
    decreases |nsNames|
  {
    if nsNames == [] then (out, t)
    else
      var (ips, t1) := HostIps(net, t, glue, nsNames[0]);
      Located(net, t1, nsNames[1..], glue, Appended(out, nsNames[0], ips))
  }

  function Appended(out: seq<(Name, Ip)>, ns: Name, ips: seq<Ip>): seq<(Name, Ip)>
    decreases |ips|
  {
    if ips == [] then out
    else Appended(if exists p :: p in out && p.1 == ips[0] then out else out + [(ns, ips[0])], ns, ips[1..])
  }

  /** Whether address `ip` is found for a server called `ns`, in the course of asking for all. */
  predicate FoundFor(net: Network, t: nat, nsNames: seq<Name>, glue: seq<(Name, Ip)>, ns: Name, ip: Ip)
    decreases |nsNames|
  {
    nsNames != [] &&
    var (ips, t1) := HostIps(net, t, glue, nsNames[0]);
    (ns == nsNames[0] && ip in ips) || FoundFor(net, t1, nsNames[1..], glue, ns, ip)
  }

  /** Whether it is found for any. */
  predicate Found(net: Network, t: nat, nsNames: seq<Name>, glue: seq<(Name, Ip)>, ip: Ip)
    decreases |nsNames|
  {
    nsNames != [] &&
    var (ips, t1) := HostIps(net, t, glue, nsNames[0]);
    ip in ips || Found(net, t1, nsNames[1..], glue, ip)
  }

  lemma {:induction false} AppendedLists(out: seq<(Name, Ip)>, ns: Name, ips: seq<Ip>, p: (Name, Ip))
    ensures p in out ==> p in Appended(out, ns, ips)
    ensures p in Appended(out, ns, ips) ==> p in out || (p.0 == ns && p.1 in ips)
    ensures Listed(Appended(out, ns, ips), p.1) <==> Listed(out, p.1) || p.1 in ips
    decreases |ips|
  {
    if ips != [] {
      var more := if exists q :: q in out && q.1 == ips[0] then out else out + [(ns, ips[0])];
      AppendedLists(more, ns, ips[1..], p);
      assert ips == [ips[0]] + ips[1..];
      ListedIn(out, p.1);
      ListedIn(more, p.1);
    }
  }

  lemma ListedIn(out: seq<(Name, Ip)>, ip: Ip)
    ensures Listed(out, ip) <==> exists p :: p in out && p.1 == ip
  {
    if Listed(out, ip) {
      var i :| 0 <= i < |out| && out[i].1 == ip;
      assert out[i] in out;
    }
  }

  /** What discovery returns: an address is listed exactly when it was found for some server of
      the delegation, and always under a server it was found for. */
  lemma {:induction false} LocatedIsExact(net: Network, t: nat, nsNames: seq<Name>, glue: seq<(Name, Ip)>,
                                          out: seq<(Name, Ip)>, p: (Name, Ip))
    ensures var all := Located(net, t, nsNames, glue, out).0;
            && (Listed(all, p.1) <==> Listed(out, p.1) || Found(net, t, nsNames, glue, p.1))
            && (p in out ==> p in all)
            && (p in all ==> p in out || FoundFor(net, t, nsNames, glue, p.0, p.1))
    decreases |nsNames|
  {
    hide HostIps, Appended, Listed;
    if nsNames != [] {
      var (ips, t1) := HostIps(net, t, glue, nsNames[0]);
      AppendedLists(out, nsNames[0], ips, p);
      LocatedIsExact(net, t1, nsNames[1..], glue, Appended(out, nsNames[0], ips), p);
    }
  }

  ghost predicate Listed(out: seq<(Name, Ip)>, ip: Ip) {
    exists i :: 0 <= i < |out| && out[i].1 == ip
  }

  /** Appends the addresses not listed yet. */
  method AddNew(before: seq<(Name, Ip)>, ns: Name, ips: seq<Ip>) returns (out: seq<(Name, Ip)>)
    requires NoIpTwice(before)
    ensures NoIpTwice(out)
    ensures forall p :: p in out ==> p in before || (p.0 == ns && p.1 in ips)
    ensures forall ip :: Listed(out, ip) <==> Listed(before, ip) || ip in ips
    ensures out == Appended(before, ns, ips)
  {
    out := before;
    assert ips[0..] == ips;
    for k := 0 to |ips|
      invariant forall i, j :: 0 <= i < j < |out| ==> out[i].1 != out[j].1
      invariant Appended(out, ns, ips[k..]) == Appended(before, ns, ips)
    {
      assert ips[k..][0] == ips[k] && ips[k..][1..] == ips[k + 1..];
      if forall p :: p in out ==> p.1 != ips[k] {
        out := out + [(ns, ips[k])];
      }
    }
    forall p ensures p in out ==> p in before || (p.0 == ns && p.1 in ips) { AppendedLists(before, ns, ips, p); }
    forall ip ensures Listed(out, ip) <==> Listed(before, ip) || ip in ips { AppendedLists(before, ns, ips, (ns, ip)); }
  }

  function GluedIps(glue: seq<(Name, Ip)>, ns: Name): (r: seq<Ip>)
    ensures forall ip :: ip in r <==> (ns, ip) in glue
  {
    if glue == [] then [] else (if glue[0].0 == ns then [glue[0].1] else []) + GluedIps(glue[1..], ns)
  }

  // ── What the walk finds, over the replies ──────────────────────────────────

  /** `names` are the targets of the owner's NS records in the order of the section; `at` says where. */
  ghost predicate InOrder(section: seq<Record>, owner: Name, names: seq<Name>, at: seq<nat>) {
    && |at| == |names|
    && (forall i :: 0 <= i < |at| ==> at[i] < |section| && section[at[i]] == Record(owner, Ns(names[i])))
    && (forall i, j :: 0 <= i < j < |at| ==> at[i] < at[j])
    && (forall k :: 0 <= k < |section| && Names(section[k], owner) ==> k in at)
  }

  ghost predicate FirstNs(section: seq<Record>, k: nat) {
    k < |section| && IsNs(section[k]) && forall i :: 0 <= i < k ==> !IsNs(section[i])
  }

  lemma OneRecordMore(section: seq<Record>, r: Record, owner: Name, names: seq<Name>, at: seq<nat>)
    requires InOrder(section, owner, names, at)
    ensures Names(r, owner) ==> InOrder(section + [r], owner, names + [r.data.target], at + [|section|])
    ensures !Names(r, owner) ==> InOrder(section + [r], owner, names, at)
  {
    var more := at + [|section|];
    assert forall k :: k in at ==> k in more;
    assert more[|at|] == |section|;
  }

  lemma {:induction false} TargetsInOrder(section: seq<Record>, owner: Name) returns (at: seq<nat>)
    ensures InOrder(section, owner, Targets(section, owner), at)
  {
    at := [];
    if section != [] {
      var last := |section| - 1;
      at := TargetsInOrder(section[..last], owner);
      assert section == section[..last] + [section[last]];
      hide InOrder;
      OneRecordMore(section[..last], section[last], owner, Targets(section[..last], owner), at);
      if Names(section[last], owner) {
        at := at + [last];
      }
    }
  }

  lemma {:induction false} FirstOwnerIsFirst(section: seq<Record>) returns (k: nat)
    ensures FirstOwner(section).Some? <==> exists i :: 0 <= i < |section| && IsNs(section[i])
    ensures FirstOwner(section).Some? ==> FirstNs(section, k) && FirstOwner(section) == Some(section[k].owner)
  {
    k := 0;
    if section != [] && !IsNs(section[0]) {
      var later := FirstOwnerIsFirst(section[1..]);
      k := later + 1;
      forall i | 1 <= i < |section| ensures section[1..][i - 1] == section[i] {}
    }
  }

  /** A section offers a set: it is the set of the owner of the first NS record, in order, and the
      name is in that owner's zone. */
  ghost predicate Offers(section: seq<Record>, name: Name, owner: Name, names: seq<Name>) {
    && (exists k: nat :: FirstNs(section, k) && section[k].owner == owner)
    && names != [] && ZoneOf(owner, name)
    && exists at :: InOrder(section, owner, names, at)
  }

  lemma SectionNsIsExact(section: seq<Record>, name: Name, owner: Name, names: seq<Name>)
    ensures SectionNs(section, name) == Some((owner, names)) <==> Offers(section, name, owner, names)
  {
    var k := FirstOwnerIsFirst(section);
    var at := TargetsInOrder(section, owner);
    if Offers(section, name, owner, names) {
      var i: nat :| FirstNs(section, i) && section[i].owner == owner;
      assert i == k;
      var there :| InOrder(section, owner, names, there);
      OneOrder(section, owner, names, there, Targets(section, owner), at);
    }
  }

  /** The targets in order are determined. */
  lemma {:induction false} OneOrder(section: seq<Record>, owner: Name, a: seq<Name>, at: seq<nat>, b: seq<Name>,
                                    bt: seq<nat>)
    requires InOrder(section, owner, a, at) && InOrder(section, owner, b, bt)
    ensures a == b
  {
    Increasing(at, bt);
  }

  lemma {:induction false} Increasing(a: seq<nat>, b: seq<nat>)
    requires forall i, j :: 0 <= i < j < |a| ==> a[i] < a[j]
    requires forall i, j :: 0 <= i < j < |b| ==> b[i] < b[j]
    requires forall x :: x in a <==> x in b
    ensures a == b
  {
    assert (a != [] ==> a[0] in b) && (b != [] ==> b[0] in a);
    if a != [] && b != [] {
      assert a[0] == b[0];
      LaterIsLarger(a);
      LaterIsLarger(b);
      Increasing(a[1..], b[1..]);
      assert a == [a[0]] + a[1..] && b == [b[0]] + b[1..];
    }
  }

  lemma LaterIsLarger(a: seq<nat>)
    requires a != [] && forall i, j :: 0 <= i < j < |a| ==> a[i] < a[j]
    ensures forall x :: x in a[1..] <==> x in a && x != a[0]
  {
    forall x | x in a && x != a[0] ensures x in a[1..] {
      var i :| 0 <= i < |a| && a[i] == x;
      assert a[1..][i - 1] == x;
    }
  }

  /** A reply offers the set of its answers if they have one, and otherwise that of its authority
      section. */
  ghost predicate ReplyOffers(resp: Message, name: Name, owner: Name, names: seq<Name>) {
    || Offers(resp.answers, name, owner, names)
    || (Offers(resp.authority, name, owner, names) && forall o, ns :: !Offers(resp.answers, name, o, ns))
  }

  lemma NsRrsetIsExact(resp: Message, name: Name, owner: Name, names: seq<Name>)
    ensures NsRrset(resp, name) == Some((owner, names)) <==> ReplyOffers(resp, name, owner, names)
  {
    hide SectionNs, Offers;
    var answers := SectionNs(resp.answers, name);
    SectionNsIsExact(resp.answers, name, owner, names);
    SectionNsIsExact(resp.authority, name, owner, names);
    forall o, ns ensures answers == Some((o, ns)) <==> Offers(resp.answers, name, o, ns) {
      SectionNsIsExact(resp.answers, name, o, ns);
    }
    if answers.Some? {
      assert answers == Some((answers.value.0, answers.value.1));
    }
  }

  /** What a reply must be for its delegation to be followed. */
  ghost predicate Accepted(resp: Option<Message>, name: Name, best: Option<Delegation>, d: Delegation) {
    && resp.Some? && ReplyOffers(resp.value, name, d.zone, d.nsNames)
    && (best.Some? ==> ZoneOf(best.value.zone, d.zone))
    && d.glue == GlueFor(resp.value.additionals, d.nsNames)
  }

  /** And for it to be the last one. */
  predicate IsLast(resp: Option<Message>, best: Option<Delegation>, d: Delegation) {
    (best.Some? && best.value.zone == d.zone) || (resp.Some? && resp.value.aa && resp.value.answers != [])
  }

  lemma JudgeIsExact(resp: Option<Message>, name: Name, best: Option<Delegation>)
    ensures var v := Judge(resp, name, best);
            && (v.Stop? <==> forall d :: !Accepted(resp, name, best, d))
            && (!v.Stop? ==> Accepted(resp, name, best, v.deleg) && (v.Final? <==> IsLast(resp, best, v.deleg)))
  {
    hide ReplyOffers, NsRrset, GlueFor, ZoneOf;
    if resp.Some? {
      forall owner, names
        ensures NsRrset(resp.value, name) == Some((owner, names)) <==> ReplyOffers(resp.value, name, owner, names)
      {
        NsRrsetIsExact(resp.value, name, owner, names);
      }
      var nsSet := NsRrset(resp.value, name);
      if nsSet.Some? {
        var (owner, names) := nsSet.value;
        assert ReplyOffers(resp.value, name, owner, names);
        var d := Delegation(owner, names, GlueFor(resp.value.additionals, names));
        assert Accepted(resp, name, best, d) <==> best.None? || ZoneOf(best.value.zone, owner);
        forall e | Accepted(resp, name, best, e) ensures e == d {}
      }
    }
  }

  /** One accepted reply: the number of its query, who was asked, and what was accepted. */
  datatype Hop = Hop(at: nat, servers: seq<Ip>, deleg: Delegation)

  function BestAfter(hops: seq<Hop>, i: nat): Option<Delegation>
    requires i <= |hops|
  {
    if i == 0 then None else Some(hops[i - 1].deleg)
  }

  /** The next query: from the root hints first, then to where the last delegation leads. */
  function NextQuery(net: Network, t: nat, depth: nat, hops: seq<Hop>): (q: (seq<Ip>, nat))
    requires depth <= MAX_DEPTH
  {
    if hops == [] then (ROOT_HINTS, t)
    else NextServers(net, hops[|hops| - 1].at + 1, hops[|hops| - 1].deleg, depth)
  }

  /** Accepted replies from the root down, each asked for where the one before leads. */
  ghost predicate Descent(net: Network, t: nat, name: Name, depth: nat, hops: seq<Hop>)
    requires depth <= MAX_DEPTH
  {
    forall i :: 0 <= i < |hops| ==>
      var resp := Ask(net, hops[i].at, hops[i].servers, name, NS);
      && (hops[i].servers, hops[i].at) == NextQuery(net, t, depth, hops[..i])
      && hops[i].servers != []
      && Accepted(resp, name, BestAfter(hops, i), hops[i].deleg)
      && (i < |hops| - 1 ==> !IsLast(resp, BestAfter(hops, i), hops[i].deleg))
  }

  /** Why a descent goes no further, and the queries sent by then. */
  ghost predicate Ended(net: Network, t: nat, name: Name, depth: nat, hops: seq<Hop>, limit: nat, sent: nat)
    requires depth <= MAX_DEPTH
  {
    var (servers, next) := NextQuery(net, t, depth, hops);
    var n := |hops| - 1;
    if n >= 0 && IsLast(Ask(net, hops[n].at, hops[n].servers, name, NS), BestAfter(hops, n), hops[n].deleg) then
      sent == hops[n].at + 1
    else if servers == [] || |hops| == limit then sent == next
    else sent == next + 1 && forall d :: !Accepted(Ask(net, next, servers, name, NS), name, BestAfter(hops, |hops|), d)
  }

  /** A descent within the limit that could go no further, the last delegation of which is the result. */
  ghost predicate LedTo(net: Network, t: nat, name: Name, depth: nat, hops: seq<Hop>, limit: nat,
                        walked: (Option<Delegation>, nat))
    requires depth <= MAX_DEPTH
  {
    && |hops| <= limit && Descent(net, t, name, depth, hops)
    && walked.0 == BestAfter(hops, |hops|) && Ended(net, t, name, depth, hops, limit, walked.1)
  }

  /** On every network the walk returns the delegation of the last reply of a descent that went as
      far as it could within the limit, after the queries it took; nothing if no reply was accepted. */
  lemma WalkIsDescent(net: Network, t: nat, name: Name, depth: nat) returns (hops: seq<Hop>)
    requires depth <= MAX_DEPTH
    ensures LedTo(net, t, name, depth, hops, MAX_DEPTH, DelegationFor(net, t, name, depth))
  {
    hops := WithinLimit(net, t, name, depth, MAX_DEPTH);
    hide *;
    WalkFromRoot(net, t, name, depth);
  }

  lemma WalkFromRoot(net: Network, t: nat, name: Name, depth: nat)
    requires depth <= MAX_DEPTH
    ensures DelegationFor(net, t, name, depth) == Walk(net, t, name, depth, MAX_DEPTH, ROOT_HINTS, None)
  {
    hide Walk;
  }

  lemma WithinLimit(net: Network, t: nat, name: Name, depth: nat, limit: nat) returns (hops: seq<Hop>)
    requires depth <= MAX_DEPTH
    ensures LedTo(net, t, name, depth, hops, limit, Walk(net, t, name, depth, limit, ROOT_HINTS, None))
  {
    hide *;
    StartOfDescent(net, t, name, depth);
    hops := WalkOn(net, t, name, depth, [], limit);
  }

  lemma StartOfDescent(net: Network, t: nat, name: Name, depth: nat)
    requires depth <= MAX_DEPTH
    ensures Descent(net, t, name, depth, []) && BestAfter([], 0) == None
    ensures NextQuery(net, t, depth, []) == (ROOT_HINTS, t) && ROOT_HINTS != []
  {
    hide Accepted, IsLast, NextServers, Judge, Ask, Walk;
  }

  lemma {:induction false} WalkOn(net: Network, t: nat, name: Name, depth: nat, before: seq<Hop>, limit: nat)
      returns (hops: seq<Hop>)
    requires depth <= MAX_DEPTH && |before| <= limit && Descent(net, t, name, depth, before)
    requires var (servers, next) := NextQuery(net, t, depth, before); servers != []
    requires before != [] ==> var n := |before| - 1;
               !IsLast(Ask(net, before[n].at, before[n].servers, name, NS), BestAfter(before, n), before[n].deleg)
    ensures var (servers, next) := NextQuery(net, t, depth, before);
            LedTo(net, t, name, depth, hops, limit,
                  Walk(net, next, name, depth, limit - |before|, servers, BestAfter(before, |before|)))
    decreases limit - |before|
  {
    hide Accepted, IsLast, NextServers, Judge, Ask, Walk, Descent, Ended, NextQuery, BestAfter;
    hops := before;
    var (servers, next) := NextQuery(net, t, depth, before);
    var best := BestAfter(before, |before|);
    WalkOnce(net, next, name, depth, limit - |before|, servers, best);
    if |before| < limit {
      var resp := Ask(net, next, servers, name, NS);
      JudgeIsExact(resp, name, best);
      var v := Judge(resp, name, best);
      if v.Stop? {
        EndsUnaccepted(net, t, name, depth, hops, limit);
      } else {
        hops := before + [Hop(next, servers, v.deleg)];
        OneHopFurther(net, t, name, depth, before, hops[|before|]);
        AfterHop(net, t, depth, before, hops[|before|]);
        if v.Final? {
          EndsAtLast(net, t, name, depth, hops, limit);
        } else if NextServers(net, next + 1, v.deleg, depth).0 == [] {
          EndsUnasked(net, t, name, depth, hops, limit);
        } else {
          hops := WalkOn(net, t, name, depth, hops, limit);
        }
      }
    } else {
      EndsUnasked(net, t, name, depth, hops, limit);
    }
  }

  /** One iteration of the loop. */
  lemma WalkOnce(net: Network, t: nat, name: Name, depth: nat, hops: nat, servers: seq<Ip>, best: Option<Delegation>)
    requires depth <= MAX_DEPTH
    ensures var w := Walk(net, t, name, depth, hops, servers, best);
            if hops == 0 then w == (best, t)
            else
              var v := Judge(Ask(net, t, servers, name, NS), name, best);
              if v.Stop? then w == (best, t + 1)
              else if v.Final? then w == (Some(v.deleg), t + 1)
              else
                var (next, t1) := NextServers(net, t + 1, v.deleg, depth);
                w == if next == [] then (Some(v.deleg), t1)
                     else Walk(net, t1, name, depth, hops - 1, next, Some(v.deleg))
  {
    hide Judge, Ask, NextServers;
  }

  lemma AfterHop(net: Network, t: nat, depth: nat, before: seq<Hop>, h: Hop)
    requires depth <= MAX_DEPTH
    ensures var hops := before + [h];
            && BestAfter(hops, |before|) == BestAfter(before, |before|) && BestAfter(hops, |hops|) == Some(h.deleg)
            && NextQuery(net, t, depth, hops) == NextServers(net, h.at + 1, h.deleg, depth)
  {
    hide NextServers;
  }

  lemma EndsAtLast(net: Network, t: nat, name: Name, depth: nat, hops: seq<Hop>, limit: nat)
    requires depth <= MAX_DEPTH && hops != []
    requires var n := |hops| - 1;
             IsLast(Ask(net, hops[n].at, hops[n].servers, name, NS), BestAfter(hops, n), hops[n].deleg)
    ensures Ended(net, t, name, depth, hops, limit, hops[|hops| - 1].at + 1)
  {
    hide IsLast, Ask, Accepted, NextQuery;
  }

  lemma EndsUnasked(net: Network, t: nat, name: Name, depth: nat, hops: seq<Hop>, limit: nat)
    requires depth <= MAX_DEPTH && (NextQuery(net, t, depth, hops).0 == [] || |hops| == limit)
    requires hops != [] ==> var n := |hops| - 1;
               !IsLast(Ask(net, hops[n].at, hops[n].servers, name, NS), BestAfter(hops, n), hops[n].deleg)
    ensures Ended(net, t, name, depth, hops, limit, NextQuery(net, t, depth, hops).1)
  {
    hide IsLast, Ask, Accepted, NextQuery;
  }

  lemma EndsUnaccepted(net: Network, t: nat, name: Name, depth: nat, hops: seq<Hop>, limit: nat)
    requires depth <= MAX_DEPTH && NextQuery(net, t, depth, hops).0 != [] && |hops| < limit
    requires hops != [] ==> var n := |hops| - 1;
               !IsLast(Ask(net, hops[n].at, hops[n].servers, name, NS), BestAfter(hops, n), hops[n].deleg)
    requires var (servers, next) := NextQuery(net, t, depth, hops);
             forall d :: !Accepted(Ask(net, next, servers, name, NS), name, BestAfter(hops, |hops|), d)
    ensures Ended(net, t, name, depth, hops, limit, NextQuery(net, t, depth, hops).1 + 1)
  {
    hide IsLast, Ask, Accepted, NextQuery;
  }

  lemma OneHopFurther(net: Network, t: nat, name: Name, depth: nat, before: seq<Hop>, h: Hop)
    requires depth <= MAX_DEPTH && Descent(net, t, name, depth, before) && h.servers != []
    requires (h.servers, h.at) == NextQuery(net, t, depth, before)
    requires Accepted(Ask(net, h.at, h.servers, name, NS), name, BestAfter(before, |before|), h.deleg)
    requires before != [] ==> var n := |before| - 1;
               !IsLast(Ask(net, before[n].at, before[n].servers, name, NS), BestAfter(before, n), before[n].deleg)
    ensures Descent(net, t, name, depth, before + [h])
  {
    hide Accepted, IsLast, NextQuery, Ask;
    var hops := before + [h];
    forall i | 0 <= i < |hops| ensures hops[..i] == before[..i] && BestAfter(hops, i) == BestAfter(before, i) {}
    assert before[..|before|] == before;
  }

  /** The addresses asked next are those of the glue; without glue, those of the first server that
      resolves to any, each earlier one having been asked for in vain. */
  lemma NextServersIsExact(net: Network, t: nat, d: Delegation, depth: nat)
    requires depth <= MAX_DEPTH
    ensures var (servers, sent) := NextServers(net, t, d, depth);
            && (d.glue != [] ==> sent == t && forall ip :: ip in servers <==> exists ns :: (ns, ip) in d.glue)
            && (d.glue == [] && servers == [] ==> InVain(net, t, d.nsNames, depth + 1, sent))
            && (d.glue == [] && servers != [] ==>
                  FirstToAnswer(net, t, d.nsNames, depth + 1, servers, sent))
  {
    hide ResolveHost, InVain, FirstResolved;
    if d.glue != [] {
      forall ip ensures ip in Ips(d.glue) <==> exists ns :: (ns, ip) in d.glue {
        if ns :| (ns, ip) in d.glue {
          var i :| 0 <= i < |d.glue| && d.glue[i] == (ns, ip);
          assert Ips(d.glue)[i] == ip;
        }
        if ip in Ips(d.glue) {
          var i :| 0 <= i < |d.glue| && Ips(d.glue)[i] == ip;
          assert (d.glue[i].0, ip) in d.glue;
        }
      }
    } else {
      var k, t1 := FirstIsFirst(net, t, d.nsNames, depth + 1);
      var (servers, sent) := FirstResolved(net, t, d.nsNames, depth + 1);
      assert d.nsNames[..|d.nsNames|] == d.nsNames;
      assert servers != [] ==> FirstAnswer(net, t, d.nsNames, depth + 1, k, t1, servers, sent);
    }
  }

  ghost predicate FirstToAnswer(net: Network, t: nat, names: seq<Name>, depth: nat, ips: seq<Ip>, sent: nat) {
    exists k: nat, t1: nat :: FirstAnswer(net, t, names, depth, k, t1, ips, sent)
  }

  /** The k-th name is the first that resolves to any address. */
  ghost predicate FirstAnswer(net: Network, t: nat, names: seq<Name>, depth: nat, k: nat, t1: nat, ips: seq<Ip>,
                              sent: nat) {
    && k < |names| && InVain(net, t, names[..k], depth, t1)
    && ResolveHost(net, t1, names[k], depth) == (Some(ips), sent)
  }

  /** None of the names resolves to an address; asking them takes the queries from `t` to `sent`. */
  ghost predicate InVain(net: Network, t: nat, names: seq<Name>, depth: nat, sent: nat)
    decreases |names|
  {
    if names == [] then sent == t
    else
      var last := |names| - 1;
      exists t1 :: InVain(net, t, names[..last], depth, t1) && FailsFrom(net, t1, names[last], depth, sent)
  }

  ghost predicate FailsFrom(net: Network, t: nat, name: Name, depth: nat, sent: nat) {
    ResolveHost(net, t, name, depth) == (None, sent) || ResolveHost(net, t, name, depth) == (Some([]), sent)
  }

  lemma {:induction false} FirstIsFirst(net: Network, t: nat, names: seq<Name>, depth: nat) returns (k: nat, t1: nat)
    ensures k <= |names| && InVain(net, t, names[..k], depth, t1)
    ensures var (servers, sent) := FirstResolved(net, t, names, depth);
            if servers == [] then k == |names| && sent == t1
            else k < |names| && ResolveHost(net, t1, names[k], depth) == (Some(servers), sent)
  {
    k, t1 := FirstFrom(net, t, names, depth, 0, t);
  }

  lemma {:induction false} FirstFrom(net: Network, t: nat, names: seq<Name>, depth: nat, i: nat, now: nat)
      returns (k: nat, t1: nat)
    requires i <= |names| && InVain(net, t, names[..i], depth, now)
    ensures k <= |names| && InVain(net, t, names[..k], depth, t1)
    ensures var (servers, sent) := FirstResolved(net, now, names[i..], depth);
            if servers == [] then k == |names| && sent == t1
            else k < |names| && ResolveHost(net, t1, names[k], depth) == (Some(servers), sent)
    decreases |names| - i
  {
    hide ResolveHost;
    k, t1 := i, now;
    if i < |names| {
      assert names[i..][0] == names[i] && names[i..][1..] == names[i + 1..];
      var (ips, t2) := ResolveHost(net, now, names[i], depth);
      if ips.None? || ips.value == [] {
        assert names[..i + 1][..i] == names[..i];
        assert FailsFrom(net, now, names[i], depth, t2);
        k, t1 := FirstFrom(net, t, names, depth, i + 1, t2);
      }
    }
  }

  /** A record of the answer section gives this address. */
  ghost predicate AnswersWith(m: Option<Message>, ip: Ip) {
    m.Some? && exists r :: r in m.value.answers && r.data == Address(ip)
  }

  ghost predicate Ascending(ips: seq<Ip>) {
    forall i, j :: 0 <= i < j < |ips| ==> ips[i] < ips[j]
  }

  /** A host resolves to the addresses its servers answer with, to the A or to the AAAA query, each
      once and in order; it fails exactly when it has no delegation or nobody to ask. */
  lemma ResolveHostIsExact(net: Network, t: nat, name: Name, depth: nat)
    ensures depth > MAX_DEPTH ==> ResolveHost(net, t, name, depth) == (None, t)
    ensures depth <= MAX_DEPTH ==>
              var (r, sent) := ResolveHost(net, t, name, depth);
              var (deleg, t1) := DelegationFor(net, t, name, depth);
              if deleg.None? then r.None? && sent == t1
              else
                var (servers, t2) := NextServers(net, t1, deleg.value, depth);
                if servers == [] then r.None? && sent == t2
                else
                  && sent == t2 + 2 && r.Some? && Ascending(r.value)
                  && forall ip :: ip in r.value <==>
                       AnswersWith(net(t2, servers, name, A), ip) || AnswersWith(net(t2 + 1, servers, name, AAAA), ip)
  {
    hide DelegationFor, NextServers, AnswersWith, SortedIps, AnswerIps;
    if depth <= MAX_DEPTH {
      var (deleg, t1) := DelegationFor(net, t, name, depth);
      if deleg.Some? {
        var (servers, t2) := NextServers(net, t1, deleg.value, depth);
        if servers != [] {
          var a, aaaa := net(t2, servers, name, A), net(t2 + 1, servers, name, AAAA);
          SortedIsSorted(AnswerIps(a) + AnswerIps(aaaa));
          forall ip
            ensures ip in AnswerIps(a) + AnswerIps(aaaa) <==> AnswersWith(a, ip) || AnswersWith(aaaa, ip)
          {
            AnswersAreAddresses(a, ip);
            AnswersAreAddresses(aaaa, ip);
          }
        }
      }
    }
  }

  lemma AnswersAreAddresses(m: Option<Message>, ip: Ip)
    ensures ip in AnswerIps(m) <==> AnswersWith(m, ip)
  {
    if m.Some? {
      AddressesAreExact(m.value.answers, ip);
    }
  }

  lemma {:induction false} AddressesAreExact(rs: seq<Record>, ip: Ip)
    ensures ip in Addresses(rs) <==> exists r :: r in rs && r.data == Address(ip)
  {
    if rs != [] {
      AddressesAreExact(rs[1..], ip);
      assert rs == [rs[0]] + rs[1..];
    }
  }

  lemma {:induction false} SortedIsSorted(ips: seq<Ip>)
    ensures Ascending(SortedIps(ips)) && forall ip :: ip in SortedIps(ips) <==> ip in ips
  {
    if ips != [] {
      SortedIsSorted(ips[1..]);
      InsertSorts(ips[0], SortedIps(ips[1..]));
      assert ips == [ips[0]] + ips[1..];
    }
  }

  lemma {:induction false} InsertSorts(x: Ip, s: seq<Ip>)
    requires Ascending(s)
    ensures Ascending(InsertIp(x, s)) && forall ip :: ip in InsertIp(x, s) <==> ip == x || ip in s
  {
    if s != [] && x > s[0] {
      InsertSorts(x, s[1..]);
      assert s == [s[0]] + s[1..];
      AscendingCons(s[0], InsertIp(x, s[1..]));
    } else if s != [] && x < s[0] {
      AscendingCons(x, s);
    }
  }

  lemma AscendingCons(x: Ip, s: seq<Ip>)
    requires Ascending(s) && forall ip :: ip in s ==> x < ip
    ensures Ascending([x] + s)
  {
    assert forall i :: 0 <= i < |s| ==> s[i] in s;
  }

  /** A server has the addresses of its glue, at no cost; only one without glue is resolved. */
  lemma HostIpsIsExact(net: Network, t: nat, glue: seq<(Name, Ip)>, ns: Name)
    ensures var (ips, sent) := HostIps(net, t, glue, ns);
            if exists ip :: (ns, ip) in glue then sent == t && forall ip :: ip in ips <==> (ns, ip) in glue
            else
              var (found, t1) := ResolveHost(net, t, ns, 1);
              sent == t1 && ips == if found.Some? then found.value else []
  {
    hide ResolveHost;
    if GluedIps(glue, ns) != [] {
      assert (ns, GluedIps(glue, ns)[0]) in glue;
    } else {
      assert forall ip :: (ns, ip) in glue ==> ip in GluedIps(glue, ns);
    }
  }

  /** Discovery: an address is listed for a name exactly when the walk found a delegation for it and
      the address was found for one of its servers. */
  lemma ServersIsExact(net: Network, t: nat, name: Name, ip: Ip)
    ensures var (deleg, t1) := DelegationFor(net, t, name, 0);
            Listed(Servers(net, t, name).0, ip) <==>
            deleg.Some? && Found(net, t1, deleg.value.nsNames, deleg.value.glue, ip)
  {
    hide DelegationFor, Found, Located;
    var (deleg, t1) := DelegationFor(net, t, name, 0);
    if deleg.Some? {
      LocatedIsExact(net, t1, deleg.value.nsNames, deleg.value.glue, [], ([], ip));
    }
  }

  // ── Strict descent: the hop limit is only a backstop ───────────────────────

  /** Iterations the loop can still make before it runs out of labels. */
  function HopsNeeded(name: Name, best: Option<Delegation>): int {
    if best.None? then |name| + 2 else |name| - |best.value.zone| + 1
  }

  /** Whatever the servers reply, the loop ends by itself within `labels(name) + 2` iterations:
      any two limits at least that large give the same delegation after the same queries. */
  lemma {:induction false} HopLimitIrrelevant(net: Network, t: nat, name: Name, depth: nat, h1: nat, h2: nat,
                                              servers: seq<Ip>, best: Option<Delegation>)
    requires depth <= MAX_DEPTH
    requires best.Some? ==> ZoneOf(best.value.zone, name)
    requires h1 >= HopsNeeded(name, best) && h2 >= HopsNeeded(name, best)
    ensures Walk(net, t, name, depth, h1, servers, best) == Walk(net, t, name, depth, h2, servers, best)
    decreases h1
  {
    hide FirstResolved, Judge, Ask, NextServers;
    var v := Judge(Ask(net, t, servers, name, NS), name, best);
    if v.Refer? {
      var d := v.deleg;
      var (next, t1) := NextServers(net, t + 1, d, depth);
      if next != [] {
        HopLimitIrrelevant(net, t1, name, depth, h1 - 1, h2 - 1, next, Some(d));
      }
    }
  }

  /** For names of at most ten labels the limit of twelve never decides the outcome. */
  lemma TwelveHopsSuffice(net: Network, t: nat, name: Name, depth: nat, limit: nat)
    requires depth <= MAX_DEPTH && |name| <= 10 && limit >= MAX_DEPTH
    ensures DelegationFor(net, t, name, depth) == Walk(net, t, name, depth, limit, ROOT_HINTS, None)
  {
    HopLimitIrrelevant(net, t, name, depth, MAX_DEPTH, limit, ROOT_HINTS, None);
  }

  /** A well-behaved but deep network: the t-th answer refers one label further down, to a name
      server called after `t`, with glue. */
  function Ladder(name: Name): Network {
    (t: nat, servers: seq<Ip>, n: Name, rtype: RType) =>
      var owner := if t <= |name| then name[|name| - t..] else name;
      var ns := [seq(t, i => 's')];
      Some(Message(false, [], [Record(owner, Ns(ns))], [Record(ns, Address(1))]))
  }

  function Rung(name: Name, t: nat): Delegation {
    var ns := [seq(t, i => 's')];
    Delegation(if t <= |name| then name[|name| - t..] else name, [ns], [(ns, 1)])
  }

  lemma LadderStep(name: Name, t: nat, servers: seq<Ip>, best: Option<Delegation>)
    requires servers != []
    requires best == if t == 0 then None else Some(Rung(name, t - 1))
    ensures Judge(Ask(Ladder(name), t, servers, name, NS), name, best)
            == if t <= |name| then Refer(Rung(name, t)) else Final(Rung(name, t))
  {
    hide NsRrset, GlueFor;
    LadderAnswer(name, t, servers);
    if t > 0 {
      assert ZoneOf(Rung(name, t - 1).zone, Rung(name, t).zone);
    }
  }

  lemma LadderAnswer(name: Name, t: nat, servers: seq<Ip>)
    ensures var resp := Ladder(name)(t, servers, name, NS); var rung := Rung(name, t);
            && resp.Some? && resp.value.answers == []
            && NsRrset(resp.value, name) == Some((rung.zone, rung.nsNames))
            && GlueFor(resp.value.additionals, rung.nsNames) == rung.glue
            && ZoneOf(rung.zone, name)
  {
    hide NsRrset, GlueFor;
    var resp, rung := Ladder(name)(t, servers, name, NS).value, Rung(name, t);
    SingleNs(resp, name, rung.zone, rung.nsNames[0]);
    SingleGlue(rung.nsNames[0], 1);
  }

  lemma SingleNs(m: Message, name: Name, owner: Name, ns: Name)
    requires m.answers == [] && m.authority == [Record(owner, Ns(ns))] && ZoneOf(owner, name)
    ensures NsRrset(m, name) == Some((owner, [ns]))
  {
    hide ZoneOf;
    assert m.authority[..0] == [] && FirstOwner(m.answers) == None;
    assert FirstOwner(m.authority) == Some(owner);
    assert Targets(m.authority, owner) == [] + [ns] == [ns];
    assert SectionNs(m.authority, name) == Some((owner, [ns]));
  }

  lemma SingleGlue(ns: Name, ip: Ip)
    ensures GlueFor([Record(ns, Address(ip))], [ns]) == [(ns, ip)]
  {
    assert [Record(ns, Address(ip))][1..] == [];
  }

  lemma {:induction false} LadderWalk(name: Name, t: nat, depth: nat, hops: nat, servers: seq<Ip>,
      best: Option<Delegation>)
    requires depth <= MAX_DEPTH && servers != [] && hops > 0 && t + hops <= |name| + 2
    requires best == if t == 0 then None else Some(Rung(name, t - 1))
    ensures Walk(Ladder(name), t, name, depth, hops, servers, best) == (Some(Rung(name, t + hops - 1)), t + hops)
    decreases hops
  {
    hide Judge, Ask, Ladder, Rung, FirstResolved, NsRrset, GlueFor;
    LadderStep(name, t, servers, best);
    RungHasGlue(name, t);
    if hops > 1 {
      LadderWalk(name, t + 1, depth, hops - 1, Ips(Rung(name, t).glue), Some(Rung(name, t)));
    } else {
      assert Walk(Ladder(name), t + 1, name, depth, 0, Ips(Rung(name, t).glue), Some(Rung(name, t)))
        == (Some(Rung(name, t)), t + 1);
    }
  }

  lemma RungHasGlue(name: Name, t: nat)
    ensures Ips(Rung(name, t).glue) == [1] && |Rung(name, t).glue| == 1
  {}

  /** Ten is exact: for every longer name some network makes a thirteenth hop change the answer. */
  lemma LimitDecidesDeepNames(name: Name, depth: nat)
    requires depth <= MAX_DEPTH && |name| > 10
    ensures DelegationFor(Ladder(name), 0, name, depth)
            != Walk(Ladder(name), 0, name, depth, MAX_DEPTH + 1, ROOT_HINTS, None)
  {
    hide Ladder;
    LadderWalk(name, 0, depth, MAX_DEPTH, ROOT_HINTS, None);
    LadderWalk(name, 0, depth, MAX_DEPTH + 1, ROOT_HINTS, None);
  }

  // ── How many queries a walk can cost ───────────────────────────────────────

  /** Every NS set that can be read from an answer names at most `k` servers. */
  ghost predicate NsWidth(net: Network, k: nat) {
    forall t, servers, name, rtype :: Narrow(net(t, servers, name, rtype), name, k)
  }

  predicate Narrow(m: Option<Message>, name: Name, k: nat) {
    m.Some? && NsRrset(m.value, name).Some? ==> |NsRrset(m.value, name).value.1| <= k
  }

  function DelegationCost(k: nat, depth: nat): nat
    decreases Fuel(depth), 0
  {
    if depth > MAX_DEPTH then 0 else MAX_DEPTH * (1 + k * HostCost(k, depth + 1))
  }

  function HostCost(k: nat, depth: nat): nat
    decreases Fuel(depth), 1
  {
    if depth > MAX_DEPTH then 0 else DelegationCost(k, depth) + k * HostCost(k, depth + 1) + 2
  }

  /** Both bounds in one recurrence: each level multiplies the cost by `13 k`. */
  lemma CostRecurrence(k: nat, depth: nat)
    ensures depth <= MAX_DEPTH ==> HostCost(k, depth) == 14 + 13 * (k * HostCost(k, depth + 1))
    ensures depth > MAX_DEPTH ==> HostCost(k, depth) == DelegationCost(k, depth) == 0
  {}

  /** With at most `k` name servers a set, no network makes a walk send more queries than this. */
  lemma {:induction false} DelegationQueries(net: Network, t: nat, name: Name, depth: nat, k: nat)
    requires NsWidth(net, k)
    ensures t <= DelegationFor(net, t, name, depth).1 <= t + DelegationCost(k, depth)
    decreases Fuel(depth), 1, 0
  {
    if depth <= MAX_DEPTH {
      WalkQueries(net, t, name, depth, MAX_DEPTH, ROOT_HINTS, None, k);
    }
  }

  lemma {:induction false} WalkQueries(net: Network, t: nat, name: Name, depth: nat, hops: nat,
                                       servers: seq<Ip>, best: Option<Delegation>, k: nat)
    requires NsWidth(net, k) && depth <= MAX_DEPTH
    ensures t <= Walk(net, t, name, depth, hops, servers, best).1 <= t + hops * (1 + k * HostCost(k, depth + 1))
    decreases Fuel(depth), 0, hops + 1
  {
    hide HostCost, Judge, FirstResolved, NsWidth, Ask, Ips, NsRrset;
    if hops > 0 {
      OneHopMore(hops, 1 + k * HostCost(k, depth + 1));
      var v := Judge(Ask(net, t, servers, name, NS), name, best);
      if v.Refer? {
        var d := v.deleg;
        NsSetIsNarrow(net, t, servers, name, d, k);
        NextQueries(net, t + 1, d, depth, k);
        var (next, t1) := NextServers(net, t + 1, d, depth);
        if next != [] {
          WalkQueries(net, t1, name, depth, hops - 1, next, Some(d), k);
        }
      }
    }
  }

  /** One delegation: at most `k` hosts to resolve. */
  lemma {:induction false} NextQueries(net: Network, t: nat, d: Delegation, depth: nat, k: nat)
    requires NsWidth(net, k) && depth <= MAX_DEPTH && |d.nsNames| <= k
    ensures t <= NextServers(net, t, d, depth).1 <= t + k * HostCost(k, depth + 1)
    decreases Fuel(depth), 0, 0
  {
    hide HostCost, FirstResolved, NsWidth, Ips;
    FirstResolvedQueries(net, t, d.nsNames, depth + 1, k);
    MulMonotone(|d.nsNames|, k, HostCost(k, depth + 1));
    MulMonotone(0, k, HostCost(k, depth + 1));
  }

  lemma OneHopMore(hops: nat, per: nat)
    requires hops > 0
    ensures hops * per == per + (hops - 1) * per >= per
  {
    MulMonotone(0, hops - 1, per);
  }

  lemma NsSetIsNarrow(net: Network, t: nat, servers: seq<Ip>, name: Name, d: Delegation, k: nat)
    requires NsWidth(net, k)
    requires var m := Ask(net, t, servers, name, NS);
             m.Some? && NsRrset(m.value, name) == Some((d.zone, d.nsNames))
    ensures |d.nsNames| <= k
  {
    assert Narrow(net(t, servers, name, NS), name, k);
  }

  lemma MulMonotone(a: nat, b: nat, c: nat)
    requires a <= b
    ensures a * c <= b * c
  {}

  lemma {:induction false} FirstResolvedQueries(net: Network, t: nat, names: seq<Name>, depth: nat, k: nat)
    requires NsWidth(net, k)
    ensures t <= FirstResolved(net, t, names, depth).1 <= t + |names| * HostCost(k, depth)
    decreases Fuel(depth), 3, |names|
  {
    hide HostCost, ResolveHost, NsWidth;
    if names != [] {
      HostQueries(net, t, names[0], depth, k);
      var t1 := ResolveHost(net, t, names[0], depth).1;
      FirstResolvedQueries(net, t1, names[1..], depth, k);
      var c := HostCost(k, depth);
      assert |names| * c == c + (|names| - 1) * c;
      MulMonotone(0, |names| - 1, c);
    }
  }

  lemma {:induction false} HostQueries(net: Network, t: nat, name: Name, depth: nat, k: nat)
    requires NsWidth(net, k)
    ensures t <= ResolveHost(net, t, name, depth).1 <= t + HostCost(k, depth)
    decreases Fuel(depth), 2, 0
  {
    hide DelegationFor, FirstResolved, NsWidth, DelegationCost, HostCost, SortedIps, AnswerIps, Ips, Ask;
    HostCostParts(k, depth);
    if depth <= MAX_DEPTH {
      DelegationQueries(net, t, name, depth, k);
      var (deleg, t1) := DelegationFor(net, t, name, depth);
      if deleg.Some? {
        DelegationIsNarrow(net, t, name, depth, k);
        NextQueries(net, t1, deleg.value, depth, k);
      }
    }
  }

  lemma HostCostParts(k: nat, depth: nat)
    ensures depth <= MAX_DEPTH ==>
              HostCost(k, depth) == DelegationCost(k, depth) + k * HostCost(k, depth + 1) + 2
  {}

  lemma {:induction false} DelegationIsNarrow(net: Network, t: nat, name: Name, depth: nat, k: nat)
    requires NsWidth(net, k) && depth <= MAX_DEPTH
    ensures var d := DelegationFor(net, t, name, depth).0; d.Some? ==> |d.value.nsNames| <= k
  {
    WalkIsNarrow(net, t, name, depth, MAX_DEPTH, ROOT_HINTS, None, k);
  }

  lemma {:induction false} WalkIsNarrow(net: Network, t: nat, name: Name, depth: nat, hops: nat,
                                        servers: seq<Ip>, best: Option<Delegation>, k: nat)
    requires NsWidth(net, k) && depth <= MAX_DEPTH && (best.Some? ==> |best.value.nsNames| <= k)
    ensures var d := Walk(net, t, name, depth, hops, servers, best).0; d.Some? ==> |d.value.nsNames| <= k
    decreases hops
  {
    hide Judge, NextServers, NsWidth, NsRrset, Ask;
    if hops > 0 {
      var v := Judge(Ask(net, t, servers, name, NS), name, best);
      if !v.Stop? {
        var d := v.deleg;
        NsSetIsNarrow(net, t, servers, name, d, k);
        var (next, t1) := NextServers(net, t + 1, d, depth);
        WalkIsNarrow(net, t1, name, depth, hops - 1, next, Some(d), k);
      }
    }
  }
}
