/** The `certificates` table as the create and renew handlers use it: looking a request up by its
    canonical names, inserting, retrying and claiming rows. */
module CertTable {
  import opened Text
  import opened Hosts

  datatype Status = Pending | Issuing | Active | Failed

  /** A row; `names` is what `common_name` and `sans` store. */
  datatype Row = Row(id: nat, names: Request, status: Status, keyAlgo: Option<string>)

  datatype Outcome =
    | Rejected
    | Reused(id: nat)
    | Retried(id: nat)
    | Inserted(id: nat)

  /** One POST: the raw names, and what the checks outside this table say about it. */
  datatype Post = Post(request: Request, authorized: bool, algoOk: bool, covered: bool, keyAlgo: Option<string>,
      newId: nat)

  // ── Looking a request up ───────────────────────────────────────────────────

  function WithoutDots(s: string): string {
    if s == "" then "" else (if s[0] == '.' then "" else [s[0]]) + WithoutDots(s[1..])
  }

  /** The SQL narrowing: common names equal up to case once every dot is removed. */
  predicate PreFilter(stored: string, cn: string) {
    Lower(WithoutDots(stored)) == Lower(WithoutDots(cn))
  }

  predicate Matches(row: Row, q: Request, statuses: set<Status>) {
    PreFilter(row.names.cn, q.cn) && row.status in statuses && Canonical(row.names) == q
  }

  function LastWhere<T>(s: seq<T>, p: T -> bool): (r: Option<nat>)
    ensures r.Some? ==> r.value < |s| && p(s[r.value])
    ensures r.None? ==> forall i :: 0 <= i < |s| ==> !p(s[i])
    ensures r.Some? ==> forall i :: r.value < i < |s| ==> !p(s[i])
  {
    if s == [] then None
    else if p(s[|s| - 1]) then Some(|s| - 1)
    else LastWhere(s[..|s| - 1], p)
  }

  /** The newest matching row, as `ORDER BY created_at DESC` scans them. */
  function Newest(rows: seq<Row>, q: Request, statuses: set<Status>): Option<nat> {
    LastWhere(rows, row => Matches(row, q, statuses))
  }

  /** `create`, from the raw request to the table it leaves. */
  function Created(rows: seq<Row>, p: Post): (seq<Row>, Outcome) {
    if !p.authorized || Trim(p.request.cn) == "" || !p.algoOk then (rows, Rejected)
    else
      var q := Canonical(p.request);
      var active := Newest(rows, q, {Active});
      var inFlight := Newest(rows, q, {Pending, Issuing});
      var failed := Newest(rows, q, {Failed});
      if active.Some? then (rows, Reused(rows[active.value].id))
      else if inFlight.Some? then (rows, Reused(rows[inFlight.value].id))
      else if !p.covered then (rows, Rejected)
      else if failed.Some? then
        (rows[failed.value := rows[failed.value].(status := Pending)], Retried(rows[failed.value].id))
      else (rows + [Row(p.newId, q, Pending, p.keyAlgo)], Inserted(p.newId))
  }

  class Certificates {
    var rows: seq<Row>

    constructor ()
      ensures rows == []
    {
      rows := [];
    }

    method FindMatching(q: Request, statuses: set<Status>) returns (r: Option<nat>)
      ensures r == Newest(rows, q, statuses)
    {
      hide PreFilter, Canonical;
      ghost var wanted := (row: Row) => Matches(row, q, statuses);
      var i := |rows|;
      assert rows[..i] == rows;
      while i > 0
        invariant 0 <= i <= |rows|
        invariant LastWhere(rows, wanted) == LastWhere(rows[..i], wanted)
      {
        i := i - 1;
        assert rows[..i + 1][..i] == rows[..i];
        if PreFilter(rows[i].names.cn, q.cn) && rows[i].status in statuses {
          if Canonical(rows[i].names) == q {
            return Some(i);
          }
        }
      }
      r := None;
    }

    method Create(p: Post) returns (outcome: Outcome)
      modifies this
      ensures (rows, outcome) == Created(old(rows), p)
    {
      hide PreFilter, Canonical, Trim;
      if !p.authorized || Trim(p.request.cn) == "" || !p.algoOk {
        return Rejected;
      }
      var q := Canonical(p.request);
      var active := FindMatching(q, {Active});
      if active.Some? {
        return Reused(rows[active.value].id);
      }
      var inFlight := FindMatching(q, {Pending, Issuing});
      if inFlight.Some? {
        return Reused(rows[inFlight.value].id);
      }
      if !p.covered {
        return Rejected;
      }
      var failed := FindMatching(q, {Failed});
      if failed.Some? {
        var k := failed.value;
        rows := rows[k := rows[k].(status := Pending)];
        return Retried(rows[k].id);
      }
      rows := rows + [Row(p.newId, q, Pending, p.keyAlgo)];
      outcome := Inserted(p.newId);
    }

    /** `claim_for_renewal`: one guarded UPDATE; true when it hit a settled row, whose algorithm it
        replaces only by one that is given. */
    method ClaimForRenewal(id: nat, keyAlgo: Option<string>) returns (claimed: bool)
      requires forall i, j :: 0 <= i < j < |rows| ==> rows[i].id != rows[j].id
      modifies this
      ensures claimed <==> exists i :: 0 <= i < |old(rows)| && old(rows)[i].id == id
                                        && old(rows)[i].status !in {Pending, Issuing}
      ensures |rows| == |old(rows)|
      ensures forall i :: 0 <= i < |rows| ==>
                rows[i] == if old(rows)[i].id == id && old(rows)[i].status !in {Pending, Issuing}
                           then Row(id, old(rows)[i].names, Pending,
                                    if keyAlgo.Some? then keyAlgo else old(rows)[i].keyAlgo)
                           else old(rows)[i]
    {
      claimed := false;
      for n := 0 to |rows|
        invariant |rows| == |old(rows)|
        invariant claimed <==> exists i :: 0 <= i < n && Settled(old(rows)[i], id)
        invariant forall i :: 0 <= i < n && Settled(old(rows)[i], id) ==>
          rows[i] == Row(id, old(rows)[i].names, Pending, if keyAlgo.Some? then keyAlgo else old(rows)[i].keyAlgo)
        invariant forall i :: 0 <= i < |rows| && (i >= n || !Settled(old(rows)[i], id)) ==> rows[i] == old(rows)[i]
      {
        if Settled(rows[n], id) {
          rows := rows[n := rows[n].(status := Pending, keyAlgo := if keyAlgo.Some? then keyAlgo else rows[n].keyAlgo)];
          claimed := true;
        }
      }
    }
  }

  predicate Settled(row: Row, id: nat) {
    row.id == id && (row.status.Active? || row.status.Failed?)
  }

  // ── What a create decides ──────────────────────────────────────────────────

  /** The newest row the request matches in one of these states. */
  ghost predicate IsNewest(rows: seq<Row>, q: Request, statuses: set<Status>, i: nat) {
    i < |rows| && Matches(rows[i], q, statuses) && forall k :: i < k < |rows| ==> !Matches(rows[k], q, statuses)
  }

  ghost predicate NoMatch(rows: seq<Row>, q: Request, statuses: set<Status>) {
    forall k :: 0 <= k < |rows| ==> !Matches(rows[k], q, statuses)
  }

  ghost predicate ReusesNewest(rows: seq<Row>, q: Request, statuses: set<Status>, outcome: Outcome) {
    exists i: nat :: IsNewest(rows, q, statuses, i) && outcome == Reused(rows[i].id)
  }

  ghost predicate RetriesNewest(rows: seq<Row>, q: Request, after: seq<Row>, outcome: Outcome) {
    exists i: nat :: IsNewest(rows, q, {Failed}, i) && outcome == Retried(rows[i].id) && SetPending(rows, after, i)
  }

  lemma NewestIsNewest(rows: seq<Row>, q: Request, statuses: set<Status>)
    ensures var r := Newest(rows, q, statuses);
            && (r.None? <==> NoMatch(rows, q, statuses))
            && (r.Some? ==> IsNewest(rows, q, statuses, r.value)
                            && ReusesNewest(rows, q, statuses, Reused(rows[r.value].id)))
  {
    hide Matches;
    var r := Newest(rows, q, statuses);
    if r.Some? {
      assert IsNewest(rows, q, statuses, r.value);
    }
  }

  lemma RetryIsNewest(rows: seq<Row>, q: Request, i: nat)
    requires IsNewest(rows, q, {Failed}, i)
    ensures RetriesNewest(rows, q, rows[i := rows[i].(status := Pending)], Retried(rows[i].id))
  {
    hide Matches;
    assert SetPending(rows, rows[i := rows[i].(status := Pending)], i);
  }

  /** A create is refused for want of permission, a name or a known algorithm. An active match is then
      reused, the newest; failing that a match in flight. Only if there is neither is it refused for a
      name nobody can route, and otherwise the newest failed match goes back to pending, keeping its
      names and algorithm; with no match at all a row with the canonical names is inserted last. */
  lemma CreatedIsExact(rows: seq<Row>, p: Post)
    ensures var (after, outcome) := Created(rows, p);
            var q := Canonical(p.request);
            if !p.authorized || Trim(p.request.cn) == "" || !p.algoOk then outcome == Rejected && after == rows
            else if !NoMatch(rows, q, {Active}) then after == rows && ReusesNewest(rows, q, {Active}, outcome)
            else if !NoMatch(rows, q, {Pending, Issuing}) then
              after == rows && ReusesNewest(rows, q, {Pending, Issuing}, outcome)
            else if !p.covered then outcome == Rejected && after == rows
            else if !NoMatch(rows, q, {Failed}) then RetriesNewest(rows, q, after, outcome)
            else outcome == Inserted(p.newId) && after == rows + [Row(p.newId, q, Pending, p.keyAlgo)]
  {
    hide Matches, Canonical, Trim, Newest, NoMatch, IsNewest, ReusesNewest, RetriesNewest;
    var q := Canonical(p.request);
    NewestIsNewest(rows, q, {Active});
    NewestIsNewest(rows, q, {Pending, Issuing});
    NewestIsNewest(rows, q, {Failed});
    var failed := Newest(rows, q, {Failed});
    if failed.Some? {
      RetryIsNewest(rows, q, failed.value);
    }
  }

  /** Row `i` is pending now, and nothing else has changed. */
  ghost predicate SetPending(rows: seq<Row>, after: seq<Row>, i: nat) {
    && |after| == |rows|
    && (forall k :: 0 <= k < |rows| && k != i ==> after[k] == rows[k])
    && (i < |rows| ==> after[i] == Row(rows[i].id, rows[i].names, Pending, rows[i].keyAlgo))
  }

  /** A row matches exactly the canonical form of its own names, and not even that if its common name
      is stored with white space around it. */
  lemma MatchesIsExact(row: Row, q: Request, statuses: set<Status>)
    ensures Matches(row, q, statuses) <==>
            q == Canonical(row.names) && row.status in statuses && Trim(row.names.cn) == row.names.cn
  {
    hide PreFilter, Sorted, KeptNames, NormalizeHost, Trim;
    PreFilterExact(row.names.cn);
  }

  // ── The narrowing query ────────────────────────────────────────────────────

  lemma {:induction false} WithoutDotsAppend(a: string, b: string)
    ensures WithoutDots(a + b) == WithoutDots(a) + WithoutDots(b)
  {
    if a == "" {
      assert a + b == b;
    } else {
      assert (a + b)[1..] == a[1..] + b;
      WithoutDotsAppend(a[1..], b);
    }
  }

  lemma {:induction false} WithoutDotsLower(s: string)
    ensures WithoutDots(Lower(s)) == Lower(WithoutDots(s))
  {
    if s != "" {
      assert Lower(s)[1..] == Lower(s[1..]);
      WithoutDotsLower(s[1..]);
      assert Lower(s)[0] == '.' <==> s[0] == '.';
    }
  }

  lemma {:induction false} WithoutDotsOfDots(s: string)
    requires forall i :: 0 <= i < |s| ==> s[i] == '.'
    ensures WithoutDots(s) == ""
  {
    if s != "" {
      WithoutDotsOfDots(s[1..]);
    }
  }

  lemma {:induction false} WithoutDotsKeepsSpace(s: string)
    requires forall i :: 0 <= i < |s| ==> IsSpace(s[i])
    ensures |WithoutDots(s)| == |s|
  {
    if s != "" {
      WithoutDotsKeepsSpace(s[1..]);
    }
  }

  /** The SQL narrowing lets through every row whose stored name normalises to the wanted one,
      except names stored with white space around them. */
  lemma PreFilterExact(stored: string)
    ensures PreFilter(stored, NormalizeHost(stored)) <==> Trim(stored) == stored
  {
    hide NormalizeHost, WithoutDots, Trim, TrimEnd, TrimStart, TrimDots, Lower;
    var t := Trim(stored);
    var n := NormalizeHost(stored);
    NormalizeHostShape(stored);
    var d := TrimDots(t);
    assert t == d + t[|d|..];
    WithoutDotsAppend(d, t[|d|..]);
    WithoutDotsOfDots(t[|d|..]);
    WithoutDotsLower(d);
    LowerTwice(WithoutDots(d));
    assert WithoutDots(t) == WithoutDots(d) by { assert WithoutDots(d) + "" == WithoutDots(d); }
    assert Lower(WithoutDots(n)) == Lower(WithoutDots(t));
    TrimParts(stored);
    LowerLength(WithoutDots(stored));
    LowerLength(WithoutDots(t));
  }

  lemma LowerLength(s: string)
    ensures |Lower(s)| == |s|
  {}

  lemma LowerTwice(s: string)
    ensures Lower(Lower(s)) == Lower(s)
  {}

  /** Trimming takes only white space away, which the dot removal keeps. */
  lemma TrimParts(s: string)
    ensures |WithoutDots(s)| - |WithoutDots(Trim(s))| == |s| - |Trim(s)|
    ensures |s| == |Trim(s)| ==> s == Trim(s)
  {
    hide WithoutDots, TrimStart, TrimEnd;
    var u := TrimStart(s);
    var t := TrimEnd(u);
    assert s[|s| - |u|..] == u && u[..|t|] == t;
    FrontCut(s, |s| - |u|);
    BackCut(u, |t|);
  }

  lemma FrontCut(s: string, n: nat)
    requires n <= |s| && forall i :: 0 <= i < n ==> IsSpace(s[i])
    ensures |WithoutDots(s)| == n + |WithoutDots(s[n..])|
  {
    hide WithoutDots;
    assert s == s[..n] + s[n..];
    WithoutDotsAppend(s[..n], s[n..]);
    WithoutDotsKeepsSpace(s[..n]);
  }

  lemma BackCut(s: string, n: nat)
    requires n <= |s| && forall i :: n <= i < |s| ==> IsSpace(s[i])
    ensures |WithoutDots(s)| == |WithoutDots(s[..n])| + |s| - n
  {
    hide WithoutDots;
    assert s == s[..n] + s[n..];
    WithoutDotsAppend(s[..n], s[n..]);
    WithoutDotsKeepsSpace(s[n..]);
  }

  // ── One row per canonical request ──────────────────────────────────────────

  /** What happens to the table between requests: status changes and deletions, never renames. */
  datatype Event =
    | Posted(post: Post)
    | Moved(id: nat, to: Status)
    | Deleted(id: nat)

  function MoveAll(rows: seq<Row>, id: nat, to: Status): (r: seq<Row>)
    ensures |r| == |rows| && forall i :: 0 <= i < |r| ==> r[i].names == rows[i].names
  {
    seq(|rows|, i requires 0 <= i < |rows| => if rows[i].id == id then rows[i].(status := to) else rows[i])
  }

  function Without(rows: seq<Row>, id: nat): seq<Row> {
    if rows == [] then [] else (if rows[0].id == id then [] else [rows[0]]) + Without(rows[1..], id)
  }

  function Step(rows: seq<Row>, e: Event): seq<Row> {
    match e
    case Posted(p) => Created(rows, p).0
    case Moved(id, to) => MoveAll(rows, id, to)
    case Deleted(id) => Without(rows, id)
  }

  function Run(rows: seq<Row>, events: seq<Event>): seq<Row>
    decreases |events|
  {
    if events == [] then rows else Run(Step(rows, events[0]), events[1..])
  }

  /** Every stored name is canonical, and no two rows are for the same request. */
  ghost predicate OneRowPerRequest(rows: seq<Row>) {
    && (forall i :: 0 <= i < |rows| ==> Canonical(rows[i].names) == rows[i].names)
    && (forall i, j :: 0 <= i < j < |rows| ==> rows[i].names != rows[j].names)
  }

  lemma CreateKeepsOneRow(rows: seq<Row>, p: Post)
    requires OneRowPerRequest(rows) && Stable(p.request)
    ensures OneRowPerRequest(Created(rows, p).0)
  {
    hide Canonical, Matches, Stable, Trim;
    var q := Canonical(p.request);
    CanonicalIdempotence(p.request);
    forall i, st: set<Status> | 0 <= i < |rows|
      ensures Matches(rows[i], q, st) <==> rows[i].names == q && rows[i].status in st
    {
      CanonicalRowMatches(rows[i], q, st);
    }
    assert forall i :: 0 <= i < |rows| ==>
      rows[i].status.Pending? || rows[i].status.Issuing? || rows[i].status.Active? || rows[i].status.Failed?;
  }

  /** A request for names whose row is in flight is answered with that row and changes nothing,
      whether or not any task is still working on it. */
  lemma InFlightIsReused(rows: seq<Row>, p: Post, i: nat)
    requires OneRowPerRequest(rows) && i < |rows| && rows[i].names == Canonical(p.request)
    requires rows[i].status.Pending? || rows[i].status.Issuing?
    requires p.authorized && p.algoOk && Trim(p.request.cn) != ""
    ensures Created(rows, p) == (rows, Reused(rows[i].id))
  {
    hide Canonical, Matches, Trim;
    var q := Canonical(p.request);
    forall k, st: set<Status> | 0 <= k < |rows|
      ensures Matches(rows[k], q, st) <==> rows[k].names == q && rows[k].status in st
    {
      CanonicalRowMatches(rows[k], q, st);
    }
    assert Matches(rows[i], q, {Pending, Issuing});
  }

  /** A row stored under canonical names is found by exactly those names. */
  lemma CanonicalRowMatches(row: Row, q: Request, statuses: set<Status>)
    requires Canonical(row.names) == row.names
    ensures Matches(row, q, statuses) <==> row.names == q && row.status in statuses
  {
    hide Canonical, Lower, WithoutDots;
  }

  lemma {:induction false} WithoutIsPart(rows: seq<Row>, id: nat, row: Row)
    ensures row in Without(rows, id) <==> row in rows && row.id != id
  {
    if rows != [] {
      WithoutIsPart(rows[1..], id, row);
      assert rows == [rows[0]] + rows[1..];
    }
  }

  lemma {:induction false} DeleteKeepsOneRow(rows: seq<Row>, id: nat)
    requires OneRowPerRequest(rows)
    ensures OneRowPerRequest(Without(rows, id))
    ensures forall row :: row in Without(rows, id) <==> row in rows && row.id != id
  {
    hide Canonical, OneRowPerRequest;
    forall row ensures row in Without(rows, id) <==> row in rows && row.id != id { WithoutIsPart(rows, id, row); }
    if rows == [] {
      assert Without(rows, id) == rows;
    } else {
      assert rows == [rows[0]] + rows[1..];
      TailKeepsOneRow(rows[0], rows[1..]);
      var rest := Without(rows[1..], id);
      DeleteKeepsOneRow(rows[1..], id);
      FirstStaysApart(rows[0], rows[1..], rest);
      assert Without(rows, id) == if rows[0].id == id then rest else [rows[0]] + rest;
    }
  }

  lemma TailKeepsOneRow(first: Row, others: seq<Row>)
    requires OneRowPerRequest([first] + others)
    ensures OneRowPerRequest(others)
  {
    hide Canonical;
    var all := [first] + others;
    assert forall i :: 0 <= i < |others| ==> others[i] == all[i + 1];
  }

  lemma FirstStaysApart(first: Row, others: seq<Row>, rest: seq<Row>)
    requires OneRowPerRequest([first] + others) && OneRowPerRequest(rest)
    requires forall row :: row in rest ==> row in others
    ensures OneRowPerRequest([first] + rest)
  {
    hide Canonical;
    var all, more := [first] + others, [first] + rest;
    assert all[0] == first && forall i :: 0 < i < |all| ==> all[i] == others[i - 1];
    forall i | 0 <= i < |rest| ensures rest[i].names != first.names {
      assert rest[i] in others;
      var j :| 0 <= j < |others| && others[j] == rest[i];
      assert all[j + 1] == rest[i];
    }
    assert forall i :: 0 < i < |more| ==> more[i] == rest[i - 1];
  }

  /** Any serial history of creates, status changes and deletions keeps one row per canonical
      request, as long as the requests are stable under normalisation. */
  lemma {:induction false} SerialCreatesKeepOneRow(rows: seq<Row>, events: seq<Event>)
    requires OneRowPerRequest(rows)
    requires forall i :: 0 <= i < |events| && events[i].Posted? ==> Stable(events[i].post.request)
    ensures OneRowPerRequest(Run(rows, events))
    decreases |events|
  {
    hide Canonical, Created, Stable;
    if events != [] {
      match events[0] {
        case Posted(p) => CreateKeepsOneRow(rows, p);
        case Moved(id, to) =>
        case Deleted(id) => DeleteKeepsOneRow(rows, id);
      }
      SerialCreatesKeepOneRow(Step(rows, events[0]), events[1..]);
    }
  }

  /** Posting an acceptable request twice to an empty table leaves one row exactly when the
      request is stable: an unstable one is stored under names it will never be found by. */
  lemma PostingTwice(p: Post, again: Post)
    requires p.authorized && p.algoOk && p.covered && Trim(p.request.cn) != ""
    requires again.(newId := p.newId) == p
    ensures |Run([], [Posted(p), Posted(again)])| == if Stable(p.request) then 1 else 2
  {
    hide Canonical, Matches, Stable, Trim;
    var q := Canonical(p.request);
    CanonicalIdempotence(p.request);
    var row := Row(p.newId, q, Pending, p.keyAlgo);
    assert Created([], p).0 == [row];
    forall st: set<Status> ensures Matches(row, q, st) <==> Stable(p.request) && Pending in st {
      FreshRowMatches(row, st);
    }
    assert [row][..0] == [];
    assert [Posted(p), Posted(again)][1..] == [Posted(again)] && [Posted(again)][1..] == [];
    assert Run([], [Posted(p), Posted(again)]) == Run([row], [Posted(again)]) == Run(Created([row], again).0, []);
  }

  lemma FreshRowMatches(row: Row, statuses: set<Status>)
    ensures Matches(row, row.names, statuses) <==> Canonical(row.names) == row.names && row.status in statuses
  {
    hide Canonical, Lower, WithoutDots;
  }

  // ── Creates that interleave ────────────────────────────────────────────────

  /** How far one accepted create has got: each of its three searches is a query of its own, and
      so is the write that follows. */
  datatype Stage =
    | Accepted(post: Post)
    | NoActive(post: Post)
    | NotInFlight(post: Post)
    | Retrying(post: Post, id: nat)
    | Inserting(post: Post)

  datatype Table = Table(rows: seq<Row>, handlers: map<nat, Stage>)

  datatype Act =
    | Accept(h: nat, post: Post)
    | SearchActive(h: nat)
    | SearchInFlight(h: nat)
    | SearchFailed(h: nat)
    | Commit(h: nat)
    | Change(id: nat, to: Status)
    | Remove(id: nat)

  predicate Acceptable(p: Post) {
    p.authorized && Trim(p.request.cn) != "" && p.algoOk
  }

  predicate Can(t: Table, a: Act) {
    match a
    case Accept(h, post) => h !in t.handlers && Acceptable(post)
    case SearchActive(h) => h in t.handlers && t.handlers[h].Accepted?
    case SearchInFlight(h) => h in t.handlers && t.handlers[h].NoActive?
    case SearchFailed(h) => h in t.handlers && t.handlers[h].NotInFlight?
    case Commit(h) => h in t.handlers && (t.handlers[h].Retrying? || t.handlers[h].Inserting?)
    case Change(id, to) => true
    case Remove(id) => true
  }

  /** Where a search leaves its handler; `None` when the request has been answered. */
  function Searched(rows: seq<Row>, stage: Stage): Option<Stage>
    requires stage.Accepted? || stage.NoActive? || stage.NotInFlight?
  {
    var p := stage.post;
    var q := Canonical(p.request);
    match stage
    case Accepted(_) => if Newest(rows, q, {Active}).Some? then None else Some(NoActive(p))
    case NoActive(_) =>
      if Newest(rows, q, {Pending, Issuing}).Some? || !p.covered then None else Some(NotInFlight(p))
    case NotInFlight(_) =>
      var failed := Newest(rows, q, {Failed});
      Some(if failed.Some? then Retrying(p, rows[failed.value].id) else Inserting(p))
  }

  function Committed(rows: seq<Row>, stage: Stage): seq<Row>
    requires stage.Retrying? || stage.Inserting?
  {
    if stage.Retrying? then MoveAll(rows, stage.id, Pending)
    else rows + [Row(stage.post.newId, Canonical(stage.post.request), Pending, stage.post.keyAlgo)]
  }

  function With(handlers: map<nat, Stage>, h: nat, stage: Option<Stage>): map<nat, Stage> {
    if stage.Some? then handlers[h := stage.value] else handlers - {h}
  }

  function Do(t: Table, a: Act): Table
    requires Can(t, a)
  {
    match a
    case Accept(h, post) => t.(handlers := t.handlers[h := Accepted(post)])
    case SearchActive(h) => t.(handlers := With(t.handlers, h, Searched(t.rows, t.handlers[h])))
    case SearchInFlight(h) => t.(handlers := With(t.handlers, h, Searched(t.rows, t.handlers[h])))
    case SearchFailed(h) => t.(handlers := With(t.handlers, h, Searched(t.rows, t.handlers[h])))
    case Commit(h) => Table(Committed(t.rows, t.handlers[h]), t.handlers - {h})
    case Change(id, to) => t.(rows := MoveAll(t.rows, id, to))
    case Remove(id) => t.(rows := Without(t.rows, id))
  }

  /** Tasks and deletes may strike at any moment, at the rows of their id alone; a create gets this
      far exactly if it is permitted, names a host and asks for a known algorithm. */
  lemma OthersActFreely(t: Table, id: nat, to: Status, h: nat, p: Post)
    ensures Can(t, Change(id, to)) && Can(t, Remove(id))
    ensures var after := Do(t, Change(id, to));
            && after.handlers == t.handlers && |after.rows| == |t.rows|
            && forall i :: 0 <= i < |t.rows| ==>
                 after.rows[i] == if t.rows[i].id == id then t.rows[i].(status := to) else t.rows[i]
    ensures Do(t, Remove(id)).handlers == t.handlers
    ensures forall row :: row in Do(t, Remove(id)).rows <==> row in t.rows && row.id != id
    ensures Can(t, Accept(h, p)) <==> h !in t.handlers && p.authorized && p.algoOk && Trim(p.request.cn) != ""
  {
    hide Trim;
    forall row ensures row in Without(t.rows, id) <==> row in t.rows && row.id != id { WithoutIsPart(t.rows, id, row); }
  }

  predicate Legal(t: Table, acts: seq<Act>)
    decreases |acts|
  {
    acts == [] || (Can(t, acts[0]) && Legal(Do(t, acts[0]), acts[1..]))
  }

  function Final(t: Table, acts: seq<Act>): Table
    requires Legal(t, acts)
    decreases |acts|
  {
    if acts == [] then t else Final(Do(t, acts[0]), acts[1..])
  }

  /** Every request in the run is stable under normalisation. */
  ghost predicate StableRun(t: Table, acts: seq<Act>) {
    && (forall h :: h in t.handlers ==> Stable(t.handlers[h].post.request))
    && (forall k :: 0 <= k < |acts| && acts[k].Accept? ==> Stable(acts[k].post.request))
  }

  /** The searches of a committing create still hold: nobody has stored a row for its names. */
  ghost predicate StillCurrent(t: Table, a: Act) {
    a.Commit? && Can(t, a) && t.handlers[a.h].Inserting? ==>
      forall i :: 0 <= i < |t.rows| ==> t.rows[i].names != Canonical(t.handlers[a.h].post.request)
  }

  ghost predicate EachCurrent(t: Table, acts: seq<Act>)
    requires Legal(t, acts)
    decreases |acts|
  {
    acts == [] || (StillCurrent(t, acts[0]) && EachCurrent(Do(t, acts[0]), acts[1..]))
  }

  ghost predicate AlwaysOneRow(t: Table, acts: seq<Act>)
    requires Legal(t, acts)
    decreases |acts|
  {
    OneRowPerRequest(t.rows) && (acts == [] || AlwaysOneRow(Do(t, acts[0]), acts[1..]))
  }

  /** An insert keeps one row per request exactly when no row has its names yet. */
  lemma InsertKeepsOneRow(rows: seq<Row>, row: Row)
    requires OneRowPerRequest(rows) && Canonical(row.names) == row.names
    ensures OneRowPerRequest(rows + [row]) <==> forall i :: 0 <= i < |rows| ==> rows[i].names != row.names
  {
    hide Canonical;
    var more := rows + [row];
    assert forall i :: 0 <= i < |rows| ==> more[i] == rows[i];
    assert more[|rows|] == row;
  }

  lemma StepKeepsOneRow(t: Table, a: Act)
    requires Can(t, a) && OneRowPerRequest(t.rows)
    requires forall h :: h in t.handlers ==> Stable(t.handlers[h].post.request)
    ensures OneRowPerRequest(Do(t, a).rows) <==> StillCurrent(t, a)
  {
    hide Canonical, Stable, Searched, Acceptable;
    match a {
      case Commit(h) =>
        CanonicalIdempotence(t.handlers[h].post.request);
        if t.handlers[h].Inserting? {
          InsertKeepsOneRow(t.rows, Committed(t.rows, t.handlers[h])[|t.rows|]);
        }
      case Remove(id) => DeleteKeepsOneRow(t.rows, id);
      case _ =>
    }
  }

  lemma StepKeepsStable(t: Table, acts: seq<Act>)
    requires acts != [] && Can(t, acts[0]) && StableRun(t, acts)
    ensures StableRun(Do(t, acts[0]), acts[1..])
  {
    hide Canonical, Stable, Newest, Acceptable, Committed, MoveAll, Without;
  }

  /** Over every interleaving of creates, status changes and deletes: the table has one row per
      request throughout if and only if every insert finds its searches still current. */
  lemma {:induction false} OneRowIffCurrent(t: Table, acts: seq<Act>)
    requires Legal(t, acts) && OneRowPerRequest(t.rows) && StableRun(t, acts)
    ensures AlwaysOneRow(t, acts) <==> EachCurrent(t, acts)
    decreases |acts|
  {
    hide Canonical, Stable, Do, Can, OneRowPerRequest;
    if acts != [] {
      StepKeepsOneRow(t, acts[0]);
      StepKeepsStable(t, acts);
      if StillCurrent(t, acts[0]) {
        OneRowIffCurrent(Do(t, acts[0]), acts[1..]);
      } else {
        NotOneRowNow(Do(t, acts[0]), acts[1..]);
      }
    }
  }

  lemma NotOneRowNow(t: Table, acts: seq<Act>)
    requires Legal(t, acts) && !OneRowPerRequest(t.rows)
    ensures !AlwaysOneRow(t, acts)
  {}

  // ── Runs of interleaved creates ────────────────────────────────────────────

  lemma {:induction false} Extend(t: Table, acts: seq<Act>, a: Act)
    requires Legal(t, acts) && Can(Final(t, acts), a)
    ensures Legal(t, acts + [a]) && Final(t, acts + [a]) == Do(Final(t, acts), a)
    decreases |acts|
  {
    hide Do, Can;
    if acts != [] {
      assert (acts + [a])[1..] == acts[1..] + [a];
      Extend(Do(t, acts[0]), acts[1..], a);
    } else {
      assert [a][1..] == [];
    }
  }

  ghost predicate Reaches(t: Table, u: Table) {
    exists acts :: Legal(t, acts) && Final(t, acts) == u
  }

  lemma Here(t: Table)
    ensures Reaches(t, t)
  {
    assert Legal(t, []) && Final(t, []) == t;
  }

  lemma Then(t: Table, u: Table, a: Act)
    requires Reaches(t, u) && Can(u, a)
    ensures Reaches(t, Do(u, a))
  {
    hide Do, Can;
    var acts :| Legal(t, acts) && Final(t, acts) == u;
    Extend(t, acts, a);
  }

  /** The three searches of a create that finds nothing, on a table that stays as it is. */
  lemma SearchesFindNothing(t: Table, u: Table, h: nat)
    requires Reaches(t, u) && h in u.handlers && u.handlers[h].Accepted? && u.handlers[h].post.covered
    requires forall st: set<Status> :: Newest(u.rows, Canonical(u.handlers[h].post.request), st).None?
    ensures Reaches(t, u.(handlers := u.handlers[h := Inserting(u.handlers[h].post)]))
  {
    hide Reaches, Newest, Canonical;
    var v := u;
    Then(t, v, SearchActive(h));
    v := Do(v, SearchActive(h));
    Then(t, v, SearchInFlight(h));
    v := Do(v, SearchInFlight(h));
    Then(t, v, SearchFailed(h));
    v := Do(v, SearchFailed(h));
    assert v.handlers == u.handlers[h := Inserting(u.handlers[h].post)];
  }

  function Stored(p: Post): Row {
    Row(p.newId, Canonical(p.request), Pending, p.keyAlgo)
  }

  lemma BothAccepted(p: Post, again: Post)
    requires Acceptable(p) && Acceptable(again)
    ensures Reaches(Table([], map[]), Table([], map[0 := Accepted(p), 1 := Accepted(again)]))
  {
    hide Reaches, Acceptable;
    var t := Table([], map[]);
    Here(t);
    Then(t, t, Accept(0, p));
    Then(t, Do(t, Accept(0, p)), Accept(1, again));
  }

  /** The duplicate checks and the insert are separate: from the empty table, two creates of one
      request that both search before either inserts leave two rows for it. */
  lemma InterleavedCreatesDuplicate(p: Post, again: Post)
    requires Acceptable(p) && Acceptable(again) && p.covered && again.covered
    requires Canonical(p.request) == Canonical(again.request)
    ensures Reaches(Table([], map[]), Table([Stored(p), Stored(again)], map[]))
    ensures !OneRowPerRequest([Stored(p), Stored(again)])
  {
    hide Reaches, Canonical, Acceptable;
    var start, t := Table([], map[]), Table([], map[0 := Accepted(p), 1 := Accepted(again)]);
    BothAccepted(p, again);
    SearchesFindNothing(start, t, 0);
    t := t.(handlers := t.handlers[0 := Inserting(p)]);
    SearchesFindNothing(start, t, 1);
    t := t.(handlers := t.handlers[1 := Inserting(again)]);
    Then(start, t, Commit(0));
    t := Do(t, Commit(0));
    Then(start, t, Commit(1));
    assert Do(t, Commit(1)) == Table([Stored(p), Stored(again)], map[]);
    var rows := [Stored(p), Stored(again)];
    assert rows[0].names == rows[1].names;
  }

  /** One create is enough: a pending row that becomes active between the search for active rows
      and the search for rows in flight is found by neither. */
  lemma CompletionHidesRow(row: Row, p: Post)
    requires Acceptable(p) && p.covered && row.status.Pending?
    requires Canonical(row.names) == row.names == Canonical(p.request)
    ensures Reaches(Table([row], map[]), Table([row.(status := Active), Stored(p)], map[]))
    ensures !OneRowPerRequest([row.(status := Active), Stored(p)])
  {
    hide Reaches, Canonical, Acceptable, Matches, LastWhere;
    var start := Table([row], map[]);
    var now := row.(status := Active);
    var q := Canonical(p.request);
    OnlyRow(row, q, {Active});
    OnlyRow(now, q, {Pending, Issuing});
    OnlyRow(now, q, {Failed});
    Here(start);
    var t := start;
    Then(start, t, Accept(0, p));
    t := Do(t, Accept(0, p));
    Then(start, t, SearchActive(0));
    t := Do(t, SearchActive(0));
    Then(start, t, Change(row.id, Active));
    t := Do(t, Change(row.id, Active));
    assert t == Table([now], map[0 := NoActive(p)]);
    Then(start, t, SearchInFlight(0));
    t := Do(t, SearchInFlight(0));
    Then(start, t, SearchFailed(0));
    t := Do(t, SearchFailed(0));
    assert t == Table([now], map[0 := Inserting(p)]);
    Then(start, t, Commit(0));
    assert Do(t, Commit(0)) == Table([now, Stored(p)], map[]);
    var rows := [now, Stored(p)];
    assert rows[0].names == rows[1].names;
  }

  lemma OnlyRow(row: Row, q: Request, statuses: set<Status>)
    requires Canonical(row.names) == row.names == q
    ensures Newest([row], q, statuses).None? <==> row.status !in statuses
  {
    hide Canonical, Matches;
    CanonicalRowMatches(row, q, statuses);
    assert [row][..0] == [];
  }

  /** Left to itself, a create takes the table exactly where the handler as a whole takes it. */
  lemma AloneIsCreated(rows: seq<Row>, p: Post)
    requires Acceptable(p) && forall i, j :: 0 <= i < j < |rows| ==> rows[i].id != rows[j].id
    ensures Reaches(Table(rows, map[]), Table(Created(rows, p).0, map[]))
  {
    hide Reaches, Canonical, Matches, Newest, LastWhere, Trim;
    var start := Table(rows, map[]);
    Here(start);
    var t := start;
    Then(start, t, Accept(0, p));
    t := Do(t, Accept(0, p));
    Then(start, t, SearchActive(0));
    t := Do(t, SearchActive(0));
    if 0 in t.handlers {
      Then(start, t, SearchInFlight(0));
      t := Do(t, SearchInFlight(0));
      if 0 in t.handlers {
        Then(start, t, SearchFailed(0));
        t := Do(t, SearchFailed(0));
        Then(start, t, Commit(0));
        t := Do(t, Commit(0));
        SameWrite(rows, p);
      }
    }
    assert t == Table(Created(rows, p).0, map[]);
  }

  /** Updating the found row by its id is updating it in place. */
  lemma SameWrite(rows: seq<Row>, p: Post)
    requires forall i, j :: 0 <= i < j < |rows| ==> rows[i].id != rows[j].id
    ensures var failed := Newest(rows, Canonical(p.request), {Failed});
            failed.Some? ==> failed.value < |rows| && MoveAll(rows, rows[failed.value].id, Pending)
                             == rows[failed.value := rows[failed.value].(status := Pending)]
  {
    hide Canonical, Matches, LastWhere;
  }
}
