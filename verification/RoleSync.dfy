/** Reconciling role assignments: with the identity provider's groups at every OIDC sign-in,
    and with the legacy `is_admin` column at boot. */
module RoleSync {
  import opened Text

  /** The UNIQUE (user_id, role_id, scope) key of `role_assignments`. */
  datatype Grant = Grant(user: string, role: string, scope: string)

  datatype Source = Manual | Oidc

  datatype Mapping = Mapping(group: string, role: string, scope: string)

  const SUPER_ADMIN := "system:super_admin"
  const OPERATOR := "system:operator"
  const GLOBAL := "global"

  type Table = map<Grant, Source>

  // ── What a sync computes ───────────────────────────────────────────────────

  /** These writes go through. */
  ghost predicate AllOk(ok: nat -> bool, first: nat, end: nat) {
    forall n :: first <= n < end ==> ok(n)
  }

  lemma OneMoreOk(ok: nat -> bool, first: nat, end: nat)
    requires AllOk(ok, first, end) && ok(end)
    ensures AllOk(ok, first, end + 1)
  {}

  function Desired(user: string, mappings: seq<Mapping>, groups: seq<string>): set<Grant> {
    set m | m in mappings && m.group in groups :: Grant(user, m.role, m.scope)
  }

  /** The table after a complete sync: the user's OIDC rows become the desired set, manual rows
      outside it stay, other users are untouched. */
  function Synced(rows: Table, user: string, desired: set<Grant>): Table {
    map g | g in rows.Keys + desired && (g in desired || g.user != user || rows[g] == Manual)
      :: if g in desired then Oidc else rows[g]
  }

  function AsOidc(grants: set<Grant>): Table {
    map g | g in grants :: Oidc
  }

  function OidcGrants(rows: Table, user: string): set<Grant> {
    set g | g in rows && g.user == user && rows[g] == Oidc
  }

  function ManualGrants(rows: Table, user: string): set<Grant> {
    set g | g in rows && g.user == user && rows[g] == Manual
  }

  function GrantsOf(rows: Table, user: string): set<Grant> {
    set g | g in rows && g.user == user
  }

  class Roles {
    var rows: Table
    var isAdmin: map<string, bool>

    constructor (rows: Table, isAdmin: map<string, bool>)
      ensures this.rows == rows && this.isAdmin == isAdmin
    {
      this.rows := rows;
      this.isAdmin := isAdmin;
    }

    /** `sync_oidc_role_assignments`. Every database write may fail, which abandons the sync
        half-way: `ok(n)` says whether the n-th write goes through. There is one for each grant that
        comes or goes, and one for the flag. A complete sync yields the
        `Synced` table; an abandoned one leaves a table from which a retry yields the same. */
    method Sync(user: string, mappings: seq<Mapping>, groups: seq<string>, ok: nat -> bool) returns (done: bool)
      modifies this
      ensures var desired, current := Desired(user, mappings, groups), OidcGrants(old(rows), user);
              done <==> AllOk(ok, 0, |current - desired| + |desired - current| + 1)
      ensures var desired := Desired(user, mappings, groups);
              Synced(rows, user, desired) == Synced(old(rows), user, desired)
      ensures done ==> rows == Synced(old(rows), user, Desired(user, mappings, groups))
      ensures done && user in old(isAdmin) ==>
                isAdmin == old(isAdmin)[user := Grant(user, SUPER_ADMIN, GLOBAL) in rows]
      ensures !done || user !in old(isAdmin) ==> isAdmin == old(isAdmin)
    {
      hide Desired, Synced, OidcGrants, AsOidc;
      var desired := Collect(user, mappings, groups);
      var current := OidcGrants(rows, user);
      var dropped, writes := DropUndesired(user, current, desired, ok);
      Fewer({}, desired - current);
      if !dropped { return false; }
      var inserted;
      inserted, writes := InsertMissing(user, desired - current, desired, ok, writes);
      if !inserted || !ok(writes) { return false; }
      SyncedByParts(old(rows), user, desired);

      if user in isAdmin {
        isAdmin := isAdmin[user := Grant(user, SUPER_ADMIN, GLOBAL) in rows];
      }
      done := true;
    }

    /** Every grant that a group of the claim brings. */
    method Collect(user: string, mappings: seq<Mapping>, groups: seq<string>) returns (desired: set<Grant>)
      ensures desired == Desired(user, mappings, groups)
    {
      desired := {};
      for i := 0 to |mappings|
        invariant desired == Desired(user, mappings[..i], groups)
      {
        assert mappings[..i + 1] == mappings[..i] + [mappings[i]];
        if mappings[i].group in groups {
          desired := desired + {Grant(user, mappings[i].role, mappings[i].scope)};
        }
      }
      assert mappings[..|mappings|] == mappings;
    }

    /** Deletes the OIDC rows nobody asks for any more. */
    method DropUndesired(user: string, current: set<Grant>, desired: set<Grant>, ok: nat -> bool)
      returns (done: bool, writes: nat)
      requires current == OidcGrants(rows, user)
      modifies this`rows
      ensures AllOk(ok, 0, writes) && (!done ==> writes < |current - desired| && !ok(writes))
      ensures done ==> writes == |current - desired|
      ensures Synced(rows, user, desired) == Synced(old(rows), user, desired)
      ensures done ==> rows == old(rows) - (current - desired)
    {
      assert AllOk(ok, 0, 0);
      hide *;
      writes := 0;
      var left := current;
      ghost var gone: set<Grant> := {};
      NothingGone(rows, gone);
      while left != {}
        invariant left <= current && left !! gone && gone <= current - desired <= gone + left
        invariant rows == old(rows) - gone
        invariant writes == |gone| && AllOk(ok, 0, writes)
      {
        var g :| g in left;
        if g !in desired {
          OneMoreGone(old(rows), current - desired, gone, g);
          if !ok(writes) {
            DropKeepsSynced(old(rows), user, desired, gone);
            return false, writes;
          }
          OneMoreOk(ok, 0, writes);
          writes := writes + 1;
          rows := rows - {g};
          gone := gone + {g};
        }
        left := left - {g};
      }
      assert gone == current - desired;
      DropKeepsSynced(old(rows), user, desired, gone);
      done := true;
    }

    /** Upserts the desired rows that were not OIDC-sourced yet. */
    method InsertMissing(user: string, missing: set<Grant>, desired: set<Grant>, ok: nat -> bool, writes0: nat)
      returns (done: bool, writes: nat)
      requires missing <= desired
      modifies this`rows
      ensures writes0 <= writes && AllOk(ok, writes0, writes)
      ensures !done ==> writes < writes0 + |missing| && !ok(writes)
      ensures done ==> writes == writes0 + |missing|
      ensures Synced(rows, user, desired) == Synced(old(rows), user, desired)
      ensures done ==> rows == old(rows) + AsOidc(missing)
    {
      hide Synced, AsOidc;
      NothingAsOidc(rows);
      writes := writes0;
      var todo := missing;
      while todo != {}
        invariant todo <= missing
        invariant rows == old(rows) + AsOidc(missing - todo)
        invariant writes == writes0 + |missing - todo| && AllOk(ok, writes0, writes)
      {
        InsertKeepsSynced(old(rows), user, desired, missing - todo);
        var g :| g in todo;
        OneMoreAsOidc(old(rows), missing - todo, g);
        assert missing - (todo - {g}) == missing - todo + {g};
        Fewer(missing - todo + {g}, missing);
        if !ok(writes) { return false, writes; }
        OneMoreOk(ok, writes0, writes);
        writes := writes + 1;
        rows := rows[g := Oidc];
        todo := todo - {g};
      }
      assert missing - todo == missing;
      InsertKeepsSynced(old(rows), user, desired, missing);
      done := true;
    }

    /** `set_user_admin_status`; `ok(n)` says whether the n-th database write goes through. When it
        completes, the user holds global SuperAdmin exactly as asked, and one who is no
        administrator holds global Operator. Whatever else anybody held stays, with its source; a
        grant that was there already is not touched. A demotion that fails between its two writes
        leaves the user without SuperAdmin and without the Operator meant to replace it. */
    method SetUserAdminStatus(user: string, admin: bool, ok: nat -> bool, writes0: nat)
      returns (done: bool, writes: nat)
      modifies this`rows
      ensures done ==>
                var root, operator := Grant(user, SUPER_ADMIN, GLOBAL), Grant(user, OPERATOR, GLOBAL);
                && (root in rows <==> admin)
                && (!admin ==> operator in rows)
                && GrantsOf(rows, user) != {}
      ensures done ==> forall g :: g in old(rows) && (admin || g != Grant(user, SUPER_ADMIN, GLOBAL)) ==>
                g in rows && rows[g] == old(rows)[g]
      ensures done ==> forall g :: g in rows && g !in old(rows) ==>
                rows[g] == Manual && g == Grant(user, if admin then SUPER_ADMIN else OPERATOR, GLOBAL)
      ensures !done ==>
                rows == if !admin && ok(writes0) then old(rows) - {Grant(user, SUPER_ADMIN, GLOBAL)} else old(rows)
      ensures done <==> ok(writes0) && (admin || ok(writes0 + 1))
      ensures done ==> writes == writes0 + if admin then 1 else 2
    {
      var given := Grant(user, if admin then SUPER_ADMIN else OPERATOR, GLOBAL);
      writes := writes0;
      if !ok(writes) {
        return false, writes;
      }
      writes := writes + 1;
      if admin {
        InsertManual(Grant(user, SUPER_ADMIN, GLOBAL));
      } else {
        rows := rows - {Grant(user, SUPER_ADMIN, GLOBAL)};
        if !ok(writes) {
          return false, writes;
        }
        writes := writes + 1;
        InsertManual(Grant(user, OPERATOR, GLOBAL));
      }
      assert given in GrantsOf(rows, user);
      done := true;
    }

    /** INSERT … ON CONFLICT DO NOTHING. */
    method InsertManual(g: Grant)
      modifies this`rows
      ensures rows == Inserted(old(rows), g)
    {
      if g !in rows {
        rows := rows[g := Manual];
      }
    }

    /** One user of the boot-time pass: they get the grant they are owed, if any; a failed write
        leaves the table as it was. */
    method MigrateUser(user: string, ok: nat -> bool, writes0: nat) returns (done: bool, writes: nat)
      requires user in isAdmin
      modifies this`rows
      ensures done ==> var owed := Owed(old(rows), user, isAdmin[user]);
                       rows == if owed.Some? then old(rows)[owed.value := Manual] else old(rows)
      ensures !done ==> rows == old(rows)
      ensures (forall n :: ok(n)) ==> done
    {
      ghost var start := rows;
      var held := GrantsOf(rows, user);
      done, writes := true, writes0;
      if isAdmin[user] && !(exists g :: g in held && g.role == SUPER_ADMIN) {
        done, writes := SetUserAdminStatus(user, true, ok, writes0);
        if done { AdminStatusIsUnique(start, rows, user, true); }
      } else if held == {} {
        done, writes := SetUserAdminStatus(user, false, ok, writes0);
        if done { AdminStatusIsUnique(start, rows, user, false); }
        NothingToDemote(start, user);
      }
      OwedStep(start, user, isAdmin[user]);
    }

    /** `migrate_existing_users`: the boot-time pass over all users, in any order. One that a failed
        write abandons leaves a table from which the next boot reaches the same. */
    method MigrateExistingUsers(ok: nat -> bool) returns (done: bool)
      modifies this`rows
      ensures done ==> rows == Migrated(old(rows), isAdmin)
      ensures Migrated(rows, isAdmin) == Migrated(old(rows), isAdmin)
      ensures (forall n :: ok(n)) ==> done
    {
      hide Owed, Migrated;
      var left, writes := isAdmin.Keys, 0;
      NobodyMigrated(rows);
      while left != {}
        invariant left <= isAdmin.Keys
        invariant rows == Migrated(old(rows), map u | u in isAdmin && u !in left :: isAdmin[u])
      {
        var user :| user in left;
        ghost var before: map<string, bool> := map u | u in isAdmin && u !in left :: isAdmin[u];
        MigratedOthers(old(rows), before, user);
        MigratedOneMore(old(rows), before, user, isAdmin[user]);
        OwedByGrants(old(rows), rows, user, isAdmin[user]);
        MigratedResumes(old(rows), before, isAdmin);
        done, writes := MigrateUser(user, ok, writes);
        if !done {
          return;
        }
        left := left - {user};
        ghost var after := map u | u in isAdmin && u !in left :: isAdmin[u];
        assert after == before[user := isAdmin[user]];
      }
      assert (map u | u in isAdmin && u !in left :: isAdmin[u]) == isAdmin;
      MigratedResumes(old(rows), isAdmin, isAdmin);
      done := true;
    }
  }

  /** Dropping what is no longer desired and upserting what is missing makes the `Synced` table. */
  lemma SyncedByParts(rows: Table, user: string, desired: set<Grant>)
    ensures var current := OidcGrants(rows, user);
            rows - (current - desired) + AsOidc(desired - current) == Synced(rows, user, desired)
  {}

  lemma NothingGone(rows: Table, gone: set<Grant>)
    requires gone == {}
    ensures rows - gone == rows
  {}

  lemma OneMoreGone(rows: Table, all: set<Grant>, gone: set<Grant>, g: Grant)
    requires gone <= all && g in all && g !in gone
    ensures |gone| < |all| && |gone + {g}| == |gone| + 1 && rows - gone - {g} == rows - (gone + {g})
  {
    Fewer(gone + {g}, all);
  }

  lemma Fewer<T>(a: set<T>, b: set<T>)
    requires a <= b
    ensures |a| <= |b|
  {
    assert b == a + (b - a);
  }

  lemma NothingToDemote(rows: Table, user: string)
    requires GrantsOf(rows, user) == {}
    ensures rows - {Grant(user, SUPER_ADMIN, GLOBAL)} == rows
  {
    var root := Grant(user, SUPER_ADMIN, GLOBAL);
    assert root in rows ==> root in GrantsOf(rows, user);
  }

  lemma NobodyMigrated(rows: Table)
    ensures forall none: map<string, bool> :: none == map[] ==> Migrated(rows, none) == rows
  {}

  /** What a user is owed depends on their own grants only. */
  lemma OwedByGrants(a: Table, b: Table, user: string, admin: bool)
    requires GrantsOf(a, user) == GrantsOf(b, user)
    ensures Owed(a, user, admin) == Owed(b, user, admin)
  {}

  lemma DropKeepsSynced(rows: Table, user: string, desired: set<Grant>, gone: set<Grant>)
    requires gone <= OidcGrants(rows, user) - desired
    ensures Synced(rows - gone, user, desired) == Synced(rows, user, desired)
  {}

  lemma InsertKeepsSynced(rows: Table, user: string, desired: set<Grant>, added: set<Grant>)
    requires added <= desired
    ensures Synced(rows + AsOidc(added), user, desired) == Synced(rows, user, desired)
  {}

  lemma OneMoreAsOidc(rows: Table, added: set<Grant>, g: Grant)
    ensures rows + AsOidc(added + {g}) == (rows + AsOidc(added))[g := Oidc]
  {}

  lemma NothingAsOidc(rows: Table)
    ensures forall none: set<Grant> :: none == {} ==> rows + AsOidc(none) == rows
  {}

  // ── The sync, over one run and over many ───────────────────────────────────

  /** Some mapping gives the role at this scope to one of the groups. */
  predicate MappedTo(mappings: seq<Mapping>, groups: seq<string>, g: Grant) {
    exists k, i :: 0 <= k < |mappings| && 0 <= i < |groups| && mappings[k] == Mapping(groups[i], g.role, g.scope)
  }

  lemma DesiredIsMapped(user: string, mappings: seq<Mapping>, groups: seq<string>, g: Grant)
    ensures g in Desired(user, mappings, groups) <==> g.user == user && MappedTo(mappings, groups, g)
  {
    if g in Desired(user, mappings, groups) {
      var m :| m in mappings && m.group in groups && g == Grant(user, m.role, m.scope);
      var k :| 0 <= k < |mappings| && mappings[k] == m;
      var i :| 0 <= i < |groups| && groups[i] == m.group;
      assert mappings[k] == Mapping(groups[i], g.role, g.scope);
    }
    if g.user == user && MappedTo(mappings, groups, g) {
      var k, i :| 0 <= k < |mappings| && 0 <= i < |groups| && mappings[k] == Mapping(groups[i], g.role, g.scope);
      assert mappings[k] in mappings && groups[i] in groups;
    }
  }

  /** After a sync the OIDC-sourced grants are exactly those the mappings give to the groups of the
      claim, at their scopes; the total is those plus every grant that was manual, and no other user is touched. */
  lemma SyncIsExact(rows: Table, user: string, mappings: seq<Mapping>, groups: seq<string>)
    ensures var desired := Desired(user, mappings, groups);
            var after := Synced(rows, user, desired);
            && OidcGrants(after, user) == desired
            && (forall g :: g in OidcGrants(after, user) <==> g.user == user && MappedTo(mappings, groups, g))
            && GrantsOf(after, user) == desired + ManualGrants(rows, user)
            && forall g: Grant :: g.user != user ==> (g in after <==> g in rows) && (g in rows ==> after[g] == rows[g])
  {
    forall g ensures g in Desired(user, mappings, groups) <==> g.user == user && MappedTo(mappings, groups, g) {
      DesiredIsMapped(user, mappings, groups, g);
    }
  }

  /** A second sync with the same groups changes nothing. */
  lemma SyncIsIdempotent(rows: Table, user: string, desired: set<Grant>)
    ensures var after := Synced(rows, user, desired); Synced(after, user, desired) == after
  {}

  /** A manual grant is "left untouched", as the source promises, exactly when no group asks for
      the same (role, scope): otherwise the row becomes OIDC-owned. */
  lemma ManualGrantUntouchedIff(rows: Table, user: string, desired: set<Grant>, g: Grant)
    requires g in rows && rows[g] == Manual && g.user == user
    ensures g in Synced(rows, user, desired)
    ensures Synced(rows, user, desired)[g] == Manual <==> g !in desired
  {}

  /** A whole history of sign-ins, each with its own group claim. */
  function SyncRun(rows: Table, user: string, claims: seq<set<Grant>>): Table
    decreases |claims|
  {
    if claims == [] then rows else SyncRun(Synced(rows, user, claims[0]), user, claims[1..])
  }

  /** What is left of a hand-administered grant after any history of sign-ins: it is still there
      iff no claim ever asked for it, or the last one still does. So one sign-in with the group
      followed by one without it removes a grant an administrator gave by hand. */
  lemma {:induction false} ManualGrantAfterRun(rows: Table, user: string, claims: seq<set<Grant>>, g: Grant)
    requires g in rows && rows[g] == Manual && g.user == user && claims != []
    ensures g in SyncRun(rows, user, claims) <==>
            g in claims[|claims| - 1] || forall d :: d in claims ==> g !in d
    decreases |claims|
  {
    var next := Synced(rows, user, claims[0]);
    if |claims| == 1 {
      assert SyncRun(rows, user, claims) == next;
    } else {
      assert claims == [claims[0]] + claims[1..];
      assert claims[|claims| - 1] == claims[1..][|claims| - 2];
      if g in claims[0] {
        OidcGrantAfterRun(next, user, claims[1..], g);
        assert claims[0] in claims;
      } else {
        ManualGrantAfterRun(next, user, claims[1..], g);
      }
    }
  }

  /** A grant that is not manual is held after a run exactly when the last claim asks for it. */
  lemma {:induction false} OidcGrantAfterRun(rows: Table, user: string, claims: seq<set<Grant>>, g: Grant)
    requires g.user == user && (g in rows ==> rows[g] == Oidc) && claims != []
    ensures g in SyncRun(rows, user, claims) <==> g in claims[|claims| - 1]
    decreases |claims|
  {
    var next := Synced(rows, user, claims[0]);
    if |claims| == 1 {
      assert SyncRun(rows, user, claims) == next;
    } else {
      OidcGrantAfterRun(next, user, claims[1..], g);
    }
  }

  // ── The boot-time migration ────────────────────────────────────────────────

  function Inserted(rows: Table, g: Grant): Table {
    if g in rows then rows else rows[g := Manual]
  }

  function WithAdminStatus(rows: Table, user: string, admin: bool): Table {
    if admin then Inserted(rows, Grant(user, SUPER_ADMIN, GLOBAL))
    else Inserted(rows - {Grant(user, SUPER_ADMIN, GLOBAL)}, Grant(user, OPERATOR, GLOBAL))
  }

  predicate HoldsAnySuperAdmin(rows: Table, user: string) {
    exists g :: g in GrantsOf(rows, user) && g.role == SUPER_ADMIN
  }

  /** The grant the migration owes a user, if any. */
  function Owed(rows: Table, user: string, admin: bool): Option<Grant> {
    if admin && !HoldsAnySuperAdmin(rows, user) then Some(Grant(user, SUPER_ADMIN, GLOBAL))
    else if GrantsOf(rows, user) == {} then Some(Grant(user, OPERATOR, GLOBAL))
    else None
  }

  function AllOwed(rows: Table, users: map<string, bool>): set<Grant> {
    set u | u in users && Owed(rows, u, users[u]).Some? :: Owed(rows, u, users[u]).value
  }

  /** The migration only ever adds rows: one for each user that is owed one. */
  function Migrated(rows: Table, users: map<string, bool>): Table {
    (map g | g in AllOwed(rows, users) :: Manual) + rows
  }

  lemma OwedIsOwn(rows: Table, user: string, admin: bool)
    requires Owed(rows, user, admin).Some?
    ensures Owed(rows, user, admin).value.user == user
    ensures Owed(rows, user, admin).value !in rows
  {
    var g := Owed(rows, user, admin).value;
    assert g in rows ==> g in GrantsOf(rows, user);
  }

  /** Users migrated earlier do not change what this user holds. */
  lemma MigratedOthers(rows: Table, users: map<string, bool>, user: string)
    requires user !in users
    ensures GrantsOf(Migrated(rows, users), user) == GrantsOf(rows, user)
  {
    hide Owed;
    forall u | u in users && Owed(rows, u, users[u]).Some? { OwedIsOwn(rows, u, users[u]); }
  }

  /** The three promises of `SetUserAdminStatus` fix the table it leaves. */
  lemma AdminStatusIsUnique(before: Table, after: Table, user: string, admin: bool)
    requires Grant(user, SUPER_ADMIN, GLOBAL) in after <==> admin
    requires !admin ==> Grant(user, OPERATOR, GLOBAL) in after
    requires forall g :: g in before && (admin || g != Grant(user, SUPER_ADMIN, GLOBAL)) ==>
               g in after && after[g] == before[g]
    requires forall g :: g in after && g !in before ==>
               after[g] == Manual && g == Grant(user, if admin then SUPER_ADMIN else OPERATOR, GLOBAL)
    ensures after == WithAdminStatus(before, user, admin)
  {}

  /** What the two branches of the loop body write is what the user is owed. */
  lemma OwedStep(rows: Table, user: string, admin: bool)
    ensures var owed := Owed(rows, user, admin);
            && (owed.Some? && admin && !HoldsAnySuperAdmin(rows, user) ==>
                 WithAdminStatus(rows, user, true) == rows[owed.value := Manual])
            && (owed.Some? && !(admin && !HoldsAnySuperAdmin(rows, user)) ==>
                 WithAdminStatus(rows, user, false) == rows[owed.value := Manual])
  {
    var root, operator := Grant(user, SUPER_ADMIN, GLOBAL), Grant(user, OPERATOR, GLOBAL);
    assert root in rows ==> root in GrantsOf(rows, user);
    assert operator in rows ==> operator in GrantsOf(rows, user);
  }

  lemma OwedOneMore(rows: Table, users: map<string, bool>, user: string, admin: bool)
    requires user !in users
    ensures var owed := Owed(rows, user, admin);
            AllOwed(rows, users[user := admin]) == AllOwed(rows, users) + if owed.Some? then {owed.value} else {}
  {
    hide Owed;
    var more := users[user := admin];
    forall u | u in users && Owed(rows, u, users[u]).Some?
      ensures Owed(rows, u, users[u]).value in AllOwed(rows, more)
    {
      assert u in more && more[u] == users[u];
    }
    assert more[user] == admin;
  }

  lemma MigratedOneMore(rows: Table, users: map<string, bool>, user: string, admin: bool)
    requires user !in users
    ensures var owed := Owed(rows, user, admin);
            Migrated(rows, users[user := admin]) ==
            if owed.Some? then Migrated(rows, users)[owed.value := Manual] else Migrated(rows, users)
  {
    hide Owed, AllOwed;
    OwedOneMore(rows, users, user, admin);
    if Owed(rows, user, admin).Some? {
      OwedIsOwn(rows, user, admin);
    }
  }

  /** After the migration every user holds at least one role. An `is_admin` user holds global
      SuperAdmin exactly when they did before or held that role at no scope at all: the
      "self-healing" test ignores scopes, so a zone-scoped SuperAdmin masks a lost global one. */
  lemma MigrationReconciles(rows: Table, users: map<string, bool>, user: string)
    requires user in users
    ensures var m := Migrated(rows, users); var root := Grant(user, SUPER_ADMIN, GLOBAL);
            && GrantsOf(m, user) != {}
            && (users[user] ==> (root in m <==> root in rows || !HoldsAnySuperAdmin(rows, user)))
            && (!users[user] ==> (root in m <==> root in rows))
            && (forall g :: g in rows ==> g in m && m[g] == rows[g])
            && (forall g: Grant :: g.user == user && g in m && g !in rows ==>
                  m[g] == Manual && g == if users[user] && !HoldsAnySuperAdmin(rows, user) then root
                                         else Grant(user, OPERATOR, GLOBAL))
            && (GrantsOf(rows, user) != {} && !(users[user] && !HoldsAnySuperAdmin(rows, user)) ==>
                  GrantsOf(m, user) == GrantsOf(rows, user))
  {
    var m := Migrated(rows, users);
    var root := Grant(user, SUPER_ADMIN, GLOBAL);
    OwedToUser(rows, users, user);
    assert root in rows ==> root in GrantsOf(rows, user);
    var g := if GrantsOf(rows, user) == {} then Owed(rows, user, users[user]).value else PickOne(GrantsOf(rows, user));
    assert g in GrantsOf(m, user);
  }

  ghost function PickOne<T>(s: set<T>): (x: T)
    requires s != {}
    ensures x in s
  {
    var x :| x in s; x
  }

  /** Among the rows the migration adds, a user's own is the one they are owed. */
  lemma OwedToUser(rows: Table, users: map<string, bool>, user: string)
    requires user in users
    ensures var owed := Owed(rows, user, users[user]);
            forall g: Grant :: g.user == user ==> (g in AllOwed(rows, users) <==> owed == Some(g))
  {
    hide Owed;
    forall u | u in users && Owed(rows, u, users[u]).Some? { OwedIsOwn(rows, u, users[u]); }
  }

  lemma MigratedOwesNothing(rows: Table, users: map<string, bool>, user: string)
    requires user in users
    ensures Owed(Migrated(rows, users), user, users[user]) == None
  {
    var m := Migrated(rows, users);
    MigrationReconciles(rows, users, user);
    OwedToUser(rows, users, user);
    var root := Grant(user, SUPER_ADMIN, GLOBAL);
    assert GrantsOf(rows, user) <= GrantsOf(m, user);
    assert HoldsAnySuperAdmin(rows, user) ==> HoldsAnySuperAdmin(m, user);
    assert root in m ==> root in GrantsOf(m, user);
  }

  /** A pass that stopped after some of the users is made good by a whole one. */
  lemma MigratedResumes(rows: Table, part: map<string, bool>, users: map<string, bool>)
    requires forall u :: u in part ==> u in users && users[u] == part[u]
    ensures Migrated(Migrated(rows, part), users) == Migrated(rows, users)
  {
    hide Owed;
    var m := Migrated(rows, part);
    forall u | u in users
      ensures Owed(m, u, users[u]) == if u in part then None else Owed(rows, u, users[u])
    {
      if u in part {
        MigratedOwesNothing(rows, part, u);
      } else {
        MigratedOthers(rows, part, u);
        OwedByGrants(rows, m, u, users[u]);
      }
    }
    SplitOwed(rows, m, part, users);
    hide AllOwed;
    AddTwice(rows, AllOwed(rows, part), AllOwed(m, users), AllOwed(rows, users));
  }

  lemma AddTwice(rows: Table, first: set<Grant>, second: set<Grant>, both: set<Grant>)
    requires second + first == both
    ensures (map g | g in second :: Manual) + ((map g | g in first :: Manual) + rows)
            == (map g | g in both :: Manual) + rows
  {}

  lemma SplitOwed(rows: Table, m: Table, part: map<string, bool>, users: map<string, bool>)
    requires forall u :: u in part ==> u in users && users[u] == part[u]
    requires forall u :: u in users ==> Owed(m, u, users[u]) == if u in part then None else Owed(rows, u, users[u])
    ensures AllOwed(m, users) + AllOwed(rows, part) == AllOwed(rows, users)
  {
    hide Owed;
    forall g | g in AllOwed(rows, users) ensures g in AllOwed(m, users) + AllOwed(rows, part) {
      var u :| u in users && Owed(rows, u, users[u]).Some? && Owed(rows, u, users[u]).value == g;
      if u in part {
        assert Owed(rows, u, part[u]).value == g;
      } else {
        assert Owed(m, u, users[u]).value == g;
      }
    }
    forall g | g in AllOwed(m, users) ensures g in AllOwed(rows, users) {
      var u :| u in users && Owed(m, u, users[u]).Some? && Owed(m, u, users[u]).value == g;
      assert Owed(rows, u, users[u]).value == g;
    }
    forall g | g in AllOwed(rows, part) ensures g in AllOwed(rows, users) {
      var u :| u in part && Owed(rows, u, part[u]).Some? && Owed(rows, u, part[u]).value == g;
      assert Owed(rows, u, users[u]).value == g;
    }
  }

  /** Booting again changes nothing. */
  lemma MigrationIsIdempotent(rows: Table, users: map<string, bool>)
    ensures var m := Migrated(rows, users); Migrated(m, users) == m
  {
    MigratedResumes(rows, users, users);
  }

  // ── Usernames ──────────────────────────────────────────────────────────────

  function Digits(n: nat): (r: string)
    ensures r != "" && forall i :: 0 <= i < |r| ==> '0' <= r[i] <= '9'
  {
    (if n < 10 then "" else Digits(n / 10)) + [('0' as int + n % 10) as char]
  }

  lemma {:induction false} DigitsInjective(a: nat, b: nat)
    requires Digits(a) == Digits(b)
    ensures a == b
  {
    DigitsParts(a);
    DigitsParts(b);
    if a >= 10 && b >= 10 {
      DigitsInjective(a / 10, b / 10);
    }
  }

  lemma DigitsParts(n: nat)
    ensures var d := Digits(n); var k := |d| - 1;
            d[k] as int - '0' as int == n % 10 && d[..k] == if n < 10 then "" else Digits(n / 10)
  {}

  function BaseName(candidate: string): string {
    if Trim(candidate) == "" then "user" else Trim(candidate)
  }

  /** The k-th name tried: the base itself, then `base-2`, `base-3`, … */
  function Attempt(candidate: string, k: nat): string {
    if k == 0 then BaseName(candidate) else BaseName(candidate) + "-" + Digits(k + 1)
  }

  lemma AttemptsDiffer(candidate: string, j: nat, k: nat)
    requires j < k
    ensures Attempt(candidate, j) != Attempt(candidate, k)
  {
    hide Trim;
    var base := BaseName(candidate);
    if j > 0 && Attempt(candidate, j) == Attempt(candidate, k) {
      assert Attempt(candidate, j)[|base| + 1..] == Digits(j + 1);
      assert Attempt(candidate, k)[|base| + 1..] == Digits(k + 1);
      DigitsInjective(j + 1, k + 1);
    }
  }

  /** `make_unique_username` terminates for every user table and returns the first free name. */
  method MakeUniqueUsername(taken: set<string>, candidate: string) returns (name: string)
    ensures name !in taken
    ensures var base := if Trim(candidate) == "" then "user" else Trim(candidate);
            if base !in taken then name == base
            else exists n :: n >= 2 && name == base + "-" + Digits(n)
                             && forall m :: 2 <= m < n ==> base + "-" + Digits(m) in taken
    ensures exists k: nat :: name == Attempt(candidate, k) && forall j: nat :: j < k ==> Attempt(candidate, j) in taken
  {
    hide Trim, Digits;
    var base := BaseName(candidate);
    name := base;
    var suffix := 2;
    ghost var k := 0;
    ghost var unseen := taken;
    while name in taken
      invariant suffix == k + 2 && base == BaseName(candidate)
      invariant name == Attempt(candidate, k)
      invariant forall j: nat :: j < k ==> Attempt(candidate, j) in taken
      invariant forall x :: x in taken && x !in unseen ==> exists j: nat :: j < k && x == Attempt(candidate, j)
      invariant unseen <= taken
      decreases unseen
    {
      if name !in unseen {
        var j: nat :| j < k && name == Attempt(candidate, j);
        AttemptsDiffer(candidate, j, k);
      }
      unseen := unseen - {name};
      name := base + "-" + Digits(suffix);
      suffix := suffix + 1;
      k := k + 1;
    }
    assert base in taken ==> name == base + "-" + Digits(suffix - 1) by { assert Attempt(candidate, 0) == base; }
    forall m | 2 <= m < suffix - 1 ensures base + "-" + Digits(m) in taken {
      assert Attempt(candidate, m - 1) in taken;
    }
  }
}
