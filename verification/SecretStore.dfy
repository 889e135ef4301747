/** Where secret material lives: database columns or a key-value backend behind references, and
    the boot-time migration between the two. */
module SecretStore {
  import opened Text

  type Secret = map<string, string>

  const REF_PREFIX := "openbao:"
  const ACME_PATH := "acme/account"
  const F_FULLCHAIN := "fullchain_pem"
  const F_CERT := "cert_pem"
  const F_CHAIN := "chain_pem"
  const F_PRIVKEY := "privkey_pem"
  const F_PFX := "pfx_password"
  const F_ACME_KEY := "key_pkcs8_b64"

  datatype Pems = Pems(fullchain: string, cert: string, chain: string, privkey: string)

  datatype Material = Material(fullchain: Option<string>, cert: Option<string>, chain: Option<string>,
                               privkey: Option<string>, pfx: Option<string>)

  /** The secret-bearing columns of a certificate row. */
  datatype CertRow = CertRow(fullchain: Option<string>, cert: Option<string>, chain: Option<string>,
                             privkey: Option<string>, pfxEnc: Option<string>, secretRef: Option<string>)

  /** Encryption under `COOKIE_KEY`, either way of which may fail, and the JSON form of an
      integration's configuration. */
  datatype Codec = Codec(encrypt: string -> Option<string>, decrypt: string -> Option<string>,
                         render: Secret -> string, parse: string -> Secret)

  /** What becomes of one external call: done; failed without effect; done but reported as failed
      (or the process stopped right after); or, for a write, done with fields lost or altered. */
  datatype Outcome = Done | Lost | LostReply | Garbled(stored: Secret)

  /** The calls that report success. */
  predicate Replied(o: Outcome) {
    o.Done? || o.Garbled?
  }

  /** What a write leaves at its path, if it leaves anything. */
  function Landed(o: Outcome, data: Secret): Option<Secret> {
    match o
    case Lost => None
    case Garbled(stored) => Some(map k | k in stored && k in data :: stored[k])
    case _ => Some(data)
  }

  // ── References ─────────────────────────────────────────────────────────────

  function RefPath(value: string): Option<string> {
    if REF_PREFIX <= value then Some(value[|REF_PREFIX|..]) else None
  }

  function CertPath(id: string): string {
    "certificates/" + id
  }

  function IntegrationPath(id: string): string {
    "integrations/" + id
  }

  lemma PathsAreDistinct(a: string, b: string)
    ensures CertPath(a) == CertPath(b) ==> a == b
    ensures IntegrationPath(a) == IntegrationPath(b) ==> a == b
    ensures CertPath(a) != IntegrationPath(b) && CertPath(a) != ACME_PATH && IntegrationPath(a) != ACME_PATH
  {
    assert CertPath(a)[13..] == a && CertPath(b)[13..] == b;
    assert IntegrationPath(a)[13..] == a && IntegrationPath(b)[13..] == b;
    assert CertPath(a)[0] == 'c' && IntegrationPath(b)[0] == 'i' && IntegrationPath(a)[0] == 'i';
  }

  lemma RefPathOfRef(path: string)
    ensures RefPath(REF_PREFIX + path) == Some(path)
  {}

  /** The path a row's reference points at, if it has one. */
  function RowRef(row: CertRow): Option<string> {
    if row.secretRef.Some? then RefPath(row.secretRef.value) else None
  }

  // ── Reading ────────────────────────────────────────────────────────────────

  function Get<V>(m: map<string, V>, k: string): Option<V> {
    if k in m then Some(m[k]) else None
  }

  /** A backend read: a path with nothing at it reads as no fields. */
  function SecretAt(kv: map<string, Secret>, path: string): Secret {
    if path in kv then kv[path] else map[]
  }

  function FromSecret(s: Secret): Material {
    Material(Get(s, F_FULLCHAIN), Get(s, F_CERT), Get(s, F_CHAIN), Get(s, F_PRIVKEY), Get(s, F_PFX))
  }

  function FromColumns(codec: Codec, row: CertRow): Material {
    Material(row.fullchain, row.cert, row.chain, row.privkey,
             if row.pfxEnc.Some? then codec.decrypt(row.pfxEnc.value) else None)
  }

  /** `load_cert_material`: from wherever the row says; `None` is the error of a reference with no
      backend configured. A dangling reference reads as no material. */
  function LoadCert(codec: Codec, external: bool, kv: map<string, Secret>, row: CertRow): Option<Material> {
    if RowRef(row).Some? then
      if !external then None
      else Some(FromSecret(if RowRef(row).value in kv then kv[RowRef(row).value] else map[]))
    else Some(FromColumns(codec, row))
  }

  function LoadAcme(external: bool, kv: map<string, Secret>, stored: Option<string>): Option<Option<string>> {
    if stored.None? || stored.value == "" then Some(None)
    else if RefPath(stored.value).None? then Some(stored)
    else if !external then None
    else
      var path := RefPath(stored.value).value;
      Some(if path in kv then Get(kv[path], F_ACME_KEY) else None)
  }

  function LoadConfig(codec: Codec, external: bool, kv: map<string, Secret>, config: string): Option<Secret> {
    if RefPath(config).None? then Some(codec.parse(config))
    else if !external then None
    else
      var path := RefPath(config).value;
      Some(if path in kv then kv[path] else map[])
  }

  // ── What may be in the database ────────────────────────────────────────────

  predicate HasColumns(row: CertRow) {
    row.fullchain.Some? || row.cert.Some? || row.chain.Some? || row.privkey.Some? || row.pfxEnc.Some?
  }

  /** The rows the migration selects. */
  predicate ToMigrate(row: CertRow) {
    row.secretRef.None? && HasColumns(row)
  }

  /** Which are all that hold anything and have no reference. */
  lemma EmptyRowsAreLeft(row: CertRow)
    ensures !ToMigrate(row) <==> row.secretRef.Some? || row == CertRow(None, None, None, None, None, None)
  {}

  predicate PlainAcme(stored: Option<string>) {
    stored.Some? && stored.value != "" && RefPath(stored.value).None?
  }

  function Cleared(id: string): CertRow {
    CertRow(None, None, None, None, None, Some(REF_PREFIX + CertPath(id)))
  }

  /** A row pointed at its secret: the PEM columns are cleared, the encrypted password stays. */
  function Pointed(row: CertRow, id: string): CertRow {
    Cleared(id).(pfxEnc := row.pfxEnc)
  }

  function Fields(m: Material): (s: Secret)
    ensures FromSecret(s) == m
  {
    Field(F_FULLCHAIN, m.fullchain) + Field(F_CERT, m.cert) + Field(F_CHAIN, m.chain)
    + Field(F_PRIVKEY, m.privkey) + Field(F_PFX, m.pfx)
  }

  function Field(name: string, value: Option<string>): Secret {
    if value.Some? then map[name := value.value] else map[]
  }

  class Store {
    const external: bool
    const codec: Codec
    /** Fate of the n-th external call; a stop between two calls is a `Lost` next one. */
    const fate: nat -> Outcome

    var certs: map<string, CertRow>
    var acmeKey: Option<string>
    var integrations: map<string, string>
    var kv: map<string, Secret>
    var calls: nat

    /** Every reference points at its own path. */
    ghost predicate Valid()
      reads this
    {
      && (forall id :: id in certs ==>
           certs[id].secretRef.None? || certs[id].secretRef.value == REF_PREFIX + CertPath(id))
      && (forall id :: id in integrations && RefPath(integrations[id]).Some? ==>
           integrations[id] == REF_PREFIX + IntegrationPath(id))
      && (acmeKey.Some? && RefPath(acmeKey.value).Some? ==> acmeKey.value == REF_PREFIX + ACME_PATH)
    }

    /** The store as its callers see it: what every load returns. */
    ghost function Certs(): map<string, Option<Material>>
      reads this
    {
      map id | id in certs :: LoadCert(codec, external, kv, certs[id])
    }

    ghost function Acme(): Option<Option<string>>
      reads this
    {
      LoadAcme(external, kv, acmeKey)
    }

    ghost function Configs(): map<string, Option<Secret>>
      reads this
    {
      map id | id in integrations :: LoadConfig(codec, external, kv, integrations[id])
    }

    ghost predicate NothingToMigrate()
      reads this
    {
      && (forall id :: id in certs ==> !ToMigrate(certs[id]))
      && !PlainAcme(acmeKey)
      && (forall id :: id in integrations ==> RefPath(integrations[id]).Some?)
    }

    // ── The backend ──────────────────────────────────────────────────────────

    method Write(path: string, data: Secret) returns (ok: bool)
      modifies this`kv, this`calls
      ensures calls == old(calls) + 1
      ensures ok <==> Replied(fate(old(calls)))
      ensures var landed := Landed(fate(old(calls)), data);
              kv == if landed.Some? then old(kv)[path := landed.value] else old(kv)
      ensures ChangedAt(old(kv), kv, path)
      ensures ok ==> path in kv && kv[path].Keys <= data.Keys
    {
      match fate(calls) {
        case Done => kv := kv[path := data]; ok := true;
        case Lost => ok := false;
        case LostReply => kv := kv[path := data]; ok := false;
        case Garbled(stored) => kv := kv[path := map k | k in stored && k in data :: stored[k]]; ok := true;
      }
      calls := calls + 1;
    }

    method Read(path: string) returns (ok: bool, data: Option<Secret>)
      modifies this`calls
      ensures calls == old(calls) + 1
      ensures ok <==> fate(old(calls)).Done?
      ensures ok ==> data == Get(kv, path)
    {
      ok := fate(calls).Done?;
      data := Get(kv, path);
      calls := calls + 1;
    }

    /** `verify_readback`: the check that makes clearing a column safe. */
    method VerifyReadback(path: string, expected: Secret) returns (ok: bool)
      modifies this`calls
      ensures calls == old(calls) + 1
      ensures ok <==> fate(old(calls)).Done? && path in kv && expected.Items <= kv[path].Items
    {
      var read, got := Read(path);
      if !read || got.None? {
        return false;
      }
      ok := true;
      var left := expected.Keys;
      while left != {}
        invariant left <= expected.Keys
        invariant ok
        invariant forall k :: k in expected && k !in left ==> k in got.value && got.value[k] == expected[k]
      {
        var k :| k in left;
        if k !in got.value || got.value[k] != expected[k] {
          assert (k, expected[k]) in expected.Items;
          return false;
        }
        left := left - {k};
      }
    }

    /** Write, read back, compare. On success the path holds exactly the data, even when the
        backend may lose or alter fields. */
    method WriteVerified(path: string, data: Secret) returns (ok: bool)
      modifies this`kv, this`calls
      ensures ChangedAt(old(kv), kv, path)
      ensures ok ==> kv == old(kv)[path := data]
      ensures ok <==> && Replied(fate(old(calls))) && Landed(fate(old(calls)), data) == Some(data)
                      && fate(old(calls) + 1).Done?
      ensures ok ==> calls == old(calls) + 2
      ensures (forall n :: n >= old(calls) ==> fate(n).Done?) ==> ok
      ensures calls >= old(calls)
    {
      ok := Write(path, data);
      if !ok {
        return;
      }
      ok := VerifyReadback(path, data);
      if data.Items <= kv[path].Items {
        SameWhenContained(data, kv[path]);
      }
    }

    // ── Migration ────────────────────────────────────────────────────────────

    /** One certificate: write, verify, and only then clear the columns in one UPDATE. */
    method MigrateCert(id: string) returns (ok: bool)
      requires external && Valid() && id in certs && ToMigrate(certs[id])
      modifies this`kv, this`calls, this`certs
      ensures Valid() && Certs() == old(Certs()) && Acme() == old(Acme()) && Configs() == old(Configs())
      ensures certs == old(certs) || certs == old(certs)[id := Cleared(id)]
      ensures ok ==> certs == old(certs)[id := Cleared(id)] && !ToMigrate(certs[id]) && calls == old(calls) + 3
      ensures (forall n :: n >= old(calls) ==> fate(n).Done?) ==> ok
      ensures calls >= old(calls)
    {
      hide LoadCert, LoadAcme, LoadConfig, FromSecret, FromColumns, CertPath, Fields, ChangedAt;
      ReferenceLoads(codec, external, kv, certs[id], CertPath(id));
      var data := Fields(FromColumns(codec, certs[id]));
      ok := WriteVerified(CertPath(id), data);
      CertWriteUnseen(this, old(kv), id);
      if !ok {
        return;
      }
      var update := fate(calls);
      calls := calls + 1;
      if !update.Lost? {
        ReferenceLoads(codec, external, kv, Cleared(id), CertPath(id));
        certs := certs[id := Cleared(id)];
      }
      ok := Replied(update);
    }

    method MigrateCerts() returns (ok: bool)
      requires external && Valid()
      modifies this`kv, this`calls, this`certs
      ensures Valid() && Certs() == old(Certs()) && Acme() == old(Acme()) && Configs() == old(Configs())
      ensures certs.Keys == old(certs).Keys
      ensures forall id :: id in certs ==>
                certs[id] == old(certs)[id] || (ToMigrate(old(certs)[id]) && certs[id] == Cleared(id))
      ensures ok ==> forall id :: id in certs ==> !ToMigrate(certs[id])
      ensures (forall n :: n >= old(calls) ==> fate(n).Done?) ==> ok
      ensures calls >= old(calls)
      ensures (forall id :: id in old(certs) ==> !ToMigrate(old(certs)[id])) ==>
                ok && kv == old(kv) && calls == old(calls) && certs == old(certs)
    {
      hide LoadCert, LoadAcme, LoadConfig, HasColumns, CertPath, IntegrationPath, RefPath, Cleared, ToMigrate,
          Store.Valid;
      var left := set id | id in certs && ToMigrate(certs[id]);
      while left != {}
        invariant left <= certs.Keys && certs.Keys == old(certs).Keys && calls >= old(calls)
        invariant Valid() && Certs() == old(Certs()) && Acme() == old(Acme()) && Configs() == old(Configs())
        invariant forall id :: id in left ==> ToMigrate(certs[id])
        invariant forall id :: id in certs ==>
          certs[id] == old(certs)[id] || (ToMigrate(old(certs)[id]) && certs[id] == Cleared(id))
        invariant forall id :: id in certs && id !in left ==> !ToMigrate(certs[id])
        invariant (forall id :: id in old(certs) ==> !ToMigrate(old(certs)[id])) ==>
          left == {} && kv == old(kv) && calls == old(calls) && certs == old(certs)
      {
        var id :| id in left;
        ghost var before := certs;
        ok := MigrateCert(id);
        if !ok {
          return;
        }
        left := left - {id};
      }
      ok := true;
    }

    method MigrateAcme() returns (ok: bool)
      requires external && Valid()
      modifies this`kv, this`calls, this`acmeKey
      ensures Valid() && Certs() == old(Certs()) && Acme() == old(Acme()) && Configs() == old(Configs())
      ensures ok ==> !PlainAcme(acmeKey)
      ensures ok && PlainAcme(old(acmeKey)) ==> calls == old(calls) + 3
      ensures (forall n :: n >= old(calls) ==> fate(n).Done?) ==> ok
      ensures calls >= old(calls)
      ensures !PlainAcme(old(acmeKey)) ==> ok && kv == old(kv) && calls == old(calls) && acmeKey == old(acmeKey)
    {
      hide LoadCert, LoadConfig, CertPath, IntegrationPath, ChangedAt;
      if !PlainAcme(acmeKey) {
        return true;
      }
      ok := WriteVerified(ACME_PATH, map[F_ACME_KEY := acmeKey.value]);
      AcmeWriteUnseen(this, old(kv));
      if !ok {
        return;
      }
      var update := fate(calls);
      calls := calls + 1;
      if !update.Lost? {
        RefPathOfRef(ACME_PATH);
        acmeKey := Some(REF_PREFIX + ACME_PATH);
      }
      ok := Replied(update);
    }

    method MigrateIntegration(id: string) returns (ok: bool)
      requires external && Valid() && id in integrations && RefPath(integrations[id]).None?
      modifies this`kv, this`calls, this`integrations
      ensures Valid() && Certs() == old(Certs()) && Acme() == old(Acme()) && Configs() == old(Configs())
      ensures integrations == old(integrations)
                || integrations == old(integrations)[id := REF_PREFIX + IntegrationPath(id)]
      ensures ok ==> integrations == old(integrations)[id := REF_PREFIX + IntegrationPath(id)]
      ensures ok ==> calls == old(calls) + 3
      ensures (forall n :: n >= old(calls) ==> fate(n).Done?) ==> ok
      ensures calls >= old(calls)
    {
      hide LoadCert, LoadAcme, ChangedAt, IntegrationPath, RefPath;
      ok := WriteVerified(IntegrationPath(id), codec.parse(integrations[id]));
      IntegrationWriteUnseen(this, old(kv), id);
      if !ok {
        return;
      }
      var update := fate(calls);
      calls := calls + 1;
      if !update.Lost? {
        RefPathOfRef(IntegrationPath(id));
        integrations := integrations[id := REF_PREFIX + IntegrationPath(id)];
      }
      ok := Replied(update);
    }

    method MigrateIntegrations() returns (ok: bool)
      requires external && Valid()
      modifies this`kv, this`calls, this`integrations
      ensures Valid() && Certs() == old(Certs()) && Acme() == old(Acme()) && Configs() == old(Configs())
      ensures ok ==> forall id :: id in integrations ==> RefPath(integrations[id]).Some?
      ensures (forall n :: n >= old(calls) ==> fate(n).Done?) ==> ok
      ensures calls >= old(calls)
      ensures (forall id :: id in old(integrations) ==> RefPath(old(integrations)[id]).Some?) ==>
                ok && kv == old(kv) && calls == old(calls) && integrations == old(integrations)
    {
      hide LoadCert, LoadAcme, LoadConfig, CertPath, IntegrationPath;
      var left := set id | id in integrations && RefPath(integrations[id]).None?;
      while left != {}
        invariant left <= integrations.Keys && calls >= old(calls)
        invariant Valid() && Certs() == old(Certs()) && Acme() == old(Acme()) && Configs() == old(Configs())
        invariant forall id :: id in left ==> RefPath(integrations[id]).None?
        invariant forall id :: id in integrations && id !in left ==> RefPath(integrations[id]).Some?
        invariant (forall id :: id in old(integrations) ==> RefPath(old(integrations)[id]).Some?) ==>
          left == {} && kv == old(kv) && calls == old(calls) && integrations == old(integrations)
      {
        var id :| id in left;
        RefPathOfRef(IntegrationPath(id));
        ok := MigrateIntegration(id);
        if !ok {
          return;
        }
        left := left - {id};
      }
      ok := true;
    }

    /** `migrate_from_database`. Wherever it stops, every load still returns what it did before;
        a run in which nothing fails finishes; a finished run leaves nothing to migrate, and then
        another run makes no call at all. The only plain secrets a finished run leaves behind are
        in rows that carried a reference and columns at once. */
    method Migrate() returns (ok: bool)
      requires Valid()
      modifies this`kv, this`calls, this`certs, this`acmeKey, this`integrations
      ensures Valid() && Certs() == old(Certs()) && Acme() == old(Acme()) && Configs() == old(Configs())
      ensures (forall n :: n >= old(calls) ==> fate(n).Done?) ==> ok
      ensures calls >= old(calls)
      ensures ok && external ==> NothingToMigrate()
      ensures !external || old(NothingToMigrate()) ==>
                ok && calls == old(calls) && kv == old(kv) && certs == old(certs) && acmeKey == old(acmeKey)
                    && integrations == old(integrations)
      ensures ok && external ==>
                ((exists id :: id in certs && HasColumns(certs[id])) <==>
                 exists id :: id in old(certs) && old(certs)[id].secretRef.Some? && HasColumns(old(certs)[id]))
    {
      hide LoadCert, LoadAcme, LoadConfig, CertPath, IntegrationPath, RefPath;
      if !external {
        return true;
      }
      ok := MigrateCerts();
      if !ok {
        return;
      }
      ok := MigrateAcme();
      if !ok {
        return;
      }
      ok := MigrateIntegrations();
    }

    // ── Everyday operations ──────────────────────────────────────────────────

    /** The PFX password a re-issue carries forward. */
    ghost function Carried(id: string, readOk: bool): Option<string>
      requires id in certs
      reads this
    {
      CarriedPassword(codec, external, kv, certs[id], CertPath(id), readOk)
    }

    /** What a re-issue stores for `id`: the issued PEMs with the carried password, or what is
        left of that when the backend alters it. */
    ghost function Fresh(id: string, issued: Pems, readOk: bool, write: Outcome): Material
      requires id in certs
      reads this
    {
      if external && write.Garbled? then FromSecret(Landed(write, WithPems(ReadBack(id, readOk), issued)).value)
      else Issued(issued, Carried(id, readOk))
    }

    ghost function ReadBack(id: string, readOk: bool): Secret
      reads this
    {
      if readOk then SecretAt(kv, CertPath(id)) else map[]
    }

    /** The abstract store after `id` was re-issued. A row that holds a reference while no backend
        is configured keeps it, so the new columns stay invisible: nothing changes for callers. */
    ghost function Reissued(id: string, issued: Pems, readOk: bool, write: Outcome): map<string, Option<Material>>
      requires id in certs
      reads this
    {
      if !external && RowRef(certs[id]).Some? then Certs()
      else Certs()[id := Some(Fresh(id, issued, readOk, write))]
    }

    /** The abstract store after `id` was given a PFX password, which a row in columns will load as
        whatever its encryption decrypts to. */
    ghost function Repassworded(id: string, password: string, write: Outcome): map<string, Option<Material>>
      requires id in certs
      reads this
    {
      var m := LoadCert(codec, external, kv, certs[id]);
      if m.None? then Certs()
      else if RowRef(certs[id]).None? then
        var enc := codec.encrypt(password);
        if enc.None? then Certs() else Certs()[id := Some(m.value.(pfx := codec.decrypt(enc.value)))]
      else if write.Garbled? then
        Certs()[id := Some(FromSecret(Landed(write, SecretAt(kv, CertPath(id))[F_PFX := password]).value))]
      else Certs()[id := Some(m.value.(pfx := Some(password)))]
    }

    /** The database arm of `store_issued_cert`: one UPDATE of the four PEM columns. */
    method StoreInColumns(id: string, issued: Pems) returns (ok: bool)
      requires Valid() && id in certs && !external
      modifies this`calls, this`certs
      ensures Valid() && Acme() == old(Acme()) && Configs() == old(Configs())
      ensures calls == old(calls) + 1
      ensures ok <==> Replied(fate(old(calls)))
      ensures Certs() == if fate(old(calls)).Lost? then old(Certs()) else old(Reissued(id, issued, true, Done))
      ensures forall j :: j in old(certs) ==> j in certs && certs[j].secretRef == old(certs)[j].secretRef
    {
      hide LoadCert, LoadAcme, LoadConfig, CertPath, RowRef;
      ReferenceLoads(codec, external, kv, certs[id], CertPath(id));
      var update := fate(calls);
      calls := calls + 1;
      if !update.Lost? {
        certs := certs[id := certs[id].(fullchain := Some(issued.fullchain), cert := Some(issued.cert),
                                        chain := Some(issued.chain), privkey := Some(issued.privkey))];
        ReferenceLoads(codec, external, kv, certs[id], CertPath(id));
      }
      ok := Replied(update);
    }

    /** The last step of the backend arm: the row is pointed at the secret and its PEM columns are
        cleared, the encrypted password column excepted. */
    method PointAtBackend(id: string) returns (ok: bool)
      requires Valid() && id in certs && external
      modifies this`calls, this`certs
      ensures Valid() && Acme() == old(Acme()) && Configs() == old(Configs())
      ensures calls == old(calls) + 1
      ensures ok <==> Replied(fate(old(calls)))
      ensures Certs() == if fate(old(calls)).Lost? then old(Certs())
                         else old(Certs())[id := Some(FromSecret(SecretAt(kv, CertPath(id))))]
      ensures certs == if fate(old(calls)).Lost? then old(certs)
                       else old(certs)[id := Pointed(old(certs)[id], id)]
    {
      hide LoadCert, LoadAcme, LoadConfig, FromSecret, CertPath, RowRef;
      var update := fate(calls);
      calls := calls + 1;
      if !update.Lost? {
        certs := certs[id := Pointed(certs[id], id)];
        ReferenceLoads(codec, external, kv, certs[id], CertPath(id));
      }
      ok := Replied(update);
    }

    /** A re-issue in the backend shows once the write has landed and the row refers to it, which it
        may have done all along; the row is pointed only after the write has replied. */
    ghost predicate Shows(id: string, write: Outcome, update: Outcome)
      requires id in certs
      reads this
    {
      !write.Lost? && (RowRef(certs[id]).Some? || (Replied(write) && !update.Lost?))
    }

    /** The backend arm of `store_issued_cert`: read what is there, overlay the PEMs, write, and
        only then point the row at it. It succeeds exactly when the write replies and then the
        update does; a read that fails does not stop it. */
    method StoreInBackend(id: string, issued: Pems) returns (ok: bool)
      requires Valid() && id in certs && external
      modifies this`kv, this`calls, this`certs
      ensures Valid() && Acme() == old(Acme()) && Configs() == old(Configs())
      ensures calls == old(calls) + if Replied(fate(old(calls) + 1)) then 3 else 2
      ensures ok <==> Replied(fate(old(calls) + 1)) && Replied(fate(old(calls) + 2))
      ensures Certs() == if old(Shows(id, fate(calls + 1), fate(calls + 2)))
                         then old(Reissued(id, issued, fate(calls).Done?, fate(calls + 1))) else old(Certs())
      ensures certs == if Replied(fate(old(calls) + 1)) && !fate(old(calls) + 2).Lost?
                       then old(certs)[id := Pointed(old(certs)[id], id)] else old(certs)
    {
      hide LoadCert, LoadAcme, LoadConfig, FromSecret, FromColumns, CertPath, ChangedAt, WithPems, Issued, RowRef;
      var read, existing := Read(CertPath(id));
      var base := if read && existing.Some? then existing.value else map[];
      assert base == old(ReadBack(id, fate(calls).Done?));
      WithPemsLoads(base, issued);
      ghost var landed := Landed(fate(calls), WithPems(base, issued));
      assert landed.Some? ==> FromSecret(landed.value) == old(Fresh(id, issued, fate(calls).Done?, fate(calls + 1)));
      assert Certs() == old(Certs());
      ok := WriteSecret(id, WithPems(base, issued));
      if !ok {
        return;
      }
      ok := PointAtBackend(id);
    }

    /** A write at a certificate's path, seen through loads: it shows at once on a row that already
        refers to the secret, and not at all on one that does not. */
    method WriteSecret(id: string, data: Secret) returns (ok: bool)
      requires Valid() && id in certs && external
      modifies this`kv, this`calls
      ensures calls == old(calls) + 1
      ensures Valid() && Acme() == old(Acme()) && Configs() == old(Configs())
      ensures ok <==> Replied(fate(old(calls)))
      ensures var landed := Landed(fate(old(calls)), data);
              && (ok ==> landed.Some? && SecretAt(kv, CertPath(id)) == landed.value)
              && (landed.Some? && RowRef(certs[id]).Some? ==>
                    Certs() == old(Certs())[id := Some(FromSecret(landed.value))])
              && (landed.None? || RowRef(certs[id]).None? ==> Certs() == old(Certs()))
    {
      hide LoadCert, LoadAcme, LoadConfig, FromSecret, FromColumns, CertPath, ChangedAt, RowRef;
      ok := Write(CertPath(id), data);
      CertWriteUnseen(this, old(kv), id);
      ReferenceLoads(codec, external, kv, certs[id], CertPath(id));
      ReferenceLoads(codec, external, old(kv), certs[id], CertPath(id));
    }

    /** `store_issued_cert`. On success the row's material becomes the issued PEMs with the
        carried password; on failure it is that if it shows already, or what it was; no other row
        changes. It succeeds exactly when its writes reply. */
    method StoreIssued(id: string, issued: Pems) returns (ok: bool)
      requires Valid() && id in certs
      modifies this`kv, this`calls, this`certs
      ensures Valid() && Acme() == old(Acme()) && Configs() == old(Configs())
      ensures ok <==> if external then Replied(fate(old(calls) + 1)) && Replied(fate(old(calls) + 2))
                      else Replied(fate(old(calls)))
      ensures Certs() == if (if external then old(Shows(id, fate(calls + 1), fate(calls + 2)))
                             else !fate(old(calls)).Lost?)
                         then old(Reissued(id, issued, fate(calls).Done?, fate(calls + 1))) else old(Certs())
      ensures ok && external ==>
                certs == old(certs)[id := Pointed(old(certs)[id], id)]
    {
      hide LoadCert, LoadAcme, LoadConfig, FromSecret, FromColumns, CertPath, Issued;
      if !external {
        ok := StoreInColumns(id, issued);
      } else {
        ok := StoreInBackend(id, issued);
      }
    }

    /** The database arm of `store_pfx_password`: the encrypted column. */
    method StorePfxColumn(id: string, password: string) returns (ok: bool)
      requires Valid() && id in certs && RowRef(certs[id]).None?
      modifies this`calls, this`certs
      ensures Valid() && Acme() == old(Acme()) && Configs() == old(Configs())
      ensures calls == old(calls) + if codec.encrypt(password).Some? then 1 else 0
      ensures ok <==> codec.encrypt(password).Some? && Replied(fate(old(calls)))
      ensures Certs() == if codec.encrypt(password).None? || fate(old(calls)).Lost? then old(Certs())
                         else old(Repassworded(id, password, Done))
    {
      hide LoadCert, LoadAcme, LoadConfig, FromSecret, CertPath, RowRef;
      ReferenceLoads(codec, external, kv, certs[id], CertPath(id));
      var enc := codec.encrypt(password);
      if enc.None? {
        return false;
      }
      var update := fate(calls);
      calls := calls + 1;
      if !update.Lost? {
        certs := certs[id := certs[id].(pfxEnc := enc)];
        ReferenceLoads(codec, external, kv, certs[id], CertPath(id));
      }
      ok := Replied(update);
    }

    /** Its backend arm: read, set one field, write. A read that fails stops it. */
    method StorePfxSecret(id: string, password: string) returns (ok: bool)
      requires Valid() && id in certs && external && RowRef(certs[id]).Some?
      modifies this`kv, this`calls
      ensures Valid() && Acme() == old(Acme()) && Configs() == old(Configs())
      ensures ok <==> fate(old(calls)).Done? && Replied(fate(old(calls) + 1))
      ensures Certs() == if !fate(old(calls)).Done? || fate(old(calls) + 1).Lost? then old(Certs())
                         else old(Repassworded(id, password, fate(calls + 1)))
    {
      hide LoadCert, LoadAcme, LoadConfig, FromSecret, FromColumns, CertPath, RowRef;
      ReferenceLoads(codec, external, kv, certs[id], CertPath(id));
      WithPasswordLoads(SecretAt(kv, CertPath(id)), password);
      var read, existing := Read(CertPath(id));
      assert Certs() == old(Certs());
      if !read {
        return false;
      }
      var base := if existing.Some? then existing.value else map[];
      ok := WriteSecret(id, base[F_PFX := password]);
    }

    /** `store_pfx_password`, for a row read just before. */
    method StorePfx(id: string, password: string) returns (ok: bool)
      requires Valid() && id in certs
      modifies this`kv, this`calls, this`certs
      ensures Valid() && Acme() == old(Acme()) && Configs() == old(Configs())
      ensures !external && RowRef(old(certs)[id]).Some? ==> !ok && Certs() == old(Certs())
      ensures RowRef(old(certs)[id]).None? ==>
                && (ok <==> codec.encrypt(password).Some? && Replied(fate(old(calls))))
                && Certs() == if codec.encrypt(password).None? || fate(old(calls)).Lost? then old(Certs())
                              else old(Repassworded(id, password, Done))
      ensures external && RowRef(old(certs)[id]).Some? ==>
                && (ok <==> fate(old(calls)).Done? && Replied(fate(old(calls) + 1)))
                && Certs() == if !fate(old(calls)).Done? || fate(old(calls) + 1).Lost? then old(Certs())
                              else old(Repassworded(id, password, fate(calls + 1)))
    {
      hide LoadCert, LoadAcme, LoadConfig, FromSecret, FromColumns, CertPath, RowRef;
      if RowRef(certs[id]).None? {
        ok := StorePfxColumn(id, password);
      } else if external {
        ok := StorePfxSecret(id, password);
      } else {
        ok := false;
      }
    }

    /** Deleting a certificate: the row, then the secret the row referred to. When this reports
        success the secret at the row's path is gone, unless the row had no reference to it. */
    method Delete(id: string) returns (ok: bool)
      requires Valid() && id in certs
      modifies this`kv, this`calls, this`certs
      ensures Valid() && Acme() == old(Acme()) && Configs() == old(Configs())
      ensures certs == old(certs) - {id} && Certs() == old(Certs()) - {id}
      ensures calls == old(calls) + if RowRef(old(certs)[id]).Some? && external then 1 else 0
      ensures ok <==> RowRef(old(certs)[id]).None? || (external && fate(old(calls)).Done?)
      ensures kv == if RowRef(old(certs)[id]).Some? && external && !fate(old(calls)).Lost?
                    then old(kv) - {CertPath(id)} else old(kv)
      ensures ok ==> (CertPath(id) in kv <==> RowRef(old(certs)[id]).None? && CertPath(id) in old(kv))
    {
      var ref := RowRef(certs[id]);
      certs := certs - {id};
      if ref.None? {
        return true;
      }
      if !external {
        return false;
      }
      RefPathOfRef(CertPath(id));
      var removal := fate(calls);
      calls := calls + 1;
      if !removal.Lost? {
        kv := kv - {ref.value};
      }
      CertWriteUnseen(this, old(kv), id);
      ok := removal.Done?;
    }
  }

  /** What the re-issue of `row` carries: under the backend only what the secret at the row's own
      path holds, and nothing when that read fails. */
  function CarriedPassword(codec: Codec, external: bool, kv: map<string, Secret>, row: CertRow,
                           path: string, readOk: bool): Option<string> {
    if !external then FromColumns(codec, row).pfx
    else if readOk then Get(SecretAt(kv, path), F_PFX)
    else None
  }

  predicate StoresPassword(kv: map<string, Secret>, path: string) {
    path in kv && F_PFX in kv[path]
  }

  /** Whether column and stored secret let a re-issue keep the password: always without a backend;
      for a reference when the read succeeds or nothing is there to lose; for a row still in its
      columns when the column decrypts to the very password stored at its future path, or, with
      none read there, to nothing at all. */
  predicate KeepsPassword(codec: Codec, external: bool, kv: map<string, Secret>, row: CertRow, path: string,
                          readOk: bool) {
    if !external then true
    else if row.secretRef.Some? then readOk || !StoresPassword(kv, path)
    else if readOk && StoresPassword(kv, path) then
      row.pfxEnc.Some? && codec.decrypt(row.pfxEnc.value) == Some(kv[path][F_PFX])
    else row.pfxEnc.None? || codec.decrypt(row.pfxEnc.value).None?
  }

  /** What a re-issue carries is what the row loads, exactly under that condition. */
  lemma PasswordSurvives(codec: Codec, external: bool, kv: map<string, Secret>, row: CertRow, path: string,
      readOk: bool)
    requires row.secretRef.None? || row.secretRef == Some(REF_PREFIX + path)
    requires external || row.secretRef.None?
    ensures LoadCert(codec, external, kv, row).Some?
    ensures CarriedPassword(codec, external, kv, row, path, readOk) == LoadCert(codec, external, kv, row).value.pfx
            <==> KeepsPassword(codec, external, kv, row, path, readOk)
  {
    ReferenceLoads(codec, external, kv, row, path);
  }

  /** The migration of a row makes its password survive the next renewal; re-issuing the same row
      before it was migrated loses a password that only the column held. */
  lemma MigrationSavesPassword(codec: Codec, kv: map<string, Secret>, row: CertRow, id: string)
    requires ToMigrate(row) && CertPath(id) !in kv && FromColumns(codec, row).pfx.Some?
    ensures var moved := kv[CertPath(id) := Fields(FromColumns(codec, row))];
            CarriedPassword(codec, true, moved, Cleared(id), CertPath(id), true) == FromColumns(codec, row).pfx
    ensures CarriedPassword(codec, true, kv, row, CertPath(id), true).None?
  {
    assert FromSecret(Fields(FromColumns(codec, row))) == FromColumns(codec, row);
  }

  function Issued(p: Pems, pfx: Option<string>): Material {
    Material(Some(p.fullchain), Some(p.cert), Some(p.chain), Some(p.privkey), pfx)
  }

  function WithPems(s: Secret, p: Pems): Secret {
    s[F_FULLCHAIN := p.fullchain][F_CERT := p.cert][F_CHAIN := p.chain][F_PRIVKEY := p.privkey]
  }

  lemma WithPemsLoads(s: Secret, p: Pems)
    ensures FromSecret(WithPems(s, p)) == Issued(p, Get(s, F_PFX))
  {}

  lemma WithPasswordLoads(s: Secret, password: string)
    ensures FromSecret(s[F_PFX := password]) == FromSecret(s).(pfx := Some(password))
  {}

  /** The two ways a row can load: through its reference, or from its columns. */
  lemma ReferenceLoads(codec: Codec, external: bool, kv: map<string, Secret>, row: CertRow, path: string)
    ensures row.secretRef == Some(REF_PREFIX + path) ==> RowRef(row) == Some(path)
    ensures row.secretRef == Some(REF_PREFIX + path) && external ==>
              LoadCert(codec, external, kv, row) == Some(FromSecret(if path in kv then kv[path] else map[]))
    ensures row.secretRef == Some(REF_PREFIX + path) && !external ==> LoadCert(codec, external, kv, row) == None
    ensures row.secretRef.None? ==>
              RowRef(row).None? && LoadCert(codec, external, kv, row) == Some(FromColumns(codec, row))
  {
    hide FromSecret, FromColumns;
    RefPathOfRef(path);
  }

  /** What a certificate loads, written out: with a reference the fields of the secret by their names,
      all missing when it is gone, or an error without a backend; otherwise each column as it is and the
      password decrypted, or none if that fails. */
  lemma CertLoads(codec: Codec, external: bool, kv: map<string, Secret>, row: CertRow, path: string)
    ensures var m, s := LoadCert(codec, external, kv, row), SecretAt(kv, path);
            && (row.secretRef == Some("openbao:" + path) ==>
                  m == if external then Some(Material(Get(s, "fullchain_pem"), Get(s, "cert_pem"), Get(s, "chain_pem"),
                                                      Get(s, "privkey_pem"), Get(s, "pfx_password")))
                       else None)
            && (row.secretRef.None? || !("openbao:" <= row.secretRef.value) ==>
                  && m.Some? && m.value.fullchain == row.fullchain && m.value.cert == row.cert
                  && m.value.chain == row.chain && m.value.privkey == row.privkey
                  && m.value.pfx == if row.pfxEnc.Some? then codec.decrypt(row.pfxEnc.value) else None)
  {
    RefPathOfRef(path);
  }

  /** The account key and an integration load what is in the database, unless that is a reference:
      then what the backend holds there, or without a backend nothing but an error. */
  lemma OtherLoads(codec: Codec, external: bool, kv: map<string, Secret>, path: string, stored: string)
    ensures LoadAcme(external, kv, None) == LoadAcme(external, kv, Some("")) == Some(None)
    ensures LoadAcme(external, kv, Some("openbao:" + path))
            == if external then Some(Get(SecretAt(kv, path), "key_pkcs8_b64")) else None
    ensures LoadConfig(codec, external, kv, "openbao:" + path) == if external then Some(SecretAt(kv, path)) else None
    ensures !("openbao:" <= stored) ==>
              && LoadConfig(codec, external, kv, stored) == Some(codec.parse(stored))
              && (stored != "" ==> LoadAcme(external, kv, Some(stored)) == Some(Some(stored)))
  {
    RefPathOfRef(path);
  }

  lemma SameWhenContained(data: Secret, got: Secret)
    requires data.Items <= got.Items && got.Keys <= data.Keys
    ensures got == data
  {
    forall k | k in data ensures k in got && got[k] == data[k] {
      assert (k, data[k]) in data.Items;
      assert (k, data[k]) in got.Items;
    }
  }

  /** A backend that changed at one path only. */
  ghost predicate ChangedAt(before: map<string, Secret>, after: map<string, Secret>, path: string) {
    forall p :: p != path ==> (p in after <==> p in before) && (p in before ==> after[p] == before[p])
  }

  /** A write at `path` is invisible to every load whose reference points elsewhere; `own` are the
      certificates exempted from that. */
  lemma WriteUnseen(st: Store, before: map<string, Secret>, path: string, own: set<string>)
    requires st.Valid() && ChangedAt(before, st.kv, path)
    requires forall j :: j in st.certs && j !in own && st.certs[j].secretRef.Some? ==> CertPath(j) != path
    requires st.acmeKey.Some? && RefPath(st.acmeKey.value).Some? ==> ACME_PATH != path
    requires forall j :: j in st.integrations && RefPath(st.integrations[j]).Some? ==> IntegrationPath(j) != path
    ensures forall j :: j in st.certs && j !in own ==>
              LoadCert(st.codec, st.external, st.kv, st.certs[j])
                  == LoadCert(st.codec, st.external, before, st.certs[j])
    ensures LoadAcme(st.external, st.kv, st.acmeKey) == LoadAcme(st.external, before, st.acmeKey)
    ensures forall j :: j in st.integrations ==>
              LoadConfig(st.codec, st.external, st.kv, st.integrations[j])
                  == LoadConfig(st.codec, st.external, before, st.integrations[j])
  {
    hide FromSecret, FromColumns, CertPath, IntegrationPath;
    RefPathOfRef(ACME_PATH);
    forall j ensures RefPath(REF_PREFIX + CertPath(j)) == Some(CertPath(j)) { RefPathOfRef(CertPath(j)); }
    forall j ensures RefPath(REF_PREFIX + IntegrationPath(j)) == Some(IntegrationPath(j)) {
      RefPathOfRef(IntegrationPath(j));
    }
  }

  lemma CertWriteUnseen(st: Store, before: map<string, Secret>, id: string)
    requires st.Valid() && ChangedAt(before, st.kv, CertPath(id))
    ensures forall j :: j in st.certs && (j != id || st.certs[j].secretRef.None?) ==>
              LoadCert(st.codec, st.external, st.kv, st.certs[j])
                  == LoadCert(st.codec, st.external, before, st.certs[j])
    ensures LoadAcme(st.external, st.kv, st.acmeKey) == LoadAcme(st.external, before, st.acmeKey)
    ensures forall j :: j in st.integrations ==>
              LoadConfig(st.codec, st.external, st.kv, st.integrations[j])
                  == LoadConfig(st.codec, st.external, before, st.integrations[j])
  {
    hide LoadCert, LoadAcme, LoadConfig, CertPath, IntegrationPath, ChangedAt;
    PathsAreDistinct(id, id);
    forall j ensures CertPath(j) == CertPath(id) ==> j == id { PathsAreDistinct(id, j); }
    forall j ensures IntegrationPath(j) != CertPath(id) { PathsAreDistinct(id, j); }
    WriteUnseen(st, before, CertPath(id), if id in st.certs && st.certs[id].secretRef.Some? then {id} else {});
  }

  lemma IntegrationWriteUnseen(st: Store, before: map<string, Secret>, id: string)
    requires st.Valid() && ChangedAt(before, st.kv, IntegrationPath(id))
    requires id in st.integrations && RefPath(st.integrations[id]).None?
    ensures forall j :: j in st.certs ==>
              LoadCert(st.codec, st.external, st.kv, st.certs[j])
                  == LoadCert(st.codec, st.external, before, st.certs[j])
    ensures LoadAcme(st.external, st.kv, st.acmeKey) == LoadAcme(st.external, before, st.acmeKey)
    ensures forall j :: j in st.integrations ==>
              LoadConfig(st.codec, st.external, st.kv, st.integrations[j])
                  == LoadConfig(st.codec, st.external, before, st.integrations[j])
  {
    hide LoadCert, LoadAcme, LoadConfig, CertPath, IntegrationPath, ChangedAt;
    PathsAreDistinct(id, id);
    forall j ensures IntegrationPath(j) == IntegrationPath(id) ==> j == id { PathsAreDistinct(id, j); }
    forall j ensures CertPath(j) != IntegrationPath(id) { PathsAreDistinct(j, id); }
    WriteUnseen(st, before, IntegrationPath(id), {});
  }

  lemma AcmeWriteUnseen(st: Store, before: map<string, Secret>)
    requires st.Valid() && ChangedAt(before, st.kv, ACME_PATH)
    requires PlainAcme(st.acmeKey)
    ensures forall j :: j in st.certs ==>
              LoadCert(st.codec, st.external, st.kv, st.certs[j])
                  == LoadCert(st.codec, st.external, before, st.certs[j])
    ensures LoadAcme(st.external, st.kv, st.acmeKey) == LoadAcme(st.external, before, st.acmeKey)
    ensures forall j :: j in st.integrations ==>
              LoadConfig(st.codec, st.external, st.kv, st.integrations[j])
                  == LoadConfig(st.codec, st.external, before, st.integrations[j])
  {
    hide LoadCert, LoadAcme, LoadConfig, CertPath, IntegrationPath, ChangedAt;
    forall j ensures CertPath(j) != ACME_PATH && IntegrationPath(j) != ACME_PATH { PathsAreDistinct(j, j); }
    WriteUnseen(st, before, ACME_PATH, {});
  }
}
