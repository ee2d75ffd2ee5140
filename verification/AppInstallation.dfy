/**
 Patching app-plugin installations under optimistic concurrency. A patch reads the
 installation at the revision it names, decides on what it read, and commits only if the
 stored row still has that revision and is not revoked. Patches of one installation may
 overlap: between the read and the commit of one, others may commit.
 */
module AppInstallation {
  import opened Wrappers

  datatype Error =
    | InvalidRequest | NotFound | Forbidden | InvalidTransition | PrerequisiteMissing
    | RevisionConflict | AlreadyRevoked | RouteConflict | Unavailable

  datatype Result<+T> = Ok(value: T) | Err(error: Error)

  const DISABLED := "disabled"
  const ENABLED := "enabled"
  const REVOKED := "revoked"

  datatype NetworkPolicy = NetworkPolicy(allowHosts: seq<string>, denyPrivate: bool)

  datatype Config = Config(
    baseUrl: string,
    surfaces: seq<string>,
    parentOrigins: seq<string>,
    allowedOrigins: seq<string>,
    userGroups: seq<string>,
    network: NetworkPolicy,
    entitlement: string
  )

  datatype Installation = Installation(
    id: string, appKey: string, version: string, config: Config, status: string, revision: int)

  datatype Routes = Routes(callback: string, direct: string, embedded: string)

  /** The address rules and, per manifest version and base URL, the endpoints of an installation. */
  datatype World = World(
    sameSite: (string, string) -> bool,
    trusted: string -> bool,
    routes: (string, string) -> Option<Routes>
  )

  datatype Registration = Registered(requestedScopes: set<string>) | Unregistered | RegistrationFailed

  /** What a patch finds outside the tables when it runs. */
  datatype Env = Env(
    registration: Registration,
    scopes: Option<set<string>>,
    probeOk: bool,
    entitlement: Option<string>
  )

  datatype Patch = Patch(
    root: bool,
    id: string,
    revision: int,
    baseUrl: Option<string>,
    surfaces: Option<seq<string>>,
    parentOrigins: Option<seq<string>>,
    allowedOrigins: Option<seq<string>>,
    userGroups: Option<seq<string>>,
    network: Option<NetworkPolicy>,
    entitlementDraft: Option<bool>,  // Some(true): a new policy, Some(false): a reference
    status: Option<string>
  )

  function One<T>(o: Option<T>): nat {
    if o.Some? then 1 else 0
  }

  function ChangeCount(p: Patch): nat {
    One(p.baseUrl) + One(p.surfaces) + One(p.parentOrigins) + One(p.allowedOrigins) + One(p.userGroups)
    + One(p.network) + One(p.entitlementDraft) + One(p.status)
  }

  function Or<T>(o: Option<T>, otherwise: T): T {
    if o.Some? then o.value else otherwise
  }

  // ------------------------------------------------------------------ decisions

  /** Policies that allow no more than the current one. */
  ghost predicate Tightens(current: NetworkPolicy, next: NetworkPolicy) {
    && (current.denyPrivate ==> next.denyPrivate)
    && (forall h :: h in next.allowHosts ==> h in current.allowHosts)
  }

  method NetworkPolicyTightens(current: NetworkPolicy, next: NetworkPolicy) returns (ok: bool)
    ensures ok == Tightens(current, next)
    ensures ok <==>
      (current.denyPrivate ==> next.denyPrivate) && forall h :: h in next.allowHosts ==> h in current.allowHosts
  {
    if current.denyPrivate && !next.denyPrivate {
      return false;
    }
    for i := 0 to |next.allowHosts|
      invariant forall h :: h in next.allowHosts[..i] ==> h in current.allowHosts
    {
      if next.allowHosts[i] !in current.allowHosts {
        return false;
      }
    }
    assert next.allowHosts[..|next.allowHosts|] == next.allowHosts;
    return true;
  }

  predicate KnownSurface(s: string) {
    s == "direct" || s == "embedded"
  }

  /** Everything an installation needs before it may be enabled. */
  ghost predicate Ready(world: World, env: Env, config: Config) {
    && env.registration.Registered?
    && config.surfaces != [] && (forall s :: s in config.surfaces ==> KnownSurface(s))
    && ("embedded" in config.surfaces ==>
          config.parentOrigins != [] &&
          forall o :: o in config.parentOrigins ==> world.sameSite(config.baseUrl, o) && world.trusted(o))
    && env.scopes.Some? && "identity.read" in env.scopes.value
    && env.registration.requestedScopes <= env.scopes.value
    && env.probeOk
  }

  method ValidateEnable(world: World, env: Env, config: Config) returns (error: Option<Error>)
    ensures error.None? <==> Ready(world, env, config)
    ensures env.registration.RegistrationFailed? ==> error == Some(Unavailable)
    ensures env.registration.Unregistered? ==> error == Some(PrerequisiteMissing)
    ensures env.registration.Registered? && env.scopes.Some? ==> error.None? || error == Some(PrerequisiteMissing)
  {
    if env.registration.RegistrationFailed? {
      return Some(Unavailable);
    }
    if env.registration.Unregistered? || |config.surfaces| == 0 {
      return Some(PrerequisiteMissing);
    }
    for i := 0 to |config.surfaces|
      invariant forall s :: s in config.surfaces[..i] ==> KnownSurface(s)
    {
      if !KnownSurface(config.surfaces[i]) {
        return Some(PrerequisiteMissing);
      }
    }
    assert config.surfaces[..|config.surfaces|] == config.surfaces;
    if "embedded" in config.surfaces {
      if |config.parentOrigins| == 0 {
        return Some(PrerequisiteMissing);
      }
      for i := 0 to |config.parentOrigins|
        invariant forall o :: o in config.parentOrigins[..i] ==> world.sameSite(config.baseUrl, o) && world.trusted(o)
      {
        var origin := config.parentOrigins[i];
        if !world.sameSite(config.baseUrl, origin) || !world.trusted(origin) {
          assert origin in config.parentOrigins;
          return Some(PrerequisiteMissing);
        }
      }
      assert config.parentOrigins[..|config.parentOrigins|] == config.parentOrigins;
    }
    if env.scopes.None? {
      return Some(Unavailable);
    }
    if "identity.read" !in env.scopes.value || !(env.registration.requestedScopes <= env.scopes.value) || !env.probeOk {
      return Some(PrerequisiteMissing);
    }
    return None;
  }

  /** What a user below root may not even ask for. */
  predicate RoleAllows(p: Patch) {
    p.root ||
    (p.surfaces.None? && p.parentOrigins.None? && p.entitlementDraft != Some(true) && p.status != Some(REVOKED))
  }

  ghost predicate StatusAllows(world: World, env: Env, p: Patch, current: Installation) {
    p.status.None? ||
    if p.status.value == ENABLED then
      current.status == DISABLED && ChangeCount(p) == 1 && Ready(world, env, current.config)
    else if p.status.value == DISABLED then current.status != DISABLED || ChangeCount(p) != 1
    else p.status.value == REVOKED && p.root
  }

  predicate ConfigAllowed(p: Patch, current: Installation) {
    current.status == DISABLED || (p.status.Some? && ChangeCount(p) <= 1)
  }

  /** A patch may go ahead on the installation it has read. */
  ghost predicate Accepts(world: World, env: Env, p: Patch, current: Installation) {
    && RoleAllows(p) && ChangeCount(p) > 0
    && StatusAllows(world, env, p, current)
    && ConfigAllowed(p, current)
    && (!p.root && p.network.Some? ==> Tightens(current.config.network, p.network.value))
    && (p.entitlementDraft.Some? ==> env.entitlement.Some?)
  }

  function ApplyTo(config: Config, p: Patch, env: Env): Config {
    Config(
      Or(p.baseUrl, config.baseUrl), Or(p.surfaces, config.surfaces), Or(p.parentOrigins, config.parentOrigins),
      Or(p.allowedOrigins, config.allowedOrigins), Or(p.userGroups, config.userGroups), Or(p.network, config.network),
      if p.entitlementDraft.Some? then Or(env.entitlement, config.entitlement) else config.entitlement)
  }

  /** The UPDATE statement: only the named columns, on the stored row, and one revision more. */
  function Updated(row: Installation, p: Patch, env: Env): Installation {
    row.(config := ApplyTo(row.config, p, env), status := Or(p.status, row.status), revision := row.revision + 1)
  }

  /** The patch names something other than the status. */
  predicate Configures(p: Patch) {
    || p.baseUrl.Some? || p.surfaces.Some? || p.parentOrigins.Some? || p.allowedOrigins.Some?
    || p.userGroups.Some? || p.network.Some? || p.entitlementDraft.Some?
  }

  lemma ChangesAre(p: Patch)
    ensures ChangeCount(p) > 0 <==> p.status.Some? || Configures(p)
    ensures p.status.Some? ==> (ChangeCount(p) > 1 <==> Configures(p)) && (ChangeCount(p) == 1 <==> !Configures(p))
  {
  }

  /** When an installation may be enabled, spelled out. */
  lemma ReadyExactly(world: World, env: Env, config: Config)
    ensures Ready(world, env, config) <==>
      && env.registration.Registered? && env.scopes.Some? && env.probeOk
      && "identity.read" in env.scopes.value
      && (forall scope :: scope in env.registration.requestedScopes ==> scope in env.scopes.value)
      && config.surfaces != [] && (forall s :: s in config.surfaces ==> s == "direct" || s == "embedded")
      && ("embedded" in config.surfaces ==>
            && config.parentOrigins != []
            && forall o :: o in config.parentOrigins ==> world.sameSite(config.baseUrl, o) && world.trusted(o))
  {
  }

  /**
   Which patches go ahead: they ask for something; below root they do not touch surfaces or
   parent origins, write an entitlement policy, revoke or loosen the network policy; only a
   disabled installation is configured; it is enabled alone, when ready, and disabling a
   disabled one has to configure it too; a named policy can be resolved.
   */
  lemma AcceptsExactly(world: World, env: Env, p: Patch, current: Installation)
    ensures Accepts(world, env, p, current) <==>
      && (p.status.Some? || Configures(p))
      && (!p.root ==>
            && p.surfaces.None? && p.parentOrigins.None?
            && p.entitlementDraft != Some(true) && p.status != Some("revoked")
            && (p.network.Some? ==>
                  && (current.config.network.denyPrivate ==> p.network.value.denyPrivate)
                  && forall h :: h in p.network.value.allowHosts ==> h in current.config.network.allowHosts))
      && (Configures(p) ==> current.status == "disabled")
      && (p.status.Some? ==> p.status.value in {"enabled", "disabled", "revoked"})
      && (p.status == Some("enabled") ==>
            current.status == "disabled" && !Configures(p) && Ready(world, env, current.config))
      && (p.status == Some("disabled") && current.status == "disabled" ==> Configures(p))
      && (p.entitlementDraft.Some? ==> env.entitlement.Some?)
  {
    hide Ready;
    ChangesAre(p);
  }

  // --------------------------------------------------------------------- claims

  datatype Kind = AppKey | Callback | Direct | Embedded

  /** Claim keys are digests of the endpoint or of the app key; they are modelled as what they digest. */
  datatype ClaimKey = RouteOf(endpoint: string) | AppOf(appKey: string)

  datatype Claim = Claim(installation: string, kind: Kind, key: ClaimKey)

  datatype Credential = Credential(installation: string, status: string)

  datatype Db = Db(rows: map<string, Installation>, claims: set<Claim>, credentials: seq<Credential>)

  function ClaimsOf(claims: set<Claim>, id: string): set<Claim> {
    set c | c in claims && c.installation == id
  }

  function KindOf(claims: set<Claim>, id: string, kind: Kind): set<Claim> {
    set c | c in claims && c.installation == id && c.kind == kind
  }

  predicate Taken(claims: set<Claim>, key: ClaimKey) {
    exists c :: c in claims && c.key == key
  }

  /** One claim moves to a new endpoint unless the endpoint is taken. */
  function MoveClaim(claims: set<Claim>, id: string, kind: Kind, endpoint: string): Result<set<Claim>> {
    var claim := Claim(id, kind, RouteOf(endpoint));
    if claim in claims then Ok(claims)
    else if Taken(claims, claim.key) then Err(RouteConflict)
    else Ok(claims - KindOf(claims, id, kind) + {claim})
  }

  function MoveClaims(claims: set<Claim>, id: string, routes: Routes): Result<set<Claim>> {
    match MoveClaim(claims, id, Callback, routes.callback)
    case Err(e) => Err(e)
    case Ok(c1) =>
      match MoveClaim(c1, id, Direct, routes.direct)
      case Err(e) => Err(e)
      case Ok(c2) => MoveClaim(c2, id, Embedded, routes.embedded)
  }

  function ClaimsAfter(world: World, claims: set<Claim>, p: Patch, current: Installation): Result<set<Claim>> {
    if p.baseUrl.None? then Ok(claims)
    else match world.routes(current.version, p.baseUrl.value)
      case None => Err(Unavailable)
      case Some(routes) => MoveClaims(claims, current.id, routes)
  }

  function RevokeCredentials(credentials: seq<Credential>, id: string): seq<Credential> {
    seq(|credentials|, i requires 0 <= i < |credentials| =>
      if credentials[i].installation == id then credentials[i].(status := REVOKED) else credentials[i])
  }

  // ------------------------------------------------------------ the transaction

  datatype Txn = Txn(patch: Patch, snapshot: Installation)

  /** The request names an installation and a revision, and asks for a change. */
  predicate Asked(p: Patch) {
    p.id != "" && p.revision > 0 && ChangeCount(p) > 0
  }

  /** The checks made on the request and under the locks, before the patch is looked at. */
  predicate Admits(db: Db, p: Patch) {
    && Asked(p) && p.id in db.rows
    && db.rows[p.id].status != REVOKED && db.rows[p.id].revision == p.revision
    && Claim(p.id, AppKey, AppOf(db.rows[p.id].appKey)) in db.claims
  }

  predicate GuardHolds(db: Db, p: Patch) {
    p.id in db.rows && db.rows[p.id].revision == p.revision && db.rows[p.id].status != REVOKED
  }

  /** The tables after the transaction, or none if it rolls back. */
  ghost function Commit(world: World, db: Db, txn: Txn, env: Env): Option<Db> {
    var p := txn.patch;
    var claims := ClaimsAfter(world, db.claims, p, txn.snapshot);
    if !Accepts(world, env, p, txn.snapshot) || claims.Err? || !GuardHolds(db, p) then None
    else
      var revokes := p.status == Some(REVOKED);
      Some(Db(
        db.rows[p.id := Updated(db.rows[p.id], p, env)],
        if revokes then claims.value - ClaimsOf(claims.value, txn.snapshot.id) else claims.value,
        if revokes then RevokeCredentials(db.credentials, txn.snapshot.id) else db.credentials))
  }

  // ----------------------------------------------------------------------- runs

  datatype Entry = Entry(patch: Patch, env: Env, before: Installation, after: Installation)

  datatype Sys = Sys(db: Db, open: map<nat, Txn>, log: seq<Entry>)

  datatype Step = Begin(t: nat, patch: Patch) | Finish(t: nat, env: Env)

  ghost function Next(world: World, s: Sys, step: Step): Sys {
    match step
    case Begin(t, p) =>
      if t !in s.open && Admits(s.db, p) then s.(open := s.open[t := Txn(p, s.db.rows[p.id])]) else s
    case Finish(t, env) =>
      if t !in s.open then s
      else
        var txn := s.open[t];
        match Commit(world, s.db, txn, env)
        case None => s.(open := s.open - {t})
        case Some(db) =>
          Sys(db, s.open - {t}, s.log + [Entry(txn.patch, env, s.db.rows[txn.patch.id], db.rows[txn.patch.id])])
  }

  ghost function Exec(world: World, db: Db, run: seq<Step>): Sys {
    if run == [] then Sys(db, map[], [])
    else Next(world, Exec(world, db, run[..|run| - 1]), run[|run| - 1])
  }

  // ---------------------------------------------------------------- invariants

  ghost predicate WellKeyed(db: Db) {
    forall id :: id in db.rows ==> db.rows[id].id == id
  }

  /** No endpoint and no app key is claimed twice. */
  ghost predicate Exclusive(claims: set<Claim>) {
    && (forall c, d :: c in claims && d in claims && c.key == d.key ==> c == d)
    && (forall c, d :: c in claims && d in claims && c.installation == d.installation && c.kind == d.kind ==> c == d)
  }

  /** An installation that is not revoked claims exactly the endpoints of its base URL. */
  ghost predicate Routed(world: World, claims: set<Claim>, row: Installation) {
    var routes := world.routes(row.version, row.config.baseUrl);
    && routes.Some?
    && Claim(row.id, Callback, RouteOf(routes.value.callback)) in claims
    && Claim(row.id, Direct, RouteOf(routes.value.direct)) in claims
    && Claim(row.id, Embedded, RouteOf(routes.value.embedded)) in claims
  }

  /** A revoked installation holds no claim and no live credential. */
  ghost predicate Released(db: Db, id: string) {
    && (forall c :: c in db.claims ==> c.installation != id)
    && (forall i :: 0 <= i < |db.credentials| && db.credentials[i].installation == id
          ==> db.credentials[i].status == REVOKED)
  }

  ghost predicate Sound(world: World, db: Db) {
    && WellKeyed(db) && Exclusive(db.claims)
    && (forall id :: id in db.rows ==>
          if db.rows[id].status == REVOKED then Released(db, id) else Routed(world, db.claims, db.rows[id]))
  }

  /** A transaction that is still at the stored revision has read the stored row. */
  ghost predicate Fresh(s: Sys, txn: Txn) {
    && txn.patch.id in s.db.rows && txn.snapshot.id == txn.patch.id && txn.snapshot.revision == txn.patch.revision
    && txn.snapshot.revision <= s.db.rows[txn.patch.id].revision
    && (txn.snapshot.revision == s.db.rows[txn.patch.id].revision ==> txn.snapshot == s.db.rows[txn.patch.id])
  }

  ghost predicate AllFresh(s: Sys) {
    forall t :: t in s.open ==> Fresh(s, s.open[t])
  }

  lemma {:induction false} MoveKeepsExclusive(claims: set<Claim>, id: string, kind: Kind, endpoint: string)
    requires Exclusive(claims) && MoveClaim(claims, id, kind, endpoint).Ok? && kind != AppKey
    ensures var moved := MoveClaim(claims, id, kind, endpoint).value;
      && Exclusive(moved) && Claim(id, kind, RouteOf(endpoint)) in moved
      && forall c: Claim :: !(c.installation == id && c.kind == kind) ==> (c in moved <==> c in claims)
  {
  }

  /** A successful move claims all three endpoints and touches no other claim. */
  lemma MovesKeepExclusive(claims: set<Claim>, id: string, routes: Routes)
    requires Exclusive(claims) && MoveClaims(claims, id, routes).Ok?
    ensures var moved := MoveClaims(claims, id, routes).value;
      && Exclusive(moved)
      && Claim(id, Callback, RouteOf(routes.callback)) in moved
      && Claim(id, Direct, RouteOf(routes.direct)) in moved
      && Claim(id, Embedded, RouteOf(routes.embedded)) in moved
      && forall c: Claim :: !(c.installation == id && c.kind != AppKey) ==> (c in moved <==> c in claims)
  {
    var c1 := MoveClaim(claims, id, Callback, routes.callback).value;
    var c2 := MoveClaim(c1, id, Direct, routes.direct).value;
    MoveKeepsExclusive(claims, id, Callback, routes.callback);
    MoveKeepsExclusive(c1, id, Direct, routes.direct);
    MoveKeepsExclusive(c2, id, Embedded, routes.embedded);
  }

  /** The endpoint is claimed by nobody, or by this installation for one of these kinds only. */
  ghost predicate FreeBut(claims: set<Claim>, id: string, endpoint: string, kinds: set<Kind>) {
    forall c :: c in claims && c.key == RouteOf(endpoint) ==> c.installation == id && c.kind in kinds
  }

  /** A kind keeps its endpoint, or gets one that is free but for the kinds that were moved before. */
  ghost predicate CanHave(claims: set<Claim>, id: string, kind: Kind, endpoint: string, before: set<Kind>) {
    Claim(id, kind, RouteOf(endpoint)) in claims || FreeBut(claims, id, endpoint, before)
  }

  lemma MoveExactly(claims: set<Claim>, id: string, kind: Kind, endpoint: string)
    ensures MoveClaim(claims, id, kind, endpoint).Ok? <==> CanHave(claims, id, kind, endpoint, {})
  {
  }

  /** What an endpoint can be moved to once an earlier kind has been moved. */
  lemma CanHaveAfter(
    claims: set<Claim>, id: string, first: Kind, moved: string, kind: Kind, endpoint: string, before: set<Kind>)
    requires Exclusive(claims) && MoveClaim(claims, id, first, moved).Ok? && first != kind && first !in before
    ensures CanHave(MoveClaim(claims, id, first, moved).value, id, kind, endpoint, before)
       <==> CanHave(claims, id, kind, endpoint, before + {first}) && endpoint != moved
  {
    var after := MoveClaim(claims, id, first, moved).value;
    var own, mine := Claim(id, kind, RouteOf(endpoint)), Claim(id, first, RouteOf(moved));
    assert mine in after;
    if endpoint == moved {
      assert own != mine && own !in after;
    }
  }

  /**
   The three claims can be moved exactly when the new endpoints differ and each is already
   this installation's for the same kind, or is claimed by nobody but this installation for
   a kind that is moved before it.
   */
  lemma MovesExactly(claims: set<Claim>, id: string, routes: Routes)
    requires Exclusive(claims)
    ensures MoveClaims(claims, id, routes).Ok? <==>
      && CanHave(claims, id, Callback, routes.callback, {})
      && CanHave(claims, id, Direct, routes.direct, {Callback})
      && CanHave(claims, id, Embedded, routes.embedded, {Callback, Direct})
      && routes.callback != routes.direct && routes.callback != routes.embedded && routes.direct != routes.embedded
  {
    hide Exclusive, CanHave, MoveClaim;
    MoveExactly(claims, id, Callback, routes.callback);
    if MoveClaim(claims, id, Callback, routes.callback).Ok? {
      var c1 := MoveClaim(claims, id, Callback, routes.callback).value;
      MoveKeepsExclusive(claims, id, Callback, routes.callback);
      MoveExactly(c1, id, Direct, routes.direct);
      CanHaveAfter(claims, id, Callback, routes.callback, Direct, routes.direct, {});
      assert {} + {Callback} == {Callback};
      if MoveClaim(c1, id, Direct, routes.direct).Ok? {
        var c2 := MoveClaim(c1, id, Direct, routes.direct).value;
        MoveExactly(c2, id, Embedded, routes.embedded);
        CanHaveAfter(c1, id, Direct, routes.direct, Embedded, routes.embedded, {});
        assert {} + {Direct} == {Direct} && {Direct} + {Callback} == {Callback, Direct};
        CanHaveAfter(claims, id, Callback, routes.callback, Embedded, routes.embedded, {Direct});
      }
    }
  }

  /** Taking over its own direct endpoint as the callback is a conflict of an installation with itself. */
  lemma MoveConflictsWithItself(id: string)
    ensures var claims :=
      {Claim(id, Callback, RouteOf("a")), Claim(id, Direct, RouteOf("b")), Claim(id, Embedded, RouteOf("c"))};
      Exclusive(claims) && MoveClaims(claims, id, Routes("b", "d", "e")) == Err(RouteConflict)
  {
    var claims :=
      {Claim(id, Callback, RouteOf("a")), Claim(id, Direct, RouteOf("b")), Claim(id, Embedded, RouteOf("c"))};
    assert Claim(id, Direct, RouteOf("b")) in claims;
    assert Claim(id, Callback, RouteOf("b")) !in claims;
  }

  lemma ClaimsAfterKept(world: World, claims: set<Claim>, p: Patch, row: Installation)
    requires Exclusive(claims) && ClaimsAfter(world, claims, p, row).Ok? && Routed(world, claims, row)
    ensures var after := ClaimsAfter(world, claims, p, row).value;
      && Exclusive(after)
      && Routed(world, after, row.(config := row.config.(baseUrl := Or(p.baseUrl, row.config.baseUrl))))
      && forall c: Claim :: c.installation != row.id ==> (c in after <==> c in claims)
  {
    if p.baseUrl.Some? {
      MovesKeepExclusive(claims, row.id, world.routes(row.version, p.baseUrl.value).value);
    }
  }

  /** The guard alone makes a decision on a possibly stale read a decision on the stored row. */
  lemma CommitOnStoredRow(world: World, s: Sys, txn: Txn, env: Env)
    requires Fresh(s, txn) && Commit(world, s.db, txn, env).Some?
    ensures txn.snapshot == s.db.rows[txn.patch.id]
    ensures Accepts(world, env, txn.patch, s.db.rows[txn.patch.id])
  {
  }

  /** A column has the value that the patch names, and its old value if the patch names none. */
  ghost predicate Column<T>(change: Option<T>, before: T, after: T) {
    match change
    case Some(value) => after == value
    case None => after == before
  }

  /** What a patch writes to a row, column by column; `resolved` is the entitlement policy it names, if it does. */
  ghost predicate Wrote(before: Installation, after: Installation, p: Patch, resolved: Option<string>) {
    && after.id == before.id && after.appKey == before.appKey && after.version == before.version
    && after.revision == before.revision + 1
    && Column(p.status, before.status, after.status)
    && Column(p.baseUrl, before.config.baseUrl, after.config.baseUrl)
    && Column(p.surfaces, before.config.surfaces, after.config.surfaces)
    && Column(p.parentOrigins, before.config.parentOrigins, after.config.parentOrigins)
    && Column(p.allowedOrigins, before.config.allowedOrigins, after.config.allowedOrigins)
    && Column(p.userGroups, before.config.userGroups, after.config.userGroups)
    && Column(p.network, before.config.network, after.config.network)
    && (if p.entitlementDraft.Some? then resolved == Some(after.config.entitlement)
        else after.config.entitlement == before.config.entitlement)
  }

  /** A revocation revokes the credentials of its installation, and nothing else touches credentials. */
  ghost predicate RevokedOnly(before: seq<Credential>, after: seq<Credential>, id: string, revokes: bool) {
    && |after| == |before|
    && forall i :: 0 <= i < |before| ==>
         && after[i].installation == before[i].installation
         && after[i].status == if revokes && before[i].installation == id then "revoked" else before[i].status
  }

  /** Claims change only with the base URL, and all of an installation's go with its revocation. */
  ghost predicate ClaimsChanged(before: set<Claim>, after: set<Claim>, p: Patch, id: string) {
    && (forall c: Claim :: c.installation != id ==> (c in after <==> c in before))
    && (p.status == Some("revoked") ==> forall c: Claim :: c in after ==> c.installation != id)
    && (p.status != Some("revoked") && p.baseUrl.None? ==> after == before)
  }

  lemma MovesLeaveOthers(claims: set<Claim>, id: string, routes: Routes)
    requires MoveClaims(claims, id, routes).Ok?
    ensures forall c: Claim :: c.installation != id ==> (c in MoveClaims(claims, id, routes).value <==> c in claims)
  {
  }

  /** What a commit changes: one row, its columns, its claims and its credentials. */
  lemma CommitWrites(world: World, db: Db, txn: Txn, env: Env)
    requires Commit(world, db, txn, env).Some?
    ensures var after, p := Commit(world, db, txn, env).value, txn.patch;
      && p.id in db.rows && after.rows.Keys == db.rows.Keys
      && (forall id :: id in db.rows && id != p.id ==> after.rows[id] == db.rows[id])
      && Wrote(db.rows[p.id], after.rows[p.id], p, env.entitlement)
      && RevokedOnly(db.credentials, after.credentials, txn.snapshot.id, p.status == Some("revoked"))
      && ClaimsChanged(db.claims, after.claims, p, txn.snapshot.id)
  {
    hide Ready, MoveClaims;
    var p := txn.patch;
    if p.baseUrl.Some? {
      MovesLeaveOthers(db.claims, txn.snapshot.id, world.routes(txn.snapshot.version, p.baseUrl.value).value);
    }
  }

  lemma CommitKeepsOthers(world: World, db: Db, txn: Txn, env: Env, id: string)
    requires Sound(world, db) && Commit(world, db, txn, env).Some? && txn.snapshot == db.rows[txn.patch.id]
    requires id in db.rows && id != txn.patch.id
    ensures var after := Commit(world, db, txn, env).value;
      && after.rows[id] == db.rows[id]
      && (db.rows[id].status == REVOKED ==> Released(after, id))
      && (db.rows[id].status != REVOKED ==> Routed(world, after.claims, db.rows[id]))
  {
    ClaimsAfterKept(world, db.claims, txn.patch, txn.snapshot);
  }

  lemma CommitKeepsOwn(world: World, db: Db, txn: Txn, env: Env)
    requires Sound(world, db) && Commit(world, db, txn, env).Some? && txn.snapshot == db.rows[txn.patch.id]
    ensures var after := Commit(world, db, txn, env).value;
      var row := after.rows[txn.patch.id];
      && Exclusive(after.claims)
      && if row.status == REVOKED then Released(after, txn.patch.id) else Routed(world, after.claims, row)
  {
    ClaimsAfterKept(world, db.claims, txn.patch, txn.snapshot);
  }

  lemma CommitKeepsSound(world: World, db: Db, txn: Txn, env: Env)
    requires Sound(world, db) && Commit(world, db, txn, env).Some? && txn.snapshot == db.rows[txn.patch.id]
    ensures Sound(world, Commit(world, db, txn, env).value)
  {
    var after := Commit(world, db, txn, env).value;
    CommitKeepsOwn(world, db, txn, env);
    forall id | id in after.rows
      ensures if after.rows[id].status == REVOKED
        then Released(after, id) else Routed(world, after.claims, after.rows[id])
    {
      if id != txn.patch.id {
        CommitKeepsOthers(world, db, txn, env, id);
      }
    }
  }

  lemma StepKeepsFresh(world: World, s: Sys, step: Step)
    requires AllFresh(s) && WellKeyed(s.db)
    ensures AllFresh(Next(world, s, step)) && WellKeyed(Next(world, s, step).db)
  {
  }

  lemma StepKeepsSound(world: World, s: Sys, step: Step)
    requires AllFresh(s) && Sound(world, s.db)
    ensures Sound(world, Next(world, s, step).db)
  {
    if step.Finish? && step.t in s.open && Commit(world, s.db, s.open[step.t], step.env).Some? {
      CommitOnStoredRow(world, s, s.open[step.t], step.env);
      CommitKeepsSound(world, s.db, s.open[step.t], step.env);
    }
  }

  /**
   In every reachable state no endpoint is claimed twice, every installation that is not
   revoked claims exactly the endpoints of its base URL, and every revoked one has
   neither claims nor live credentials.
   */
  lemma {:induction false} RunKeepsSound(world: World, db: Db, run: seq<Step>)
    requires Sound(world, db)
    ensures AllFresh(Exec(world, db, run)) && Sound(world, Exec(world, db, run).db)
  {
    if run != [] {
      RunKeepsSound(world, db, run[..|run| - 1]);
      StepKeepsFresh(world, Exec(world, db, run[..|run| - 1]), run[|run| - 1]);
      StepKeepsSound(world, Exec(world, db, run[..|run| - 1]), run[|run| - 1]);
    }
  }

  // ------------------------------------------------------------------ the log

  /** Commits of one installation, oldest first. */
  function History(log: seq<Entry>, id: string): seq<Entry> {
    if log == [] then []
    else
      var rest := History(log[..|log| - 1], id);
      if log[|log| - 1].patch.id == id then rest + [log[|log| - 1]] else rest
  }

  /** Each commit starts from the row the one before has left, at the revision it asked for. */
  ghost predicate Chain(h: seq<Entry>, first: Installation, last: Installation) {
    if h == [] then first == last
    else
      var e := h[|h| - 1];
      && e.after == last && e.before.revision == e.patch.revision && e.before.status != REVOKED
      && e.after == Updated(e.before, e.patch, e.env)
      && Chain(h[..|h| - 1], first, e.before)
  }

  /** Every commit was accepted on the row it changed. */
  ghost predicate AllAccepted(world: World, h: seq<Entry>) {
    forall i :: 0 <= i < |h| ==> Accepts(world, h[i].env, h[i].patch, h[i].before)
  }

  ghost predicate LoggedFor(world: World, log: seq<Entry>, first: Installation, last: Installation, id: string) {
    Chain(History(log, id), first, last) && AllAccepted(world, History(log, id))
  }

  ghost predicate Logged(world: World, db: Db, s: Sys) {
    && s.db.rows.Keys == db.rows.Keys
    && forall id :: id in db.rows ==> LoggedFor(world, s.log, db.rows[id], s.db.rows[id], id)
  }

  lemma HistoryExtended(log: seq<Entry>, e: Entry, id: string)
    ensures History(log + [e], id) == if e.patch.id == id then History(log, id) + [e] else History(log, id)
  {
    assert (log + [e])[..|log|] == log;
  }

  lemma ChainExtended(h: seq<Entry>, first: Installation, e: Entry)
    requires Chain(h, first, e.before) && e.before.revision == e.patch.revision && e.before.status != REVOKED
    requires e.after == Updated(e.before, e.patch, e.env)
    ensures Chain(h + [e], first, e.after)
  {
    assert (h + [e])[..|h|] == h;
  }

  lemma EntryLogged(world: World, log: seq<Entry>, first: Installation, e: Entry, last: Installation, id: string)
    requires LoggedFor(world, log, first, last, id)
    requires e.patch.id == id ==> e.before == last
    requires e.before.revision == e.patch.revision && e.before.status != REVOKED
    requires e.after == Updated(e.before, e.patch, e.env) && Accepts(world, e.env, e.patch, e.before)
    ensures LoggedFor(world, log + [e], first, if e.patch.id == id then e.after else last, id)
  {
    HistoryExtended(log, e, id);
    if id == e.patch.id {
      ChainExtended(History(log, id), first, e);
    }
  }

  lemma StepKeepsLogged(world: World, db: Db, s: Sys, step: Step)
    requires Logged(world, db, s) && AllFresh(s)
    ensures Logged(world, db, Next(world, s, step))
  {
    hide LoggedFor, Accepts, ClaimsAfter;
    var s' := Next(world, s, step);
    if step.Finish? && step.t in s.open && Commit(world, s.db, s.open[step.t], step.env).Some? {
      CommitOnStoredRow(world, s, s.open[step.t], step.env);
      var e := s'.log[|s.log|];
      forall id | id in db.rows ensures LoggedFor(world, s'.log, db.rows[id], s'.db.rows[id], id) {
        EntryLogged(world, s.log, db.rows[id], e, s.db.rows[id], id);
      }
    }
  }

  lemma {:induction false} RunKeepsFresh(world: World, db: Db, run: seq<Step>)
    requires WellKeyed(db)
    ensures AllFresh(Exec(world, db, run)) && WellKeyed(Exec(world, db, run).db)
  {
    if run != [] {
      RunKeepsFresh(world, db, run[..|run| - 1]);
      StepKeepsFresh(world, Exec(world, db, run[..|run| - 1]), run[|run| - 1]);
    }
  }

  lemma {:induction false} RunIsLogged(world: World, db: Db, run: seq<Step>)
    requires WellKeyed(db)
    ensures Logged(world, db, Exec(world, db, run))
  {
    if run != [] {
      RunIsLogged(world, db, run[..|run| - 1]);
      RunKeepsFresh(world, db, run[..|run| - 1]);
      StepKeepsLogged(world, db, Exec(world, db, run[..|run| - 1]), run[|run| - 1]);
    }
  }

  ghost predicate AllWrote(log: seq<Entry>) {
    forall i :: 0 <= i < |log| ==> Wrote(log[i].before, log[i].after, log[i].patch, log[i].env.entitlement)
  }

  lemma StepWrites(world: World, s: Sys, step: Step)
    requires AllWrote(s.log)
    ensures AllWrote(Next(world, s, step).log)
  {
    hide Wrote, Commit;
    if step.Finish? && step.t in s.open && Commit(world, s.db, s.open[step.t], step.env).Some? {
      CommitWrites(world, s.db, s.open[step.t], step.env);
    }
  }

  /** In every run every commit wrote each column as its patch named it, and nothing else. */
  lemma {:induction false} RunWrites(world: World, db: Db, run: seq<Step>)
    ensures AllWrote(Exec(world, db, run).log)
  {
    if run != [] {
      RunWrites(world, db, run[..|run| - 1]);
      StepWrites(world, Exec(world, db, run[..|run| - 1]), run[|run| - 1]);
    }
  }

  // ------------------------------------------------------------- main theorems

  lemma {:induction false} ChainRevisions(h: seq<Entry>, first: Installation, last: Installation)
    requires Chain(h, first, last)
    ensures forall i :: 0 <= i < |h| ==> h[i].patch.revision == first.revision + i
    ensures last.revision == first.revision + |h|
  {
    if h != [] { ChainRevisions(h[..|h| - 1], first, h[|h| - 1].before); }
  }

  /**
   However patches overlap, the accepted ones of an installation name the revisions
   n, n + 1, n + 2, ... in this order, so each revision has at most one winner.
   */
  lemma RevisionsFormChain(world: World, db: Db, run: seq<Step>, id: string)
    requires WellKeyed(db) && id in db.rows
    ensures var s := Exec(world, db, run); var h := History(s.log, id);
      && id in s.db.rows && s.db.rows[id].revision == db.rows[id].revision + |h|
      && (forall i :: 0 <= i < |h| ==> h[i].patch.revision == db.rows[id].revision + i)
      && (forall i, j :: 0 <= i < j < |h| ==> h[i].patch.revision != h[j].patch.revision)
  {
    RunIsLogged(world, db, run);
    ChainRevisions(History(Exec(world, db, run).log, id), db.rows[id], Exec(world, db, run).db.rows[id]);
  }

  /** A revoked installation never changes again. */
  lemma {:induction false} RevokedIsAbsorbing(world: World, db: Db, run: seq<Step>, n: nat, id: string)
    requires n <= |run|
    requires id in Exec(world, db, run[..n]).db.rows && Exec(world, db, run[..n]).db.rows[id].status == REVOKED
    ensures id in Exec(world, db, run).db.rows
    ensures Exec(world, db, run).db.rows[id] == Exec(world, db, run[..n]).db.rows[id]
  {
    if n < |run| {
      var before := run[..|run| - 1];
      assert before[..n] == run[..n];
      RevokedIsAbsorbing(world, db, before, n, id);
    } else {
      assert run[..n] == run;
    }
  }

  /** The configuration of an enabled installation is the one that passed the enable check. */
  lemma EnabledWasChecked(world: World, db: Db, run: seq<Step>, id: string)
    requires WellKeyed(db) && id in db.rows && db.rows[id].status != ENABLED
    ensures id in Exec(world, db, run).db.rows
    ensures Exec(world, db, run).db.rows[id].status == ENABLED ==>
      var h := History(Exec(world, db, run).log, id);
      && h != [] && h[|h| - 1].patch.status == Some(ENABLED)
      && h[|h| - 1].before.config == Exec(world, db, run).db.rows[id].config
      && Ready(world, h[|h| - 1].env, Exec(world, db, run).db.rows[id].config)
  {
    RunIsLogged(world, db, run);
    var row := Exec(world, db, run).db.rows[id];
    var h := History(Exec(world, db, run).log, id);
    if row.status == ENABLED && h != [] {
      var e := h[|h| - 1];
      assert Accepts(world, e.env, e.patch, e.before);
      OnlyStatusChanges(e.before.config, e.patch, e.env);
    }
  }

  lemma OnlyStatusChanges(config: Config, p: Patch, env: Env)
    ensures p.status.Some? && ChangeCount(p) == 1 ==> ApplyTo(config, p, env) == config
  {
  }

  /** A commit by a user below root, on any row: what it cannot do. */
  lemma BelowRootTightens(world: World, e: Entry)
    requires Accepts(world, e.env, e.patch, e.before) && !e.patch.root && e.after == Updated(e.before, e.patch, e.env)
    ensures Tightens(e.before.config.network, e.after.config.network)
    ensures e.after.config.surfaces == e.before.config.surfaces
    ensures e.after.config.parentOrigins == e.before.config.parentOrigins
    ensures e.after.status == REVOKED ==> e.before.status == REVOKED
    ensures e.patch.entitlementDraft != Some(true)
    ensures e.before.config.network.denyPrivate ==> e.after.config.network.denyPrivate
    ensures forall h :: h in e.after.config.network.allowHosts ==> h in e.before.config.network.allowHosts
  {
  }

  /** The allowed hosts have only shrunk, private ranges are still denied, nothing was revoked or opened. */
  ghost predicate OnlyTightened(first: Installation, last: Installation) {
    && Tightens(first.config.network, last.config.network)
    && last.config.surfaces == first.config.surfaces && last.config.parentOrigins == first.config.parentOrigins
    && (last.status == REVOKED ==> first.status == REVOKED)
  }

  ghost predicate BelowRoot(h: seq<Entry>) {
    forall i :: 0 <= i < |h| ==> !h[i].patch.root
  }

  lemma {:induction false} ChainTightens(world: World, h: seq<Entry>, first: Installation, last: Installation)
    requires Chain(h, first, last) && AllAccepted(world, h) && BelowRoot(h)
    ensures OnlyTightened(first, last)
  {
    if h != [] {
      var e := h[|h| - 1];
      ChainTightens(world, h[..|h| - 1], first, e.before);
      BelowRootTightens(world, e);
    }
  }

  /**
   While only users below root patch an installation, its allowed hosts only shrink,
   private ranges stay denied once they are, and it is not revoked.
   */
  lemma BelowRootOnlyTightens(world: World, db: Db, run: seq<Step>, id: string)
    requires WellKeyed(db) && id in db.rows
    requires BelowRoot(History(Exec(world, db, run).log, id))
    ensures id in Exec(world, db, run).db.rows
    ensures OnlyTightened(db.rows[id], Exec(world, db, run).db.rows[id])
  {
    RunIsLogged(world, db, run);
    ChainTightens(world, History(Exec(world, db, run).log, id), db.rows[id], Exec(world, db, run).db.rows[id]);
  }
}
