/**
 The patch transaction as it runs: lock and check the row, decide, move the route claims
 one by one, release what a revocation releases, and update the row under the guard.
 Every failure rolls everything back.
 */
module AppInstallationStore {
  import opened AppInstallation
  import opened Text
  import opened Wrappers

  class Database {
    const world: World
    var rows: map<string, Installation>
    var claims: set<Claim>
    var credentials: seq<Credential>

    function Tables(): Db
      reads this
    {
      Db(rows, claims, credentials)
    }

    constructor (world: World, db: Db)
      ensures this.world == world && Tables() == db
    {
      this.world := world;
      rows, claims, credentials := db.rows, db.claims, db.credentials;
    }

    /** Moves the callback, direct and embedded claims, in this order. */
    method UpdateRouteClaims(claims: set<Claim>, id: string, routes: Routes) returns (r: Result<set<Claim>>)
      ensures r == MoveClaims(claims, id, routes)
    {
      var wanted := [(Callback, routes.callback), (Direct, routes.direct), (Embedded, routes.embedded)];
      var current := claims;
      var i := 0;
      while i < 3
        invariant 0 <= i <= 3
        invariant MoveClaims(claims, id, routes) == MoveFrom(current, id, routes, i)
      {
        var claim := Claim(id, wanted[i].0, RouteOf(wanted[i].1));
        if claim !in current {
          if Taken(current, claim.key) {
            return Err(RouteConflict);
          }
          current := current - KindOf(current, id, wanted[i].0) + {claim};
        }
        i := i + 1;
      }
      return Ok(current);
    }

    /** What is left to do when the first `done` claims have been moved. */
    static function MoveFrom(claims: set<Claim>, id: string, routes: Routes, done: nat): Result<set<Claim>> {
      if done == 0 then MoveClaims(claims, id, routes)
      else if done == 1 then
        (match MoveClaim(claims, id, Direct, routes.direct)
         case Err(e) => Err(e)
         case Ok(c) => MoveClaim(c, id, Embedded, routes.embedded))
      else if done == 2 then MoveClaim(claims, id, Embedded, routes.embedded)
      else Ok(claims)
    }

    /** The checks on the patch itself and on the row it has read. */
    method Decide(env: Env, p: Patch, current: Installation) returns (error: Option<Error>)
      requires RoleAllows(p) && ChangeCount(p) > 0
      ensures error.None? <==> Accepts(world, env, p, current)
      ensures p.status == Some("enabled") && (current.status != "disabled" || Configures(p)) ==>
        error == Some(InvalidTransition)
      ensures p.status == Some("disabled") && current.status == "disabled" && !Configures(p) ==>
        error == Some(InvalidTransition)
      ensures p.status.Some? && p.status.value !in {"enabled", "disabled", "revoked"} ==>
        error == Some(InvalidTransition)
      ensures p.status != Some("enabled") && Configures(p) && current.status != "disabled" ==>
        error == Some(InvalidTransition)
    {
      ChangesAre(p);
      if p.status.Some? {
        if p.status.value == ENABLED {
          if current.status != DISABLED || ChangeCount(p) != 1 {
            return Some(InvalidTransition);
          }
          error := ValidateEnable(world, env, current.config);
          if error.Some? {
            return;
          }
        } else if p.status.value == DISABLED {
          if current.status == DISABLED && ChangeCount(p) == 1 {
            return Some(InvalidTransition);
          }
        } else if p.status.value == REVOKED {
          if !p.root {
            return Some(Forbidden);
          }
        } else {
          return Some(InvalidTransition);
        }
      }
      var hasConfigurationChanges := p.status.None? || ChangeCount(p) > 1;
      if current.status != DISABLED && hasConfigurationChanges {
        return Some(InvalidTransition);
      }
      if !p.root && p.network.Some? {
        var tightens := NetworkPolicyTightens(current.config.network, p.network.value);
        if !tightens {
          return Some(Forbidden);
        }
      }
      if p.entitlementDraft.Some? && env.entitlement.None? {
        return Some(Unavailable);
      }
      return None;
    }

    /** Reads the row, then runs the transaction; other patches may not come in between here. */
    method Patch(env: Env, p: AppInstallation.Patch) returns (error: Option<Error>)
      modifies this
      ensures error.None? <==> old(Admits(Tables(), p)
        && Commit(world, Tables(), Txn(p, Tables().rows[p.id]), env).Some?)
      ensures error.None? ==> Tables() == old(Commit(world, Tables(), Txn(p, Tables().rows[p.id]), env).value)
      ensures error.Some? ==> Tables() == old(Tables())
      ensures error.None? ==>
        && p.id in old(rows) && rows.Keys == old(rows).Keys
        && (forall id :: id in rows && id != p.id ==> rows[id] == old(rows)[id])
        && Wrote(old(rows)[p.id], rows[p.id], p, env.entitlement)
        && RevokedOnly(old(credentials), credentials, old(rows)[p.id].id, p.status == Some("revoked"))
        && ClaimsChanged(old(claims), claims, p, old(rows)[p.id].id)
      ensures !Asked(p) ==> error == Some(InvalidRequest)
      ensures Asked(p) && !RoleAllows(p) ==> error == Some(Forbidden)
      ensures Asked(p) && RoleAllows(p) && p.id !in old(rows) ==> error == Some(NotFound)
      ensures Asked(p) && RoleAllows(p) && p.id in old(rows) ==>
        && (old(rows)[p.id].status == REVOKED ==> error == Some(AlreadyRevoked))
        && (old(rows)[p.id].status != REVOKED && old(rows)[p.id].revision != p.revision ==>
            error == Some(RevisionConflict))
        && (old(rows)[p.id].status != REVOKED && old(rows)[p.id].revision == p.revision ==>
            Claim(p.id, AppKey, AppOf(old(rows)[p.id].appKey)) !in old(claims) ==> error == Some(RouteConflict))
    {
      hide Ready, Wrote, RevokedOnly, ClaimsChanged;
      if p.id == "" || p.revision <= 0 || ChangeCount(p) == 0 {
        return Some(InvalidRequest);
      }
      if !RoleAllows(p) {
        return Some(Forbidden);
      }
      if p.id !in rows {
        return Some(NotFound);
      }
      var current := rows[p.id];
      if current.status == REVOKED {
        return Some(AlreadyRevoked);
      }
      if current.revision != p.revision {
        return Some(RevisionConflict);
      }
      if Claim(p.id, AppKey, AppOf(current.appKey)) !in claims {
        return Some(RouteConflict);
      }
      error := Decide(env, p, current);
      if error.Some? {
        return;
      }
      var newClaims, newCredentials := claims, credentials;
      if p.baseUrl.Some? {
        var routes := world.routes(current.version, p.baseUrl.value);
        if routes.None? {
          return Some(Unavailable);
        }
        var moved := UpdateRouteClaims(newClaims, current.id, routes.value);
        if moved.Err? {
          return Some(moved.error);
        }
        newClaims := moved.value;
      }
      if p.status == Some(REVOKED) {
        newClaims := newClaims - ClaimsOf(newClaims, current.id);
        newCredentials := RevokeCredentials(newCredentials, current.id);
      }
      CommitWrites(world, Tables(), Txn(p, current), env);
      rows := rows[p.id := Updated(rows[p.id], p, env)];
      claims, credentials := newClaims, newCredentials;
    }
  }

  // ------------------------------------------------------------ canonical lists

  /** Byte-wise string order. */
  predicate Before(a: string, b: string) {
    if b == "" then false
    else if a == "" then true
    else a[0] < b[0] || (a[0] == b[0] && Before(a[1..], b[1..]))
  }

  /** The first difference decides, and a proper prefix comes first. */
  lemma {:induction false} BeforeIs(a: string, b: string)
    ensures Before(a, b) <==>
      exists n :: 0 <= n <= |a| && n < |b| && a[..n] == b[..n] && (n == |a| || a[n] < b[n])
  {
    if a != "" && b != "" && a[0] == b[0] {
      BeforeIs(a[1..], b[1..]);
      var a', b' := a[1..], b[1..];
      if n :| 0 <= n <= |a'| && n < |b'| && a'[..n] == b'[..n] && (n == |a'| || a'[n] < b'[n]) {
        assert a[..n + 1] == [a[0]] + a[1..][..n] && b[..n + 1] == [b[0]] + b[1..][..n];
        assert a[..n + 1] == b[..n + 1] && (n + 1 == |a| || a[n + 1] < b[n + 1]);
      }
      if n :| 0 <= n <= |a| && n < |b| && a[..n] == b[..n] && (n == |a| || a[n] < b[n]) {
        assert n > 0;
        assert a[1..][..n - 1] == a[..n][1..] && b[1..][..n - 1] == b[..n][1..];
      }
    } else if b != "" {
      assert a[..0] == b[..0];
      if n :| 0 <= n <= |a| && n < |b| && a[..n] == b[..n] && (n == |a| || a[n] < b[n]) {
        assert n > 0 ==> a[..n][0] == b[..n][0];
      }
    }
  }

  lemma {:induction false} BeforeTransitive(a: string, b: string, c: string)
    requires Before(a, b) && Before(b, c)
    ensures Before(a, c)
  {
    if a != "" && a[0] == b[0] == c[0] { BeforeTransitive(a[1..], b[1..], c[1..]); }
  }

  lemma {:induction false} BeforeTotal(a: string, b: string)
    ensures Before(a, b) || a == b || Before(b, a)
    ensures !(Before(a, b) && (a == b || Before(b, a)))
  {
    if a != "" && b != "" {
      BeforeTotal(a[1..], b[1..]);
      if a[0] == b[0] && a[1..] == b[1..] {
        assert a == [a[0]] + a[1..] && b == [b[0]] + b[1..];
      }
    }
  }

  /** In strictly increasing order, so without duplicates. */
  ghost predicate Increasing(s: seq<string>) {
    forall i, j :: 0 <= i < j < |s| ==> Before(s[i], s[j])
  }

  /** The place of a new name in an increasing list. */
  method Insert(s: seq<string>, x: string) returns (r: seq<string>)
    requires Increasing(s) && x !in s
    ensures Increasing(r) && forall y :: y in r <==> y == x || y in s
  {
    var k := |s|;
    while k > 0 && Before(x, s[k - 1])
      invariant 0 <= k <= |s|
      invariant forall i :: k <= i < |s| ==> Before(x, s[i])
    {
      k := k - 1;
    }
    forall i | 0 <= i < k ensures Before(s[i], x) {
      BeforeTotal(s[k - 1], x);
      assert s[k - 1] in s;
      if i < k - 1 { BeforeTransitive(s[i], s[k - 1], x); }
    }
    r := s[..k] + [x] + s[k..];
    assert s == s[..k] + s[k..];
  }

  /** Drops empty and repeated names and sorts the rest. */
  method NormalizeStrings(values: seq<string>) returns (result: seq<string>)
    ensures Increasing(result) && forall x :: x in result <==> x in values && x != ""
  {
    var seen: set<string> := {};
    for i := 0 to |values|
      invariant forall x :: x in seen <==> x in values[..i] && x != ""
    {
      if values[i] != "" {
        seen := seen + {values[i]};
      }
    }
    assert values[..|values|] == values;
    result := [];
    var left := seen;
    while left != {}
      invariant left <= seen && Increasing(result)
      invariant forall x :: x in result <==> x in seen && x !in left
      decreases |left|
    {
      var x :| x in left;
      result := Insert(result, x);
      left := left - {x};
    }
  }

  /** The elements determine the list, whatever order the set was walked in. */
  lemma {:induction false} IncreasingIsUnique(a: seq<string>, b: seq<string>)
    requires Increasing(a) && Increasing(b) && forall x :: x in a <==> x in b
    ensures a == b
  {
    if a == [] {
      FirstIsIn(b);
    } else {
      assert a[0] in a && a[0] in b;
      assert b[0] in b && b[0] in a;
      BeforeTotal(a[0], b[0]);
      forall x ensures x in a[1..] <==> x in b[1..] {
        RestOf(a, x);
        RestOf(b, x);
      }
      IncreasingIsUnique(a[1..], b[1..]);
      assert a == [a[0]] + a[1..] && b == [b[0]] + b[1..];
    }
  }

  lemma RestOf(a: seq<string>, x: string)
    requires a != [] && Increasing(a)
    ensures x in a[1..] <==> x in a && x != a[0]
  {
    if x in a[1..] {
      var i :| 0 <= i < |a[1..]| && a[1..][i] == x;
      BeforeTotal(a[0], a[i + 1]);
    }
    if x in a && x != a[0] {
      var i :| 0 <= i < |a| && a[i] == x;
      assert a[1..][i - 1] == x;
    }
  }
}
