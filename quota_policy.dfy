/**
 * The reference definition of quota enforcement over an abstract snapshot of
 * the engine (grant table, process list) and the tenant store: what one grant,
 * one revoke, one tenant's turn and one whole cycle of `enforce_storage_quota`
 * do, and what a cycle guarantees.
 */
module QuotaPolicy {

  import opened SizeInspector
  import opened PrivilegeTable
  import opened SessionList

  /** A provisioned service in the tenant store: its database, its engine login, the last decision. */
  datatype Tenant = Tenant(name: string, user: string, quotaExceeded: bool)

  /** What the enforcer makes visible besides the tables: logger lines and privilege reloads. */
  datatype Event =
    | PermissionsInconsistent                       // warn: flags disagree with the operation
    | PrivilegesFlushed                             // FLUSH PRIVILEGES
    | QuotaExceeded(user: string, db: string, size: nat)  // info: access revoked
    | BelowQuota(user: string, db: string, size: nat)     // info: access restored
    | EngineError                                   // warn: the cycle was aborted by Mysql::Error

  /** The state the enforcer reads and changes. */
  datatype World = World(privileges: seq<PrivRow>, sessions: map<nat, Process>,
                         tenants: seq<Tenant>, events: seq<Event>)

  /** The three outcomes of the transition table for one tenant. */
  datatype Action = Revoke | Grant | Keep

  /** The tenant's flag once `a` has been carried out. */
  function FlagAfter(quotaExceeded: bool, a: Action): bool
  {
    match a
    case Revoke => true
    case Grant => false
    case Keep => quotaExceeded
  }

  /**
   * The transition table: revoke an OK tenant at or above the limit, grant an
   * over-quota tenant below it, otherwise do nothing. Whatever the prior
   * state, the flag afterwards says whether the size reaches the limit.
   */
  function Decide(quotaExceeded: bool, size: nat, maxDbSize: int): (a: Action)
    ensures a == Revoke ==> !quotaExceeded
    ensures a == Grant ==> quotaExceeded
    ensures FlagAfter(quotaExceeded, a) <==> size >= maxDbSize
  {
    if size >= maxDbSize && !quotaExceeded then Revoke
    else if size < maxDbSize && quotaExceeded then Grant
    else Keep
  }

  /** `grant_write_access(db, service)` where `service` is the k-th record. */
  function GrantSpec(w: World, db: string, k: nat): (r: World)
    requires k < |w.tenants|
    ensures |r.tenants| == |w.tenants| && !r.tenants[k].quotaExceeded
    ensures r.sessions == w.sessions
    ensures AccessDisabled(r.privileges, db) <==> forall i :: 0 <= i < |w.privileges| ==> w.privileges[i].db != db
    ensures w.events < r.events && r.events[|r.events| - 1] == PrivilegesFlushed
  {
    GrantedIsEnabled(w.privileges, db);
    var warning := if AccessDisabled(w.privileges, db) then [] else [PermissionsInconsistent];
    World(SetWriteFlags(w.privileges, db, Y),
          w.sessions,
          w.tenants[k := w.tenants[k].(quotaExceeded := false)],
          w.events + warning + [PrivilegesFlushed])
  }

  /** `revoke_write_access(db, service)` where `service` is the k-th record. */
  function RevokeSpec(w: World, db: string, k: nat): (r: World)
    requires k < |w.tenants|
    ensures |r.tenants| == |w.tenants| && r.tenants[k].quotaExceeded
    ensures AccessDisabled(r.privileges, db)
    ensures forall t :: t in r.sessions <==> t in w.sessions && !Targets(w.sessions[t], w.tenants[k].user, db)
    ensures w.events < r.events && r.events[|r.events| - 1] == PrivilegesFlushed
  {
    RevokedIsDisabled(w.privileges, db);
    var warning := if AccessDisabled(w.privileges, db) then [PermissionsInconsistent] else [];
    World(SetWriteFlags(w.privileges, db, N),
          Survivors(w.sessions, w.tenants[k].user, db),
          w.tenants[k := w.tenants[k].(quotaExceeded := true)],
          w.events + warning + [PrivilegesFlushed])
  }

  /** The tenant record with its flag set to "size >= limit". */
  function Settle(t: Tenant, catalog: seq<CatalogRow>, maxDbSize: int): Tenant
  {
    t.(quotaExceeded := TotalSize(catalog, t.name) >= maxDbSize)
  }

  /** The grant table once action `a` has been carried out on database `db`. */
  function TableAfter(privileges: seq<PrivRow>, db: string, a: Action): seq<PrivRow>
  {
    match a
    case Revoke => SetWriteFlags(privileges, db, N)
    case Grant => SetWriteFlags(privileges, db, Y)
    case Keep => privileges
  }

  /** The process list once action `a` has been carried out for tenant `t`: a revoke kills its sessions. */
  function SessionsAfter(sessions: map<nat, Process>, t: Tenant, a: Action): map<nat, Process>
  {
    if a == Revoke then Survivors(sessions, t.user, t.name) else sessions
  }

  /** What carrying out action `a` for tenant `t` of size `size` logs, given the grant table before it. */
  function LogOf(privileges: seq<PrivRow>, t: Tenant, size: nat, a: Action): seq<Event>
  {
    match a
    case Revoke =>
      (if AccessDisabled(privileges, t.name) then [PermissionsInconsistent] else [])
      + [PrivilegesFlushed, QuotaExceeded(t.user, t.name, size)]
    case Grant =>
      (if AccessDisabled(privileges, t.name) then [] else [PermissionsInconsistent])
      + [PrivilegesFlushed, BelowQuota(t.user, t.name, size)]
    case Keep => []
  }

  /**
   * One turn of the enforcement loop for the k-th tenant: decide on its size,
   * then carry the action out on the grant table, the process list, its
   * record and the log. Only that tenant's record changes, and its flag
   * afterwards is "size >= limit".
   */
  function ProcessTenant(w: World, catalog: seq<CatalogRow>, maxDbSize: int, k: nat): (r: World)
    requires k < |w.tenants|
    ensures r.tenants == w.tenants[k := Settle(w.tenants[k], catalog, maxDbSize)]
    ensures |r.privileges| == |w.privileges|
  {
    var t := w.tenants[k];
    var size := TotalSize(catalog, t.name);
    var a := Decide(t.quotaExceeded, size, maxDbSize);
    World(TableAfter(w.privileges, t.name, a),
          SessionsAfter(w.sessions, t, a),
          w.tenants[k := t.(quotaExceeded := FlagAfter(t.quotaExceeded, a))],
          w.events + LogOf(w.privileges, t, size, a))
  }

  /**
   * The turn is the loop body of `enforce_storage_quota`: revoke then log
   * "quota exceeded", grant then log "below quota", or leave everything as
   * it is.
   */
  lemma ProcessTenantCases(w: World, catalog: seq<CatalogRow>, maxDbSize: int, k: nat)
    requires k < |w.tenants|
    ensures var t := w.tenants[k];
      var size := TotalSize(catalog, t.name);
      var r := ProcessTenant(w, catalog, maxDbSize, k);
      match Decide(t.quotaExceeded, size, maxDbSize)
      case Revoke =>
        var revoked := RevokeSpec(w, t.name, k);
        r == revoked.(events := revoked.events + [QuotaExceeded(t.user, t.name, size)])
      case Grant =>
        var granted := GrantSpec(w, t.name, k);
        r == granted.(events := granted.events + [BelowQuota(t.user, t.name, size)])
      case Keep =>
        r == w
  {
    var t := w.tenants[k];
    var size := TotalSize(catalog, t.name);
    var r := ProcessTenant(w, catalog, maxDbSize, k);
    match Decide(t.quotaExceeded, size, maxDbSize)
    case Revoke =>
    case Grant =>
    case Keep =>
      assert r.tenants == w.tenants;
  }

  /** The first n turns of a cycle, tenants taken in store order. */
  function Cycle(w: World, catalog: seq<CatalogRow>, maxDbSize: int, n: nat): (r: World)
    requires n <= |w.tenants|
    ensures |r.tenants| == |w.tenants| && |r.privileges| == |w.privileges|
    decreases n
  {
    if n == 0 then w
    else ProcessTenant(Cycle(w, catalog, maxDbSize, n - 1), catalog, maxDbSize, n - 1)
  }

  /**
   * After the first n turns of a cycle each of those n tenants has flag
   * "size >= limit"; the others are untouched.
   */
  lemma {:induction false} CycleTenants(w: World, catalog: seq<CatalogRow>, maxDbSize: int, n: nat)
    requires n <= |w.tenants|
    ensures var r := Cycle(w, catalog, maxDbSize, n);
      forall j :: 0 <= j < |w.tenants| ==>
        r.tenants[j] == if j < n then Settle(w.tenants[j], catalog, maxDbSize) else w.tenants[j]
    decreases n
  {
    if n > 0 {
      CycleTenants(w, catalog, maxDbSize, n - 1);
    }
  }

  /** No two tenants share a database. */
  predicate DistinctNames(tenants: seq<Tenant>)
  {
    forall i, j :: 0 <= i < j < |tenants| ==> tenants[i].name != tenants[j].name
  }

  /** The tenant's grant rows agree with its flag: all N when over quota, all Y otherwise. */
  predicate Consistent(t: Tenant, privileges: seq<PrivRow>)
  {
    forall i :: 0 <= i < |privileges| && privileges[i].db == t.name ==>
      HasFlags(privileges[i], if t.quotaExceeded then N else Y)
  }

  /** The grant row once action `a` has been carried out on its database. */
  function RowAfter(row: PrivRow, a: Action): PrivRow
  {
    match a
    case Revoke => WithFlags(row, N)
    case Grant => WithFlags(row, Y)
    case Keep => row
  }

  /** The action the cycle takes for the j-th tenant of `w`. */
  function ActionFor(w: World, catalog: seq<CatalogRow>, maxDbSize: int, j: nat): Action
    requires j < |w.tenants|
  {
    Decide(w.tenants[j].quotaExceeded, TotalSize(catalog, w.tenants[j].name), maxDbSize)
  }

  /** One turn touches only the rows of the tenant's own database, and gives them its action. */
  lemma ProcessTenantRows(w: World, catalog: seq<CatalogRow>, maxDbSize: int, k: nat)
    requires k < |w.tenants|
    ensures var r := ProcessTenant(w, catalog, maxDbSize, k);
      && |r.privileges| == |w.privileges|
      && forall i :: 0 <= i < |w.privileges| ==>
           r.privileges[i] == if w.privileges[i].db == w.tenants[k].name
                              then RowAfter(w.privileges[i], ActionFor(w, catalog, maxDbSize, k))
                              else w.privileges[i]
  {
    assert ProcessTenant(w, catalog, maxDbSize, k).privileges ==
           TableAfter(w.privileges, w.tenants[k].name, ActionFor(w, catalog, maxDbSize, k));
  }

  /** The grant table after the first n turns. */
  function TableAfterTurns(w: World, catalog: seq<CatalogRow>, maxDbSize: int, n: nat): seq<PrivRow>
    requires n <= |w.tenants|
  {
    if n == 0 then w.privileges
    else TableAfter(TableAfterTurns(w, catalog, maxDbSize, n - 1), w.tenants[n - 1].name, ActionFor(w, catalog, maxDbSize, n - 1))
  }

  /** The grant table after one turn, as a whole. */
  lemma ProcessTenantTable(w: World, catalog: seq<CatalogRow>, maxDbSize: int, k: nat)
    requires k < |w.tenants|
    ensures ProcessTenant(w, catalog, maxDbSize, k).privileges == TableAfter(w.privileges, w.tenants[k].name, ActionFor(w, catalog, maxDbSize, k))
  {
  }

  /** The grant table after the first n turns of a cycle, as a whole. */
  lemma {:induction false} CycleTable(w: World, catalog: seq<CatalogRow>, maxDbSize: int, n: nat)
    requires n <= |w.tenants|
    ensures Cycle(w, catalog, maxDbSize, n).privileges == TableAfterTurns(w, catalog, maxDbSize, n)
    decreases n
  {
    if n > 0 {
      CycleTable(w, catalog, maxDbSize, n - 1);
      CycleTenants(w, catalog, maxDbSize, n - 1);
      var prev := Cycle(w, catalog, maxDbSize, n - 1);
      assert prev.tenants[n - 1] == w.tenants[n - 1];
      ProcessTenantTable(prev, catalog, maxDbSize, n - 1);
      assert Cycle(w, catalog, maxDbSize, n) == ProcessTenant(prev, catalog, maxDbSize, n - 1);
    }
  }

  /** A grant row after the first n turns, each turn applying its action when the row is of its tenant's database. */
  function RowAfterTurns(w: World, catalog: seq<CatalogRow>, maxDbSize: int, n: nat, row: PrivRow): (r: PrivRow)
    requires n <= |w.tenants|
    ensures r.db == row.db
  {
    if n == 0 then row
    else
      var prev := RowAfterTurns(w, catalog, maxDbSize, n - 1, row);
      if row.db == w.tenants[n - 1].name then RowAfter(prev, ActionFor(w, catalog, maxDbSize, n - 1)) else prev
  }

  /** Row by row, the table of TableAfterTurns. */
  lemma {:induction false} TableRows(w: World, catalog: seq<CatalogRow>, maxDbSize: int, n: nat)
    requires n <= |w.tenants|
    ensures var t := TableAfterTurns(w, catalog, maxDbSize, n);
      && |t| == |w.privileges|
      && forall i :: 0 <= i < |w.privileges| ==> t[i] == RowAfterTurns(w, catalog, maxDbSize, n, w.privileges[i])
    decreases n
  {
    if n > 0 {
      TableRows(w, catalog, maxDbSize, n - 1);
    }
  }

  /** Row by row, the grant table after the first n turns of a cycle. */
  lemma CycleRows(w: World, catalog: seq<CatalogRow>, maxDbSize: int, n: nat)
    requires n <= |w.tenants|
    ensures var r := Cycle(w, catalog, maxDbSize, n);
      && |r.privileges| == |w.privileges|
      && forall i :: 0 <= i < |w.privileges| ==> r.privileges[i] == RowAfterTurns(w, catalog, maxDbSize, n, w.privileges[i])
  {
    CycleTable(w, catalog, maxDbSize, n);
    TableRows(w, catalog, maxDbSize, n);
  }

  /** A row of a database that none of the first n tenants has is not touched by their turns. */
  lemma {:induction false} RowAfterTurnsOtherDb(w: World, catalog: seq<CatalogRow>, maxDbSize: int, n: nat, row: PrivRow)
    requires n <= |w.tenants|
    requires forall j :: 0 <= j < n ==> row.db != w.tenants[j].name
    ensures RowAfterTurns(w, catalog, maxDbSize, n, row) == row
    decreases n
  {
    if n > 0 {
      RowAfterTurnsOtherDb(w, catalog, maxDbSize, n - 1, row);
    }
  }

  /** With distinct names, a row of the j-th tenant's database carries that tenant's action alone. */
  lemma {:induction false} RowAfterTurnsOwnTenant(w: World, catalog: seq<CatalogRow>, maxDbSize: int, n: nat, row: PrivRow, j: nat)
    requires n <= |w.tenants| && DistinctNames(w.tenants)
    requires j < n && row.db == w.tenants[j].name
    ensures RowAfterTurns(w, catalog, maxDbSize, n, row) == RowAfter(row, ActionFor(w, catalog, maxDbSize, j))
    decreases n
  {
    if j == n - 1 {
      RowAfterTurnsOtherDb(w, catalog, maxDbSize, n - 1, row);
    } else {
      assert row.db != w.tenants[n - 1].name;
      RowAfterTurnsOwnTenant(w, catalog, maxDbSize, n - 1, row, j);
    }
  }

  /**
   * What the first n turns do to the grant table: a row of the j-th tenant's
   * database gets exactly that tenant's action; a row of any other database
   * is untouched. Each tenant's rows depend on that tenant alone.
   */
  lemma CyclePrivileges(w: World, catalog: seq<CatalogRow>, maxDbSize: int, n: nat)
    requires n <= |w.tenants| && DistinctNames(w.tenants)
    ensures var r := Cycle(w, catalog, maxDbSize, n);
      && |r.privileges| == |w.privileges|
      && (forall i :: 0 <= i < |w.privileges| ==> r.privileges[i].db == w.privileges[i].db)
      && (forall i :: 0 <= i < |w.privileges| && (forall j :: 0 <= j < n ==> w.privileges[i].db != w.tenants[j].name)
            ==> r.privileges[i] == w.privileges[i])
      && (forall i, j :: 0 <= i < |w.privileges| && 0 <= j < n && w.privileges[i].db == w.tenants[j].name
            ==> r.privileges[i] == RowAfter(w.privileges[i], ActionFor(w, catalog, maxDbSize, j)))
  {
    CycleRows(w, catalog, maxDbSize, n);
    forall i | 0 <= i < |w.privileges| && (forall j :: 0 <= j < n ==> w.privileges[i].db != w.tenants[j].name)
      ensures RowAfterTurns(w, catalog, maxDbSize, n, w.privileges[i]) == w.privileges[i]
    {
      RowAfterTurnsOtherDb(w, catalog, maxDbSize, n, w.privileges[i]);
    }
    forall i, j | 0 <= i < |w.privileges| && 0 <= j < n && w.privileges[i].db == w.tenants[j].name
      ensures RowAfterTurns(w, catalog, maxDbSize, n, w.privileges[i]) == RowAfter(w.privileges[i], ActionFor(w, catalog, maxDbSize, j))
    {
      RowAfterTurnsOwnTenant(w, catalog, maxDbSize, n, w.privileges[i], j);
    }
  }

  /**
   * A full cycle keeps "flag <=> grant rows" for every tenant, provided it
   * held before: tenants that are acted on are brought into agreement, the
   * others keep their flag and their rows.
   */
  lemma CycleKeepsConsistency(w: World, catalog: seq<CatalogRow>, maxDbSize: int)
    requires DistinctNames(w.tenants)
    requires forall j :: 0 <= j < |w.tenants| ==> Consistent(w.tenants[j], w.privileges)
    ensures var r := Cycle(w, catalog, maxDbSize, |w.tenants|);
      forall j :: 0 <= j < |r.tenants| ==> Consistent(r.tenants[j], r.privileges)
  {
    var n := |w.tenants|;
    var r := Cycle(w, catalog, maxDbSize, n);
    CyclePrivileges(w, catalog, maxDbSize, n);
    CycleTenants(w, catalog, maxDbSize, n);
    forall j | 0 <= j < n
      ensures Consistent(r.tenants[j], r.privileges)
    {
      var a := ActionFor(w, catalog, maxDbSize, j);
      forall i | 0 <= i < |r.privileges| && r.privileges[i].db == r.tenants[j].name
        ensures HasFlags(r.privileges[i], if r.tenants[j].quotaExceeded then N else Y)
      {
        assert r.privileges[i] == RowAfter(w.privileges[i], a);
        if a == Keep {
          assert HasFlags(w.privileges[i], if w.tenants[j].quotaExceeded then N else Y);
        }
      }
    }
  }

  /**
   * Without any assumption on the prior state, every tenant the cycle revokes
   * or grants ends with grant rows that agree with its flag.
   */
  lemma ActedTenantsConsistent(w: World, catalog: seq<CatalogRow>, maxDbSize: int, j: nat)
    requires DistinctNames(w.tenants) && j < |w.tenants|
    requires ActionFor(w, catalog, maxDbSize, j) != Keep
    ensures var r := Cycle(w, catalog, maxDbSize, |w.tenants|);
      Consistent(r.tenants[j], r.privileges)
  {
    var r := Cycle(w, catalog, maxDbSize, |w.tenants|);
    CyclePrivileges(w, catalog, maxDbSize, |w.tenants|);
    CycleTenants(w, catalog, maxDbSize, |w.tenants|);
    forall i | 0 <= i < |r.privileges| && r.privileges[i].db == r.tenants[j].name
      ensures HasFlags(r.privileges[i], if r.tenants[j].quotaExceeded then N else Y)
    {
      assert r.privileges[i] == RowAfter(w.privileges[i], ActionFor(w, catalog, maxDbSize, j));
    }
  }

  /**
   * A tenant whose rows drifted away from its flag while its state stays put
   * is not repaired: an OK tenant below the limit with a grant row whose
   * three flags are N still has that row, and so still disagrees with its
   * flag, after a full cycle.
   */
  lemma DriftSurvivesCycle(w: World, catalog: seq<CatalogRow>, maxDbSize: int, j: nat, i: nat)
    requires DistinctNames(w.tenants) && j < |w.tenants|
    requires !w.tenants[j].quotaExceeded && TotalSize(catalog, w.tenants[j].name) < maxDbSize
    requires i < |w.privileges| && w.privileges[i].db == w.tenants[j].name && HasFlags(w.privileges[i], N)
    ensures var r := Cycle(w, catalog, maxDbSize, |w.tenants|);
      r.privileges[i] == w.privileges[i] && !Consistent(r.tenants[j], r.privileges)
  {
    var r := Cycle(w, catalog, maxDbSize, |w.tenants|);
    CyclePrivileges(w, catalog, maxDbSize, |w.tenants|);
    CycleTenants(w, catalog, maxDbSize, |w.tenants|);
    assert ActionFor(w, catalog, maxDbSize, j) == Keep;
    assert r.privileges[i] == w.privileges[i];
    assert r.privileges[i].db == r.tenants[j].name && !HasFlags(r.privileges[i], Y);
  }

  /** Some tenant revoked in the first n turns has the session's (user, db) pair. */
  predicate KilledBy(w: World, catalog: seq<CatalogRow>, maxDbSize: int, n: nat, p: Process)
    requires n <= |w.tenants|
  {
    exists j :: 0 <= j < n && ActionFor(w, catalog, maxDbSize, j) == Revoke
                && Targets(p, w.tenants[j].user, w.tenants[j].name)
  }

  lemma KilledByStep(w: World, catalog: seq<CatalogRow>, maxDbSize: int, n: nat, p: Process)
    requires 0 < n <= |w.tenants|
    ensures KilledBy(w, catalog, maxDbSize, n, p) <==>
            KilledBy(w, catalog, maxDbSize, n - 1, p)
            || (ActionFor(w, catalog, maxDbSize, n - 1) == Revoke && Targets(p, w.tenants[n - 1].user, w.tenants[n - 1].name))
  {
    if KilledBy(w, catalog, maxDbSize, n, p) {
      var j :| 0 <= j < n && ActionFor(w, catalog, maxDbSize, j) == Revoke
               && Targets(p, w.tenants[j].user, w.tenants[j].name);
      if j < n - 1 {
        assert KilledBy(w, catalog, maxDbSize, n - 1, p);
      }
    }
  }

  /** One turn kills exactly the sessions of a revoked tenant's pair. */
  lemma ProcessTenantSessions(w: World, catalog: seq<CatalogRow>, maxDbSize: int, k: nat)
    requires k < |w.tenants|
    ensures ProcessTenant(w, catalog, maxDbSize, k).sessions ==
            if ActionFor(w, catalog, maxDbSize, k) == Revoke
            then Survivors(w.sessions, w.tenants[k].user, w.tenants[k].name)
            else w.sessions
  {
  }

  /**
   * The sessions after the first n turns: exactly those whose (user, db) pair
   * is not that of a tenant revoked in those turns survive, unchanged.
   */
  lemma {:induction false} CycleSessions(w: World, catalog: seq<CatalogRow>, maxDbSize: int, n: nat)
    requires n <= |w.tenants|
    ensures var r := Cycle(w, catalog, maxDbSize, n);
      && (forall t :: t in r.sessions <==> t in w.sessions && !KilledBy(w, catalog, maxDbSize, n, w.sessions[t]))
      && (forall t :: t in r.sessions ==> r.sessions[t] == w.sessions[t])
    decreases n
  {
    if n > 0 {
      CycleSessions(w, catalog, maxDbSize, n - 1);
      CycleTenants(w, catalog, maxDbSize, n - 1);
      var prev := Cycle(w, catalog, maxDbSize, n - 1);
      assert prev.tenants[n - 1] == w.tenants[n - 1];
      ProcessTenantSessions(prev, catalog, maxDbSize, n - 1);
      forall t | t in w.sessions {
        KilledByStep(w, catalog, maxDbSize, n, w.sessions[t]);
      }
    }
  }

  /** The limit is inclusive: an OK tenant whose size equals the limit is revoked. */
  lemma RevokeAtLimit(w: World, catalog: seq<CatalogRow>, maxDbSize: int, k: nat)
    requires k < |w.tenants| && !w.tenants[k].quotaExceeded
    requires TotalSize(catalog, w.tenants[k].name) == maxDbSize
    ensures var r := ProcessTenant(w, catalog, maxDbSize, k);
      && r.tenants[k].quotaExceeded
      && (forall i :: 0 <= i < |r.privileges| && r.privileges[i].db == w.tenants[k].name ==> HasFlags(r.privileges[i], N))
      && (forall s :: s in r.sessions ==> !Targets(r.sessions[s], w.tenants[k].user, w.tenants[k].name))
  {
    var t := w.tenants[k];
    assert ProcessTenant(w, catalog, maxDbSize, k).privileges == SetWriteFlags(w.privileges, t.name, N);
  }

  /**
   * Granting twice: the table, the sessions and the store end as after one
   * grant; the second grant warns of inconsistent permissions exactly when
   * the database has grant rows (the first grant left them enabled).
   */
  lemma GrantTwice(w: World, db: string, k: nat)
    requires k < |w.tenants|
    ensures var once := GrantSpec(w, db, k);
            var twice := GrantSpec(once, db, k);
      && twice.privileges == once.privileges
      && twice.sessions == once.sessions
      && twice.tenants == once.tenants
      && twice.events == once.events
           + (if exists i :: 0 <= i < |w.privileges| && w.privileges[i].db == db then [PermissionsInconsistent] else [])
           + [PrivilegesFlushed]
  {
    SetWriteFlagsIdempotent(w.privileges, db, Y);
    GrantedIsEnabled(w.privileges, db);
  }

  /**
   * Revoking twice: the table, the sessions and the store end as after one
   * revoke; the second revoke always warns, because the first left the
   * database disabled.
   */
  lemma RevokeTwice(w: World, db: string, k: nat)
    requires k < |w.tenants|
    ensures var once := RevokeSpec(w, db, k);
            var twice := RevokeSpec(once, db, k);
      && twice.privileges == once.privileges
      && twice.sessions == once.sessions
      && twice.tenants == once.tenants
      && twice.events == once.events + [PermissionsInconsistent, PrivilegesFlushed]
  {
    SetWriteFlagsIdempotent(w.privileges, db, N);
    RevokedIsDisabled(w.privileges, db);
    SurvivorsIdempotent(w.sessions, w.tenants[k].user, db);
  }

  /**
   * The state left by a revoke or grant that an engine error cut short, from
   * state `p`: the store record is not yet written, the grant table holds
   * either the old rows or the rows after the single UPDATE, only sessions of
   * (`user`, `db`) may be gone (and only when the operation kills), and the
   * log has grown by at most the warning followed by the privilege reload:
   * no info line is logged for an operation cut short.
   */
  predicate Interrupted(p: World, r: World, db: string, user: string, f: Flag, kills: bool)
  {
    && r.tenants == p.tenants
    && (r.privileges == p.privileges || r.privileges == SetWriteFlags(p.privileges, db, f))
    && (if kills then
          && (forall t :: t in r.sessions ==> t in p.sessions && r.sessions[t] == p.sessions[t])
          && (forall t :: t in p.sessions && !Targets(p.sessions[t], user, db) ==> t in r.sessions)
        else r.sessions == p.sessions)
    && (|| r.events == p.events
        || r.events == p.events + [PermissionsInconsistent]
        || r.events == p.events + [PermissionsInconsistent] + [PrivilegesFlushed]
        || r.events == p.events + [PrivilegesFlushed])
  }

  /**
   * The state `partial` left by the k-th turn, started in state `p`, when an
   * engine error cut it short: untouched when the turn keeps (only its size
   * query can fail), otherwise a revoke or grant interrupted.
   */
  predicate TurnCutShort(p: World, catalog: seq<CatalogRow>, maxDbSize: int, k: nat, partial: World)
    requires k < |p.tenants|
  {
    var t := p.tenants[k];
    match ActionFor(p, catalog, maxDbSize, k)
    case Keep => partial == p
    case Revoke => Interrupted(p, partial, t.name, t.user, N, true)
    case Grant => Interrupted(p, partial, t.name, t.user, Y, false)
  }

  /**
   * The state `partial` of a cycle from `w` stopped by an engine error at
   * the k-th tenant: the first k turns are done and the k-th is cut short
   * (k = |tenants| only when the error came before any tenant of an empty
   * store).
   */
  predicate StoppedAt(w: World, catalog: seq<CatalogRow>, maxDbSize: int, k: nat, partial: World)
  {
    && k <= |w.tenants|
    && var p := Cycle(w, catalog, maxDbSize, k);
       if k == |w.tenants| then partial == p else TurnCutShort(p, catalog, maxDbSize, k, partial)
  }

  /** A cycle from `w` stopped at the k-th tenant, with the error logged last. */
  predicate AbortedAt(w: World, catalog: seq<CatalogRow>, maxDbSize: int, k: nat, r: World)
  {
    && |r.events| > 0 && r.events[|r.events| - 1] == EngineError
    && StoppedAt(w, catalog, maxDbSize, k, r.(events := r.events[..|r.events| - 1]))
  }

  /** Logging the engine error of a stopped cycle leaves it aborted there. */
  lemma StoppedCycleAborts(w: World, catalog: seq<CatalogRow>, maxDbSize: int, k: nat, partial: World)
    requires StoppedAt(w, catalog, maxDbSize, k, partial)
    ensures AbortedAt(w, catalog, maxDbSize, k, partial.(events := partial.events + [EngineError]))
  {
    var r := partial.(events := partial.events + [EngineError]);
    assert r.events[..|r.events| - 1] == partial.events;
    assert r.(events := r.events[..|r.events| - 1]) == partial;
  }

  /**
   * An aborted cycle keeps the decisions already made for the tenants before
   * the k-th and leaves the k-th and every later tenant's record as it was.
   */
  lemma AbortKeepsPrefix(w: World, catalog: seq<CatalogRow>, maxDbSize: int, k: nat, r: World)
    requires AbortedAt(w, catalog, maxDbSize, k, r)
    ensures |r.tenants| == |w.tenants|
    ensures forall j :: 0 <= j < k ==>
              r.tenants[j] == w.tenants[j].(quotaExceeded := TotalSize(catalog, w.tenants[j].name) >= maxDbSize)
    ensures forall j :: k <= j < |w.tenants| ==> r.tenants[j] == w.tenants[j]
  {
    var p := Cycle(w, catalog, maxDbSize, k);
    CycleTenants(w, catalog, maxDbSize, k);
    assert r.tenants == p.tenants;
  }

}
