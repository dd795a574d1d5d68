/**
 * The storage-quota enforcer of the MySQL service node: the node's view of the
 * engine (catalogue, database list, grant table, process list), the tenant
 * store, the log, and the operations `db_size`, `dbs_size`,
 * `kill_user_sessions`, `grant_write_access`, `revoke_write_access` and
 * `enforce_storage_quota`, each proved against the reference definitions of
 * QuotaPolicy.
 */
module StorageQuota {

  import opened Wrappers
  import opened SizeInspector
  import opened PrivilegeTable
  import opened SessionList
  import opened QuotaPolicy

  /** The most engine calls a cycle over `turns` tenants makes, at most `perTurn` per tenant. */
  function CallBudget(turns: nat, perTurn: nat): nat
  {
    if turns == 0 then 0 else CallBudget(turns - 1, perTurn) + perTurn
  }

  /** The budget is `perTurn` calls for each turn. */
  lemma {:induction false} CallBudgetIs(turns: nat, perTurn: nat)
    ensures CallBudget(turns, perTurn) == turns * perTurn
  {
    if turns > 0 {
      CallBudgetIs(turns - 1, perTurn);
    }
  }

  /** A budget for fewer turns is no larger. */
  lemma {:induction false} CallBudgetMonotone(fewer: nat, turns: nat, perTurn: nat)
    requires fewer <= turns
    ensures CallBudget(fewer, perTurn) <= CallBudget(turns, perTurn)
    decreases turns
  {
    if fewer < turns {
      CallBudgetMonotone(fewer, turns - 1, perTurn);
    }
  }

  /** A set has at least as many elements as any of its subsets. */
  lemma {:induction false} SubsetCard<T>(a: set<T>, b: set<T>)
    requires a <= b
    ensures |a| <= |b|
    decreases b
  {
    if a != {} {
      var x :| x in a;
      SubsetCard(a - {x}, b - {x});
    }
  }

  class Node {
    var catalog: seq<CatalogRow>      // information_schema.TABLES
    var schemata: seq<string>         // SHOW DATABASES
    var privileges: seq<PrivRow>      // mysql.db
    var sessions: map<nat, Process>   // the process list, by thread id
    var tenants: seq<Tenant>          // the provisioned-service store
    var events: seq<Event>            // logger lines and privilege reloads
    /** Engine failure: None, no call fails; Some(n), the first n calls succeed and every later one raises Mysql::Error. */
    const failAfter: Option<nat>
    /** The number of engine calls made so far. */
    var calls: nat
    const maxDbSize: int

    constructor (catalog: seq<CatalogRow>, schemata: seq<string>, privileges: seq<PrivRow>,
                 sessions: map<nat, Process>, tenants: seq<Tenant>, maxDbSize: int, failAfter: Option<nat>)
      ensures this.catalog == catalog && this.schemata == schemata && this.privileges == privileges
      ensures this.sessions == sessions && this.tenants == tenants && this.maxDbSize == maxDbSize
      ensures this.failAfter == failAfter && events == [] && calls == 0
    {
      this.catalog, this.schemata, this.privileges := catalog, schemata, privileges;
      this.sessions, this.tenants, this.maxDbSize := sessions, tenants, maxDbSize;
      this.failAfter, this.events, this.calls := failAfter, [], 0;
    }

    /** The part of the state QuotaPolicy speaks about. */
    ghost function Snapshot(): World
      reads this
    {
      World(privileges, sessions, tenants, events)
    }

    /** The engine call numbered `c`, counting from 0, raises Mysql::Error. */
    predicate FaultDue(c: int)
    {
      failAfter.Some? && failAfter.value <= c
    }

    /** One round trip to the engine; false when it raises Mysql::Error. */
    method EngineCall() returns (ok: bool)
      modifies this`calls
      ensures ok <==> !FaultDue(old(calls))
      ensures calls == old(calls) + 1
    {
      ok := !FaultDue(calls);
      calls := calls + 1;
    }

    /**
     * `db_size(db)`: the summed data and index length of the tables of `db`,
     * 0 when it has none. The size query may raise Mysql::Error, which
     * `db_size` does not rescue.
     */
    method DbSize(db: string) returns (ok: bool, size: nat)
      modifies this`calls
      ensures ok <==> !FaultDue(old(calls))
      ensures calls == old(calls) + 1
      ensures ok ==> size == TotalSize(catalog, db)
    {
      ok := EngineCall();
      if !ok {
        return ok, 0;
      }
      var rows := SizeQuery(catalog, db);
      size := 0;
      for i := 0 to |rows|
        invariant size == if i == 0 then 0 else TotalSize(catalog, db)
      {
        size := size + rows[i];
      }
    }

    /**
     * `dbs_size()`: a size for every database the engine lists and every
     * schema of the catalogue; a listed database without tables gets 0.
     * Either of its two queries may raise Mysql::Error, which `dbs_size` does
     * not rescue.
     */
    method DbsSize() returns (ok: bool, result: map<string, nat>)
      modifies this`calls
      ensures old(calls) < calls <= old(calls) + 2
      ensures failAfter == None ==> ok
      ensures !ok ==> FaultDue(calls - 1)
      ensures ok ==> forall x :: x in result <==> x in schemata || HasTables(catalog, x)
      ensures ok ==> forall x :: x in result ==> result[x] == TotalSize(catalog, x)
      ensures ok ==> forall x :: x in schemata && !HasTables(catalog, x) ==> x in result && result[x] == 0
      ensures ok && (forall x :: HasTables(catalog, x) ==> x in schemata) ==> result.Keys == set x | x in schemata
    {
      result := map[];
      ok := EngineCall();
      if !ok {
        return;
      }
      var dbs := schemata;
      ok := EngineCall();
      if !ok {
        return;
      }
      var sizes := AggregateQuery(catalog);
      result := map[];
      for i := 0 to |sizes|
        invariant forall x :: x in result <==> exists j :: 0 <= j < i && sizes[j].0 == x
        invariant forall x :: x in result ==> result[x] == TotalSize(catalog, x)
        invariant calls == old(calls) + 2
      {
        var (name, size) := sizes[i];
        result := result[name := size];
      }
      for i := 0 to |dbs|
        invariant forall x :: x in result <==> HasTables(catalog, x) || x in dbs[..i]
        invariant forall x :: x in result ==> result[x] == TotalSize(catalog, x)
        invariant calls == old(calls) + 2
      {
        if dbs[i] !in result {
          TotalSizeWithoutTables(catalog, dbs[i]);
          result := result[dbs[i] := 0];
        }
        assert dbs[..i + 1] == dbs[..i] + [dbs[i]];
      }
      assert dbs[..|dbs|] == dbs;
      forall x | x in schemata && !HasTables(catalog, x)
        ensures result[x] == 0
      {
        TotalSizeWithoutTables(catalog, x);
      }
    }

    /**
     * `kill_user_sessions(user, db)`: list the processes, then kill each
     * session of `user` whose current database is `db`. On success exactly
     * those sessions are gone; even when the engine fails midway, no other
     * session is touched.
     */
    method KillUserSessions(targetUser: string, targetDb: string) returns (ok: bool)
      modifies this`sessions, this`calls
      ensures old(calls) < calls <= old(calls) + 1 + |old(sessions)|
      ensures ok ==> sessions == Survivors(old(sessions), targetUser, targetDb)
      ensures forall t :: t in sessions ==> t in old(sessions) && sessions[t] == old(sessions)[t]
      ensures forall t :: t in old(sessions) && !Targets(old(sessions)[t], targetUser, targetDb) ==> t in sessions
      ensures failAfter == None ==> ok
      ensures !ok ==> FaultDue(calls - 1)
    {
      ok := EngineCall();
      if !ok {
        return;
      }
      var processes := sessions;
      var pending := processes.Keys;
      while pending != {}
        invariant pending <= processes.Keys && processes == old(sessions)
        invariant sessions == map t | t in processes && (t in pending || !Targets(processes[t], targetUser, targetDb)) :: processes[t]
        invariant ok && old(calls) < calls && calls + |pending| <= old(calls) + 1 + |processes|
        decreases pending
      {
        var tid :| tid in pending;
        if Targets(processes[tid], targetUser, targetDb) {
          ok := EngineCall();
          if !ok {
            return;
          }
          sessions := sessions - {tid};
        }
        pending := pending - {tid};
      }
    }

    /**
     * The steps `grant_write_access` and `revoke_write_access` share: ask
     * `access_disabled?(db)` and warn when the answer is `warnWhenDisabled`,
     * set the three write privileges of `db` to `f` with one UPDATE, reload
     * the privileges. An engine error may cut this short after the warning
     * or after the UPDATE.
     */
    method UpdateWriteFlags(db: string, f: Flag, warnWhenDisabled: bool) returns (ok: bool)
      modifies this`privileges, this`events, this`calls
      ensures ok ==> privileges == SetWriteFlags(old(privileges), db, f)
      ensures ok ==> events == old(events) + (if AccessDisabled(old(privileges), db) == warnWhenDisabled then [PermissionsInconsistent] else []) + [PrivilegesFlushed]
      ensures !ok ==> privileges == old(privileges) || privileges == SetWriteFlags(old(privileges), db, f)
      ensures !ok ==> events == old(events) || events == old(events) + [PermissionsInconsistent]
      ensures old(calls) < calls <= old(calls) + 3
      ensures failAfter == None ==> ok
      ensures !ok ==> FaultDue(calls - 1)
    {
      ok := EngineCall();
      if !ok {
        return;
      }
      if AccessDisabled(privileges, db) == warnWhenDisabled {
        events := events + [PermissionsInconsistent];
      }
      ok := EngineCall();
      if !ok {
        return;
      }
      privileges := SetWriteFlags(privileges, db, f);
      ok := EngineCall();
      if !ok {
        return;
      }
      events := events + [PrivilegesFlushed];
    }

    /**
     * `grant_write_access(db, service)` for the k-th record of the store:
     * warn unless `db` is disabled, set its three privileges to Y, reload the
     * privileges, clear the record's flag and save it.
     */
    method GrantWriteAccess(db: string, k: nat) returns (ok: bool)
      requires k < |tenants|
      modifies this
      ensures catalog == old(catalog) && schemata == old(schemata)
      ensures ok ==> Snapshot() == GrantSpec(old(Snapshot()), db, k)
      ensures !ok ==> Interrupted(old(Snapshot()), Snapshot(), db, old(tenants[k].user), Y, false) && FaultDue(calls - 1)
      ensures old(calls) < calls <= old(calls) + 3
      ensures failAfter == None ==> ok
    {
      ok := UpdateWriteFlags(db, Y, false);
      if !ok {
        return;
      }
      tenants := tenants[k := tenants[k].(quotaExceeded := false)];
    }

    /**
     * `revoke_write_access(db, service)` for the k-th record of the store:
     * warn if `db` is already disabled, set its three privileges to N, reload
     * the privileges, kill the sessions of the record's user on `db`, set the
     * record's flag and save it.
     */
    method RevokeWriteAccess(db: string, k: nat) returns (ok: bool)
      requires k < |tenants|
      modifies this
      ensures catalog == old(catalog) && schemata == old(schemata)
      ensures ok ==> Snapshot() == RevokeSpec(old(Snapshot()), db, k)
      ensures !ok ==> Interrupted(old(Snapshot()), Snapshot(), db, old(tenants[k].user), N, true) && FaultDue(calls - 1)
      ensures old(calls) < calls <= old(calls) + 4 + |old(sessions)|
      ensures sessions.Keys <= old(sessions).Keys
      ensures failAfter == None ==> ok
    {
      var user := tenants[k].user;
      ok := UpdateWriteFlags(db, N, true);
      if !ok {
        return;
      }
      ok := KillUserSessions(user, db);
      if !ok {
        return;
      }
      tenants := tenants[k := tenants[k].(quotaExceeded := true)];
    }

    /**
     * One pass of the loop of `enforce_storage_quota`, for the k-th record of
     * the store: measure its database, then revoke an OK tenant at or over
     * the limit and log it, or grant an over-quota tenant below it and log
     * it. Without engine error this is the turn of QuotaPolicy; an engine
     * error leaves the turn interrupted.
     */
    method EnforceTenant(k: nat) returns (ok: bool)
      requires k < |tenants|
      modifies this
      ensures catalog == old(catalog) && schemata == old(schemata)
      ensures ok ==> Snapshot() == ProcessTenant(old(Snapshot()), catalog, maxDbSize, k)
      ensures !ok ==> TurnCutShort(old(Snapshot()), catalog, maxDbSize, k, Snapshot())
      ensures old(calls) < calls <= old(calls) + 5 + |old(sessions)|
      ensures sessions.Keys <= old(sessions).Keys
      ensures failAfter == None ==> ok
      ensures !ok ==> FaultDue(calls - 1)
    {
      ghost var before := Snapshot();
      var name, user, quotaExceeded := tenants[k].name, tenants[k].user, tenants[k].quotaExceeded;
      var size;
      ok, size := DbSize(name);
      if !ok {
        return;
      }
      ProcessTenantCases(before, catalog, maxDbSize, k);
      if size >= maxDbSize && !quotaExceeded {
        ok := RevokeWriteAccess(name, k);
        if !ok {
          return;
        }
        events := events + [QuotaExceeded(user, name, size)];
      } else if size < maxDbSize && quotaExceeded {
        ok := GrantWriteAccess(name, k);
        if !ok {
          return;
        }
        events := events + [BelowQuota(user, name, size)];
      }
    }

    /**
     * The loop of `enforce_storage_quota` over `ProvisionedService.all`: one
     * turn per record, in store order (see EnforceTenant). Without engine
     * error the new state is the full cycle of QuotaPolicy; an engine error
     * stops the loop in the turn where it happened.
     */
    method VisitTenants() returns (ok: bool, ghost done: nat)
      modifies this
      ensures catalog == old(catalog) && schemata == old(schemata)
      ensures ok ==> done == |old(tenants)| && Snapshot() == Cycle(old(Snapshot()), catalog, maxDbSize, done)
      ensures !ok ==> done < |old(tenants)| && FaultDue(calls - 1)
      ensures !ok ==> TurnCutShort(Cycle(old(Snapshot()), catalog, maxDbSize, done), catalog, maxDbSize, done, Snapshot())
      ensures old(calls) <= calls <= old(calls) + |old(tenants)| * (5 + |old(sessions)|)
      ensures failAfter == None ==> ok
    {
      ghost var w := Snapshot();
      ghost var perTurn := 5 + |sessions|;
      var count := |tenants|;
      var i := 0;
      while i < count
        invariant i <= count == |w.tenants|
        invariant catalog == old(catalog) && schemata == old(schemata)
        invariant Snapshot() == Cycle(w, catalog, maxDbSize, i)
        invariant sessions.Keys <= old(sessions).Keys
        invariant old(calls) <= calls <= old(calls) + CallBudget(i, perTurn)
      {
        SubsetCard(sessions.Keys, old(sessions).Keys);
        ok := EnforceTenant(i);
        if !ok {
          CallBudgetMonotone(i + 1, count, perTurn);
          CallBudgetIs(count, perTurn);
          return ok, i;
        }
        i := i + 1;
      }
      CallBudgetIs(count, perTurn);
      return true, count;
    }

    /**
     * `enforce_storage_quota`: select the `mysql` database, then run the loop
     * over the tenants (see VisitTenants). An engine error anywhere ends the
     * cycle where it happened, keeps what was done, is logged and does not
     * propagate.
     */
    method EnforceStorageQuota() returns (ghost done: nat, ghost failed: bool)
      modifies this
      ensures catalog == old(catalog) && schemata == old(schemata)
      ensures !failed ==> done == |old(tenants)| && Snapshot() == Cycle(old(Snapshot()), catalog, maxDbSize, done)
      ensures failed ==> AbortedAt(old(Snapshot()), catalog, maxDbSize, done, Snapshot()) && FaultDue(calls - 1)
      ensures old(calls) < calls <= old(calls) + 1 + |old(tenants)| * (5 + |old(sessions)|)
      ensures failAfter == None ==> !failed
    {
      ghost var w := Snapshot();
      var ok := EngineCall();
      if ok {
        ok, done := VisitTenants();
      } else {
        assert Cycle(w, catalog, maxDbSize, 0) == w;
        done := 0;
      }
      if !ok {
        ghost var partial := Snapshot();
        StoppedCycleAborts(w, catalog, maxDbSize, done, partial);
        events := events + [EngineError];
        assert Snapshot() == partial.(events := partial.events + [EngineError]);
        return done, true;
      }
      return done, false;
    }
  }

}
