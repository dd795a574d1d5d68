# Storage-quota enforcement of the MySQL service node, modelled in Dafny

This project models the storage-quota enforcer of the MySQL service node
(`mysql/lib/mysql_service/storage_quota.rb`). For each provisioned tenant
database it measures the on-disk size, compares it with the configured
`@max_db_size`, and toggles the tenant's write privileges: it revokes them
when the quota is reached and restores them once usage is below the limit.
Revocation also kills the tenant's live sessions on that database.

The database engine and the tenant store are replaced by an abstract in-memory
state, held by the class `StorageQuota.Node`:

- `catalog`: the rows of information_schema.TABLES as (schema, table, data length, index length);
- `schemata`: the database list of SHOW DATABASES;
- `privileges`: the rows of the grant table `mysql.db`, with `insert_priv`, `create_priv` and `update_priv` as N/Y flags;
- `sessions`: the process list, keyed by thread id;
- `tenants`: the provisioned-service store, with records (name, user, quota_exceeded);
- `events`: logger lines and privilege reloads;
- `calls`: the number of engine round trips made so far. Each goes through `EngineCall`.
- `failAfter`: an injected engine failure. `None` means no call fails. `Some(n)` means the first n calls succeed and every later one raises `Mysql::Error`.

Files and modules:

- `size_inspector.dfy` (`SizeInspector`): what the two size queries return.
- `privilege_table.dfy` (`PrivilegeTable`): the `access_disabled?` scan and the UPDATE on `mysql.db`.
- `session_list.dfy` (`SessionList`): which sessions survive a kill.
- `quota_policy.dfy` (`QuotaPolicy`): the reference definition of the transition table, of one grant, one revoke, one tenant's turn and a whole cycle, over a `World` value. It also holds the lemmas about a cycle.
- `storage_quota.dfy` (`StorageQuota`): the class `Node`. Its methods follow the Ruby methods step by step. Without an engine error, each is proved equal to its reference definition. After an engine error, each is proved to stay within a stated envelope (`Interrupted` for a grant or revoke, `TurnCutShort` for a turn, `AbortedAt` for a cycle): the store record is not yet saved, the grant rows are either the old ones or the updated ones, only the revoked pair's sessions may be gone, and the log has grown by nothing, by the warning, by the warning and then the privilege reload, or by the reload alone. A turn that keeps is left untouched. Each method also bounds the engine calls it makes, and reports an error only when the last call it made was one the injected fault makes fail. The loop of `enforce_storage_quota` is the method `VisitTenants`, and its body is `EnforceTenant`, called once per record. The steps that `grant_write_access` and `revoke_write_access` share (warn, UPDATE, reload) are the method `UpdateWriteFlags`.
- `wrappers.dfy`: `Option`.

Behaviour of the code worth noting:

- The invariant "`quota_exceeded` holds exactly when all three flags are N" is not re-established for a tenant whose state does not change. If such a tenant's rows have drifted, a cycle leaves them drifted (`DriftSurvivesCycle`). What holds is that a cycle preserves the invariant when it held before (`CycleKeepsConsistency`). Every tenant that a cycle revokes or grants satisfies it afterwards (`ActedTenantsConsistent`).
- A second grant in a row does log the "permissions inconsistent" warning whenever the database has grant rows, because the first grant left access enabled. A second revoke always logs it (`GrantTwice`, `RevokeTwice`).
- The keys of `dbs_size` are the listed databases together with every schema of the size aggregate, not the listed databases alone. The two sets coincide when every catalogued schema is listed (`DbsSize`).
- The lemmas about a whole cycle (`CyclePrivileges`, `CycleKeepsConsistency`, `ActedTenantsConsistent`, `DriftSurvivesCycle`) assume that no two tenants share a database name (`DistinctNames`). This holds for the service: each provisioned service owns its own database, whose name is the record's `name`. The lemmas use the hypothesis to attribute every grant row to a single tenant.
- Only `Mysql::Error` is rescued. A failure of the tenant store's `save` is not rescued by the cycle.

## Model

| member | source | states |
|---|---|---|
| SizeInspector.TotalSizeWithoutTables | mysql/lib/mysql_service/storage_quota.rb:12-18 | a schema with no table in the catalogue measures 0 |
| SizeInspector.Schemas | mysql/lib/mysql_service/storage_quota.rb:26-29 | the GROUP BY groups: each schema that has a table, exactly once |
| SizeInspector.AggregateQuery | mysql/lib/mysql_service/storage_quota.rb:25-29 | the aggregate query has one row per schema with tables and none for other schemas; each row's size is that schema's summed data and index length |
| SizeInspector.SizeQuery | mysql/lib/mysql_service/storage_quota.rb:12-15 | the per-schema size query returns at most one row, none exactly when the schema has no table; a returned row is the schema's summed size, and with no row that size is 0 |
| StorageQuota.Node.DbSize | mysql/lib/mysql_service/storage_quota.rb:10-19 | `db_size` is the sum of data and index length over the tables of the schema, and 0 when the query returns no row; it makes one engine call, and raises exactly when that call is one the fault makes fail |
| StorageQuota.Node.DbsSize | mysql/lib/mysql_service/storage_quota.rb:21-37 | without engine error: every listed database is a key; a listed database without tables maps to 0; every key maps to its schema's summed size; the keys are exactly the listed databases when every catalogued schema is listed. It makes at most two engine calls and raises only when the last is one the fault makes fail, never without a fault |
| PrivilegeTable.RightsMembers | mysql/lib/mysql_service/storage_quota.rb:51-52 | the privilege query returns exactly the rows whose Db is the database |
| PrivilegeTable.NoneGrantsWriteIff | mysql/lib/mysql_service/storage_quota.rb:53-58 | the early-return scan answers true iff no returned row contains 'Y', and so true on no rows |
| PrivilegeTable.AccessDisabled | mysql/lib/mysql_service/storage_quota.rb:50-59 | `access_disabled?(db)` is true exactly when no grant row of db grants insert, create or update |
| PrivilegeTable.SetWriteFlags | mysql/lib/mysql_service/storage_quota.rb:63-64 | after the UPDATE every row of db has all three flags equal to the new value and keeps its host, db and user; every other row is unchanged |
| PrivilegeTable.SetWriteFlagsIdempotent | mysql/lib/mysql_service/storage_quota.rb:73-74 | issuing the same UPDATE twice gives the table of issuing it once |
| PrivilegeTable.RevokedIsDisabled | mysql/lib/mysql_service/storage_quota.rb:72-74 | after the revoking UPDATE, `access_disabled?` holds |
| PrivilegeTable.GrantedIsEnabled | mysql/lib/mysql_service/storage_quota.rb:62-64 | after the granting UPDATE, `access_disabled?` holds exactly when the database has no grant row |
| SessionList.SurvivorsIdempotent | mysql/lib/mysql_service/storage_quota.rb:40-47 | killing a pair's sessions a second time kills nothing more |
| SessionList.SurvivorsExample | mysql/lib/mysql_service/storage_quota.rb:42-46 | of (1,a,x), (2,a,y), (3,b,x), killing (a,x) leaves exactly 2 and 3 |
| SessionList.Survivors | mysql/lib/mysql_service/storage_quota.rb:40-47 | after a kill, a session remains exactly when it is not of the (user, db) pair, and remaining sessions are unchanged |
| StorageQuota.Node.KillUserSessions | mysql/lib/mysql_service/storage_quota.rb:40-48 | on success exactly the sessions with user and db both matching are gone; even on an engine error midway, no other session is removed or changed; no match is no error. It makes at most one call plus one per listed session, and raises only when the last is one the fault makes fail |
| StorageQuota.Node.EngineCall | mysql/lib/mysql_service/storage_quota.rb:101-103 | an engine round trip is counted, and fails exactly when the injected fault makes the call of that number fail |
| QuotaPolicy.GrantSpec | mysql/lib/mysql_service/storage_quota.rb:61-68 | a grant clears the record's flag, kills no session, leaves db disabled exactly when it has no grant row, and logs the privilege reload last |
| QuotaPolicy.RevokeSpec | mysql/lib/mysql_service/storage_quota.rb:70-79 | a revoke sets the record's flag, leaves db disabled, removes exactly the sessions of the record's user on db, and logs the privilege reload last |
| QuotaPolicy.Decide | mysql/lib/mysql_service/storage_quota.rb:91-99 | revoke only an OK tenant, grant only an over-quota one; whatever the prior state, the flag afterwards is `size >= max_db_size` |
| QuotaPolicy.ProcessTenant | mysql/lib/mysql_service/storage_quota.rb:88-99 | a tenant's turn changes only that tenant's record, whose flag becomes `size >= max_db_size` |
| QuotaPolicy.ProcessTenantCases | mysql/lib/mysql_service/storage_quota.rb:91-99 | an OK tenant at or over the limit is revoked and then logged as over quota; an over-quota tenant below it is granted and then logged as below quota; any other tenant leaves the whole state unchanged |
| QuotaPolicy.Cycle | mysql/lib/mysql_service/storage_quota.rb:87-100 | the first n turns in store order keep the number of records and of grant rows |
| QuotaPolicy.CycleTenants | mysql/lib/mysql_service/storage_quota.rb:87-100 | after the first n turns each of those tenants has flag `size >= max_db_size` and name and user unchanged; later tenants are untouched |
| QuotaPolicy.ProcessTenantRows | mysql/lib/mysql_service/storage_quota.rb:91-96 | a turn sets the rows of the tenant's own database to N on revoke and Y on grant, and touches no other row |
| QuotaPolicy.CyclePrivileges | mysql/lib/mysql_service/storage_quota.rb:87-100 | after a cycle each row of a tenant's database carries that tenant's own action; rows of other databases are unchanged |
| QuotaPolicy.CycleKeepsConsistency | mysql/lib/mysql_service/storage_quota.rb:85-100 | a full cycle preserves "flag true iff the rows are all N, false iff all Y" for every tenant |
| QuotaPolicy.ActedTenantsConsistent | mysql/lib/mysql_service/storage_quota.rb:91-98 | every tenant a cycle revokes or grants ends with rows that agree with its flag |
| QuotaPolicy.DriftSurvivesCycle | mysql/lib/mysql_service/storage_quota.rb:91-99 | an OK tenant below the limit keeps a grant row whose flags are all N through a full cycle, and so stays inconsistent with its flag |
| QuotaPolicy.CycleSessions | mysql/lib/mysql_service/storage_quota.rb:87-100 | after a cycle a session survives, unchanged, exactly when its (user, db) is not that of a revoked tenant |
| QuotaPolicy.RevokeAtLimit | mysql/lib/mysql_service/storage_quota.rb:91-92 | the limit is inclusive: an OK tenant of size exactly the limit ends over quota, with its rows N and its sessions gone |
| QuotaPolicy.GrantTwice | mysql/lib/mysql_service/storage_quota.rb:61-68 | a second grant leaves the table, sessions and store as one grant did and warns exactly when the database has rows |
| QuotaPolicy.RevokeTwice | mysql/lib/mysql_service/storage_quota.rb:70-79 | a second revoke leaves the table, sessions and store as one revoke did and always warns |
| QuotaPolicy.Interrupted | mysql/lib/mysql_service/storage_quota.rb:61-79 | the state a grant or revoke cut short by an engine error may leave: record unsaved, rows old or updated, only the pair's sessions gone and only for a revoke, the log grown by nothing, the warning, the warning then the privilege reload, or the reload alone (no info line) |
| QuotaPolicy.TurnCutShort | mysql/lib/mysql_service/storage_quota.rb:89-99 | a turn cut short by an engine error: untouched when the tenant's action is to keep (only its size query ran), an interrupted revoke or an interrupted grant otherwise |
| QuotaPolicy.StoppedAt | mysql/lib/mysql_service/storage_quota.rb:86-100 | a cycle stopped at tenant k: the first k turns done and turn k cut short |
| QuotaPolicy.AbortedAt | mysql/lib/mysql_service/storage_quota.rb:86-103 | a cycle stopped at tenant k, with the error logged last |
| QuotaPolicy.StoppedCycleAborts | mysql/lib/mysql_service/storage_quota.rb:101-103 | logging the engine error of a cycle stopped at a tenant leaves the cycle aborted at that tenant |
| QuotaPolicy.AbortKeepsPrefix | mysql/lib/mysql_service/storage_quota.rb:87-103 | an aborted cycle keeps the decisions made for earlier tenants and leaves the current and later records as they were |
| StorageQuota.Node.UpdateWriteFlags | mysql/lib/mysql_service/storage_quota.rb:72-75 | the steps grant and revoke share: on success the rows of db carry the new flags and the log has grown by the warning (when the answer of `access_disabled?` is the one warned about) and the reload; an error leaves the rows old or updated and the log grown by at most the warning; at most three engine calls |
| StorageQuota.Node.GrantWriteAccess | mysql/lib/mysql_service/storage_quota.rb:61-68 | warn unless disabled, flags Y, reload, flag cleared and saved; an engine error leaves the record unsaved and the rows old or updated; at most three engine calls, and an error only when the last is one the fault makes fail |
| StorageQuota.Node.RevokeWriteAccess | mysql/lib/mysql_service/storage_quota.rb:70-79 | warn if disabled, flags N, reload, the user's sessions on db killed, flag set and saved; an engine error leaves the record unsaved and kills nothing else; no session is added; at most four calls plus one per session, and an error only when the last is one the fault makes fail |
| StorageQuota.Node.EnforceTenant | mysql/lib/mysql_service/storage_quota.rb:88-99 | one pass of the loop: without engine error it is the tenant's turn; on an engine error the turn is cut short, and a turn that keeps is left untouched; no session is added; at most five calls plus one per session, and an error only when the last is one the fault makes fail |
| StorageQuota.Node.VisitTenants | mysql/lib/mysql_service/storage_quota.rb:87-100 | the loop over the store: without engine error the new state is the full cycle; on an engine error it stops at that tenant with earlier turns done and that turn cut short; at most five calls plus one per session for each tenant |
| StorageQuota.Node.EnforceStorageQuota | mysql/lib/mysql_service/storage_quota.rb:85-104 | without engine error the new state is the full cycle; on an engine error the cycle stops at that tenant, keeps earlier changes, logs the error and returns normally; at most one call plus, per tenant, five plus one per session, and an abort only when the last call is one the fault makes fail |

## Left out

- The MySQL connection: SQL text, string interpolation, `select_db('mysql')`, `list_processes` and `KILL CONNECTION` are operations on the abstract state. Each of them, and each query of `db_size`, `dbs_size`, `access_disabled?` and the two UPDATEs, makes one round trip through `EngineCall`, which counts it and may raise. Each method bounds the calls it makes rather than stating their exact number, so within that bound the model does not fix which call raised.
- `FLUSH PRIVILEGES` is recorded only as a `PrivilegesFlushed` event. The engine's privilege cache is not modelled.
- `ProvisionedService.all` and `service.save` are the `tenants` sequence and an update of one record. `save` never fails in the model.
- `.to_i` on result strings and NULL sums: sizes are naturals.
- `fmt_db_listing` and the logger's text: the info events carry the (user, db, size) that the listing shows. The error event does not carry the error number, the message or the backtrace.
- StorageQuota.Node.KillUserSessions: visits the process list in an arbitrary order rather than the engine's list order. The result does not depend on the order; after an error midway, which matching sessions were already killed does.
- StorageQuota.Node.DbsSize: the first loop, which copies column 0 of SHOW DATABASES into a list, is folded into reading `schemata`.
- Process-list and grant-table columns other than those read here (host aside) are not modelled. `DATA_LENGTH_FIELD` is unused by the code.
- The scheduler that triggers cycles, and overlapping cycles, which the code does not handle.
