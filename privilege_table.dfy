/**
 * The engine's grant table `mysql.db` restricted to the three write-related
 * columns the quota enforcer reads (`access_disabled?`) and sets
 * (`grant_write_access`, `revoke_write_access`).
 */
module PrivilegeTable {

  /** Value of an enum('N','Y') privilege column. */
  datatype Flag = N | Y

  /** A row of mysql.db: the grant of `user`@`host` on database `db`. */
  datatype PrivRow = PrivRow(host: string, db: string, user: string,
                             insertPriv: Flag, createPriv: Flag, updatePriv: Flag)

  /** `right.include? 'Y'`: the row grants at least one of the three privileges. */
  predicate GrantsWrite(row: PrivRow)
  {
    row.insertPriv == Y || row.createPriv == Y || row.updatePriv == Y
  }

  /** All three privileges of the row are `f`. */
  predicate HasFlags(row: PrivRow, f: Flag)
  {
    row.insertPriv == f && row.createPriv == f && row.updatePriv == f
  }

  /** The row with its three privileges set to `f`, the key columns kept. */
  function WithFlags(row: PrivRow, f: Flag): PrivRow
  {
    row.(insertPriv := f, createPriv := f, updatePriv := f)
  }

  /** `SELECT insert_priv, create_priv, update_priv FROM db WHERE Db = db`, in table order. */
  function Rights(privileges: seq<PrivRow>, db: string): seq<PrivRow>
  {
    if privileges == [] then []
    else
      (if privileges[0].db == db then [privileges[0]] else []) + Rights(privileges[1..], db)
  }

  /** The rows `Rights` returns are exactly the table's rows of `db`. */
  lemma {:induction false} RightsMembers(privileges: seq<PrivRow>, db: string)
    ensures forall r :: r in Rights(privileges, db) <==> r in privileges && r.db == db
  {
    if privileges != [] {
      RightsMembers(privileges[1..], db);
      assert privileges == [privileges[0]] + privileges[1..];
    }
  }

  /**
   * The scan of `access_disabled?`: it answers false at the first row that
   * grants a privilege, and true when no row does, including when there is
   * no row at all.
   */
  function NoneGrantsWrite(rows: seq<PrivRow>): bool
  {
    if rows == [] then true
    else if GrantsWrite(rows[0]) then false
    else NoneGrantsWrite(rows[1..])
  }

  /** The scan answers true exactly when no row grants a privilege. */
  lemma {:induction false} NoneGrantsWriteIff(rows: seq<PrivRow>)
    ensures NoneGrantsWrite(rows) <==> forall i :: 0 <= i < |rows| ==> !GrantsWrite(rows[i])
  {
    if rows != [] && !GrantsWrite(rows[0]) {
      NoneGrantsWriteIff(rows[1..]);
      assert forall i :: 1 <= i < |rows| ==> rows[i] == rows[1..][i - 1];
    }
  }

  /** `access_disabled?(db)`: no grant row of `db` grants insert, create or update. */
  function AccessDisabled(privileges: seq<PrivRow>, db: string): (disabled: bool)
    ensures disabled <==> forall i :: 0 <= i < |privileges| && privileges[i].db == db ==> !GrantsWrite(privileges[i])
  {
    var rows := Rights(privileges, db);
    RightsMembers(privileges, db);
    NoneGrantsWriteIff(rows);
    assert forall i :: 0 <= i < |privileges| && privileges[i].db == db ==> privileges[i] in rows;
    assert forall j :: 0 <= j < |rows| ==> rows[j] in privileges && rows[j].db == db;
    NoneGrantsWrite(rows)
  }

  /** `UPDATE db SET insert_priv = f, create_priv = f, update_priv = f WHERE Db = db`. */
  function SetWriteFlags(privileges: seq<PrivRow>, db: string, f: Flag): (updated: seq<PrivRow>)
    ensures |updated| == |privileges|
    ensures forall i :: 0 <= i < |privileges| && privileges[i].db != db ==> updated[i] == privileges[i]
    ensures forall i :: 0 <= i < |privileges| && privileges[i].db == db ==>
              && HasFlags(updated[i], f)
              && updated[i].host == privileges[i].host && updated[i].db == db && updated[i].user == privileges[i].user
  {
    seq(|privileges|, i requires 0 <= i < |privileges| =>
      if privileges[i].db == db then WithFlags(privileges[i], f) else privileges[i])
  }

  /** Setting the flags of `db` twice to the same value gives the table of setting them once. */
  lemma SetWriteFlagsIdempotent(privileges: seq<PrivRow>, db: string, f: Flag)
    ensures SetWriteFlags(SetWriteFlags(privileges, db, f), db, f) == SetWriteFlags(privileges, db, f)
  {
    var once := SetWriteFlags(privileges, db, f);
    var twice := SetWriteFlags(once, db, f);
    assert forall i :: 0 <= i < |privileges| ==> twice[i] == once[i];
  }

  /** After a revoke, `access_disabled?` holds, whatever the table held before. */
  lemma RevokedIsDisabled(privileges: seq<PrivRow>, db: string)
    ensures AccessDisabled(SetWriteFlags(privileges, db, N), db)
  {
  }

  /** After a grant, `access_disabled?` holds exactly when the table has no row for `db`. */
  lemma GrantedIsEnabled(privileges: seq<PrivRow>, db: string)
    ensures AccessDisabled(SetWriteFlags(privileges, db, Y), db)
            <==> forall i :: 0 <= i < |privileges| ==> privileges[i].db != db
  {
    var granted := SetWriteFlags(privileges, db, Y);
    forall i | 0 <= i < |privileges| && privileges[i].db == db
      ensures !AccessDisabled(granted, db)
    {
      assert granted[i].db == db && GrantsWrite(granted[i]);
    }
  }

}
