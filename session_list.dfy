/**
 * The engine's process list as `kill_user_sessions` sees it: sessions keyed
 * by thread id, each with its login and its current database.
 */
module SessionList {

  import opened Wrappers

  /** A process-list row: login, client host and current database (none when no database is selected). */
  datatype Process = Process(user: string, host: string, db: Option<string>)

  /** The session belongs to `user` and has `db` as its current database. */
  predicate Targets(p: Process, user: string, db: string)
  {
    p.user == user && p.db == Some(db)
  }

  /** The sessions left after every session of (`user`, `db`) has been killed. */
  function Survivors(sessions: map<nat, Process>, user: string, db: string): (left: map<nat, Process>)
    ensures forall t :: t in left <==> t in sessions && !Targets(sessions[t], user, db)
    ensures forall t :: t in left ==> left[t] == sessions[t]
  {
    sessions - (set t | t in sessions && Targets(sessions[t], user, db))
  }

  /** Killing the sessions of a pair a second time kills nothing more. */
  lemma SurvivorsIdempotent(sessions: map<nat, Process>, user: string, db: string)
    ensures Survivors(Survivors(sessions, user, db), user, db) == Survivors(sessions, user, db)
  {
  }

  /**
   * Of the sessions (1, a, x), (2, a, y) and (3, b, x), killing those of
   * (a, x) leaves 2 and 3: the same login on another database and another
   * login on the same database survive.
   */
  lemma SurvivorsExample()
    ensures var s := map[1 := Process("a", "h", Some("x")),
                         2 := Process("a", "h", Some("y")),
                         3 := Process("b", "h", Some("x"))];
            Survivors(s, "a", "x") == map[2 := s[2], 3 := s[3]]
  {
    var s := map[1 := Process("a", "h", Some("x")),
                 2 := Process("a", "h", Some("y")),
                 3 := Process("b", "h", Some("x"))];
    assert Targets(s[1], "a", "x");
    assert !Targets(s[2], "a", "x") && !Targets(s[3], "a", "x");
    assert Survivors(s, "a", "x").Keys == {2, 3};
  }

}
