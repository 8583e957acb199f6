/** A SQLite table keyed by its integer primary key `id`, and the two
    statements the services issue against one row: `UPDATE ... WHERE id = ?`
    and `DELETE ... WHERE id = ?`. Each reports the cursor's `rowcount`, the
    number of rows its WHERE clause matched. */
module SqlTable {

  type Table<R> = map<int, R>

  /** The rows the clause `WHERE id = ?` selects. */
  function MatchingIds<R>(t: Table<R>, id: int): set<int>
  {
    set k | k in t && k == id
  }

  /** Because `id` is the primary key, `WHERE id = ?` matches at most one row. */
  lemma MatchingIdsAtMostOne<R>(t: Table<R>, id: int)
    ensures MatchingIds(t, id) == if id in t then {id} else {}
  {
  }

  /** `UPDATE t SET ... WHERE id = ?`, where `assign` computes the new row
      from the old. Only the matched row changes, and `rowcount` is zero
      exactly when no row has that id. */
  function UpdateWhereId<R>(t: Table<R>, id: int, assign: R -> R): (res: (Table<R>, nat))
    ensures res.1 <= 1
    ensures res.1 == 0 <==> id !in t
    ensures res.0 == if id in t then t[id := assign(t[id])] else t
  {
    var matched := MatchingIds(t, id);
    MatchingIdsAtMostOne(t, id);
    (map k | k in t :: if k in matched then assign(t[k]) else t[k], |matched|)
  }

  /** `DELETE FROM t WHERE id = ?`. The id is absent afterwards, every other
      row is kept, and `rowcount` is one exactly when the row existed. */
  function DeleteWhereId<R>(t: Table<R>, id: int): (res: (Table<R>, nat))
    ensures res.1 <= 1
    ensures res.1 == 0 <==> id !in t
    ensures res.0 == t - {id}
  {
    var matched := MatchingIds(t, id);
    MatchingIdsAtMostOne(t, id);
    (map k | k in t && k !in matched :: t[k], |matched|)
  }
}
