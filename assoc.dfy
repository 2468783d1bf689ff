/** Building a key/value map from an ordered list of rows, where each row either
    contributes one assignment or is skipped, and a later assignment to a key
    overwrites an earlier one.  This is what `Object.fromEntries` does with the
    filtered header rows in the browser, and what the Go helper does when it
    fills its form map and when it sets the custom headers. */
module Assoc {
  import opened Wrappers

  /** Applies the assignments contributed by `rows`, in order, to an empty map. */
  function Assign<T, K, V>(rows: seq<T>, entry: T -> Option<(K, V)>): (m: map<K, V>)
    decreases |rows|
  {
    if rows == [] then map[]
    else
      var last := rows[|rows| - 1];
      var m0 := Assign(rows[..|rows| - 1], entry);
      match entry(last)
      case Some(kv) => m0[kv.0 := kv.1]
      case None => m0
  }

  /** Row `j` assigns key `k`. */
  ghost predicate Assigns<T, K, V>(rows: seq<T>, entry: T -> Option<(K, V)>, j: int, k: K)
  {
    0 <= j < |rows| && entry(rows[j]).Some? && entry(rows[j]).value.0 == k
  }

  /** Row `j` is the last row that assigns its key. */
  ghost predicate LastAssignment<T, K, V>(rows: seq<T>, entry: T -> Option<(K, V)>, j: int)
  {
    0 <= j < |rows| && entry(rows[j]).Some? &&
    forall j' :: j < j' < |rows| ==> !Assigns(rows, entry, j', entry(rows[j]).value.0)
  }

  /** A key is in the map exactly when some row assigns it. */
  lemma {:induction false} AssignKeys<T, K, V>(rows: seq<T>, entry: T -> Option<(K, V)>, k: K)
    ensures k in Assign(rows, entry) <==> exists j :: Assigns(rows, entry, j, k)
    decreases |rows|
  {
    if rows != [] {
      var n := |rows| - 1;
      var front := rows[..n];
      assert rows[|rows| - 1] == rows[n];
      AssignKeys(front, entry, k);
      assert forall j :: Assigns(front, entry, j, k) ==> Assigns(rows, entry, j, k);
      assert forall j :: Assigns(rows, entry, j, k) && j < n ==> Assigns(front, entry, j, k);
      if Assigns(rows, entry, n, k) {
        assert Assign(rows, entry) == Assign(front, entry)[k := entry(rows[n]).value.1];
      } else if entry(rows[n]).Some? {
        assert Assign(rows, entry) == Assign(front, entry)[entry(rows[n]).value.0 := entry(rows[n]).value.1];
      } else {
        assert Assign(rows, entry) == Assign(front, entry);
      }
    }
  }

  /** The value of a key is the one written by the last row that assigns it. */
  lemma {:induction false} AssignLastWins<T, K, V>(rows: seq<T>, entry: T -> Option<(K, V)>, j: int)
    requires LastAssignment(rows, entry, j)
    ensures entry(rows[j]).value.0 in Assign(rows, entry)
    ensures Assign(rows, entry)[entry(rows[j]).value.0] == entry(rows[j]).value.1
    decreases |rows|
  {
    var n := |rows| - 1;
    if j < n {
      var front := rows[..n];
      assert !Assigns(rows, entry, n, entry(rows[j]).value.0);
      forall j' | j < j' < |front|
        ensures !Assigns(front, entry, j', entry(front[j]).value.0)
      {
        assert !Assigns(rows, entry, j', entry(rows[j]).value.0);
      }
      AssignLastWins(front, entry, j);
    }
  }
}
