/** An in-memory stand-in for the record store the handlers reach through
    their database client: a table is a sequence of rows in insertion order,
    and each query or delete names the column it filters on by a key function. */
module Store {

  datatype Option<T> = None | Some(value: T)

  /** Every row has a different key: the property that makes a lookup by
      that column deterministic. */
  ghost predicate Unique<T, K>(rows: seq<T>, key: T -> K)
  {
    forall i, j :: 0 <= i < j < |rows| ==> key(rows[i]) != key(rows[j])
  }

  /** findFirst with an equality filter: the first row whose key is k. */
  function Find<T, K(==)>(rows: seq<T>, key: T -> K, k: K): (r: Option<T>)
    ensures r.Some? ==> r.value in rows && key(r.value) == k
    ensures r.None? <==> forall i :: 0 <= i < |rows| ==> key(rows[i]) != k
  {
    if |rows| == 0 then None
    else if key(rows[0]) == k then Some(rows[0])
    else Find(rows[1..], key, k)
  }

  /** deleteMany with an equality filter: every row whose key is k goes,
      the others stay in their order. */
  function Remove<T, K(==)>(rows: seq<T>, key: T -> K, k: K): (r: seq<T>)
    ensures |r| <= |rows|
    ensures forall i :: 0 <= i < |r| ==> r[i] in rows && key(r[i]) != k
    ensures forall i :: 0 <= i < |rows| && key(rows[i]) != k ==> rows[i] in r
  {
    if |rows| == 0 then []
    else if key(rows[0]) == k then Remove(rows[1..], key, k)
    else [rows[0]] + Remove(rows[1..], key, k)
  }

  /** The rows whose key is k, in order: a specification helper for saying
      which rows a write keeps, removes or adds. */
  function Select<T, K(==)>(rows: seq<T>, key: T -> K, k: K): (r: seq<T>)
    ensures |r| <= |rows|
    ensures forall i :: 0 <= i < |r| ==> r[i] in rows && key(r[i]) == k
    ensures forall i :: 0 <= i < |rows| && key(rows[i]) == k ==> rows[i] in r
  {
    if |rows| == 0 then []
    else if key(rows[0]) == k then [rows[0]] + Select(rows[1..], key, k)
    else Select(rows[1..], key, k)
  }

  /** Deleting by one column keeps any other column unique. */
  lemma {:induction false} RemoveKeepsUnique<T, K, L>(rows: seq<T>, key: T -> K, k: K, other: T -> L)
    requires Unique(rows, other)
    ensures Unique(Remove(rows, key, k), other)
  {
    if |rows| > 0 {
      var rest := Remove(rows[1..], key, k);
      assert Unique(rows[1..], other);
      RemoveKeepsUnique(rows[1..], key, k, other);
      if key(rows[0]) != k {
        var r := [rows[0]] + rest;
        forall i, j | 0 <= i < j < |r| ensures other(r[i]) != other(r[j]) {
          if i == 0 {
            assert r[j] in rows[1..];
            var j' :| 0 <= j' < |rows[1..]| && rows[1..][j'] == r[j];
            assert rows[j' + 1] == r[j];
          } else {
            assert r[i] == rest[i - 1] && r[j] == rest[j - 1];
          }
        }
      }
    }
  }

  /** On a unique column, findFirst returns THE row with that key. */
  lemma {:induction false} FindUnique<T, K>(rows: seq<T>, key: T -> K, x: T)
    requires Unique(rows, key)
    requires x in rows
    ensures Find(rows, key, key(x)) == Some(x)
  {
    if rows[0] != x {
      assert Unique(rows[1..], key);
      assert x in rows[1..];
      var j :| 0 <= j < |rows| && rows[j] == x;
      assert key(rows[0]) != key(rows[j]);
      FindUnique(rows[1..], key, x);
    }
  }

  /** Deleting a key no row has changes nothing. */
  lemma {:induction false} RemoveAbsent<T, K>(rows: seq<T>, key: T -> K, k: K)
    requires Find(rows, key, k).None?
    ensures Remove(rows, key, k) == rows
  {
    if |rows| > 0 {
      RemoveAbsent(rows[1..], key, k);
      assert [rows[0]] + rows[1..] == rows;
    }
  }

  /** On a unique column, deleting a present key removes exactly one row. */
  lemma {:induction false} RemoveOne<T, K>(rows: seq<T>, key: T -> K, k: K)
    requires Unique(rows, key)
    requires Find(rows, key, k).Some?
    ensures |Remove(rows, key, k)| == |rows| - 1
  {
    assert Unique(rows[1..], key);
    if key(rows[0]) == k {
      RemoveAbsent(rows[1..], key, k);
    } else {
      RemoveOne(rows[1..], key, k);
    }
  }

  /** Deleting one key leaves the rows of every other key as they were, in order. */
  lemma {:induction false} SelectAfterRemove<T, K>(rows: seq<T>, key: T -> K, k: K, k': K)
    requires k' != k
    ensures Select(Remove(rows, key, k), key, k') == Select(rows, key, k')
  {
    if |rows| > 0 {
      SelectAfterRemove(rows[1..], key, k, k');
      if key(rows[0]) != k {
        assert ([rows[0]] + Remove(rows[1..], key, k))[1..] == Remove(rows[1..], key, k);
      }
    }
  }

  /** After deleting a key, no row with that key is left. */
  lemma {:induction false} SelectRemoved<T, K>(rows: seq<T>, key: T -> K, k: K)
    ensures Select(Remove(rows, key, k), key, k) == []
  {
    if |rows| > 0 {
      SelectRemoved(rows[1..], key, k);
      if key(rows[0]) != k {
        assert ([rows[0]] + Remove(rows[1..], key, k))[1..] == Remove(rows[1..], key, k);
      }
    }
  }

  /** Inserting a row adds it to the end of the rows of its own key only. */
  lemma {:induction false} SelectAppend<T, K>(rows: seq<T>, key: T -> K, k: K, x: T)
    ensures Select(rows + [x], key, k) == Select(rows, key, k) + (if key(x) == k then [x] else [])
  {
    if |rows| == 0 {
      assert rows + [x] == [x];
    } else {
      assert (rows + [x])[1..] == rows[1..] + [x];
      SelectAppend(rows[1..], key, k, x);
    }
  }

  /** findFirst after an insert: an earlier row with the key still wins,
      otherwise the new row is found when it carries the key. */
  lemma {:induction false} FindAppend<T, K>(rows: seq<T>, key: T -> K, k: K, x: T)
    ensures Find(rows + [x], key, k) ==
      (if Find(rows, key, k).Some? then Find(rows, key, k) else if key(x) == k then Some(x) else None)
  {
    if |rows| == 0 {
      assert rows + [x] == [x];
    } else {
      assert (rows + [x])[1..] == rows[1..] + [x];
      FindAppend(rows[1..], key, k, x);
    }
  }

  /** Deleting one key does not change what a lookup of another key finds. */
  lemma {:induction false} FindAfterRemove<T, K>(rows: seq<T>, key: T -> K, k: K, k': K)
    requires k' != k
    ensures Find(Remove(rows, key, k), key, k') == Find(rows, key, k')
  {
    if |rows| > 0 {
      FindAfterRemove(rows[1..], key, k, k');
      if key(rows[0]) != k {
        assert ([rows[0]] + Remove(rows[1..], key, k))[1..] == Remove(rows[1..], key, k);
      }
    }
  }

  /** Inserting a row whose key is new keeps the column unique. */
  lemma AppendKeepsUnique<T, K>(rows: seq<T>, key: T -> K, x: T)
    requires Unique(rows, key)
    requires Find(rows, key, key(x)).None?
    ensures Unique(rows + [x], key)
  {
    forall i, j | 0 <= i < j < |rows + [x]| ensures key((rows + [x])[i]) != key((rows + [x])[j]) {
      if j == |rows| {
        assert key(rows[i]) != key(x);
      }
    }
  }
}

/** What a handler answers. The constructors stand for the kinds of HTTP
    response the handlers send: 200, 400 for a duplicate or an invalid
    submission, 404, 500, and no response at all when the handler's promise
    rejects outside any try/catch. */
module Reply {

  datatype Outcome<T> =
    | Ok(message: string, value: T)
    | Duplicate(message: string)
    | Invalid(message: string)
    | NotFound(message: string)
    | ServerError(message: string)
    | NoResponse
}
