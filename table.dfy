/**
 * A SQL table held in memory: rows in insertion order, each with its AUTO_INCREMENT key.
 * The functions are the statements the handlers issue: `SELECT ... WHERE id = ?`,
 * `SELECT ... WHERE <condition>`, `COUNT(*)`, `INSERT`, `UPDATE ... WHERE id = ?`,
 * `UPDATE ... SET col = f(col)`, `DELETE ... WHERE id = ?`.
 */
module Table {
  import opened Wrappers

  datatype Row<V> = Row(id: nat, value: V)

  /** The primary key is unique. */
  predicate KeysUnique<V(==, !new)>(t: seq<Row<V>>) {
    forall i, j :: 0 <= i < j < |t| ==> t[i].id != t[j].id
  }

  /** Every key is below the next AUTO_INCREMENT value. */
  predicate KeysBelow<V(==, !new)>(t: seq<Row<V>>, next: nat) {
    forall r :: r in t ==> r.id < next
  }

  /** A UNIQUE column: no two rows agree on `key`. */
  predicate UniqueBy<V(==, !new), K(==)>(t: seq<Row<V>>, key: V -> K) {
    forall i, j :: 0 <= i < j < |t| ==> key(t[i].value) != key(t[j].value)
  }

  /** `SELECT * FROM t WHERE id = ?`: the first row with that key, if any. */
  function Find<V(==, !new)>(t: seq<Row<V>>, id: int): (r: Option<V>)
    ensures r.Some? ==> id >= 0 && Row(id, r.value) in t
    ensures r.None? ==> forall row :: row in t ==> row.id != id
  {
    if t == [] then None
    else if t[0].id == id then Some(t[0].value)
    else Find(t[1..], id)
  }

  /** With a unique key, the row found is the one that carries the key. */
  lemma {:induction false} FindUnique<V(!new)>(t: seq<Row<V>>, i: nat)
    requires KeysUnique(t) && i < |t|
    ensures Find(t, t[i].id) == Some(t[i].value)
  {
    if i > 0 {
      assert t[0].id != t[i].id;
      assert KeysUnique(t[1..]) by {
        forall a, b | 0 <= a < b < |t[1..]| ensures t[1..][a].id != t[1..][b].id {
          assert t[1..][a] == t[a + 1] && t[1..][b] == t[b + 1];
        }
      }
      FindUnique(t[1..], i - 1);
    }
  }

  /** `SELECT * FROM t WHERE p`, in table order. */
  function Where<V(==, !new)>(t: seq<Row<V>>, p: Row<V> -> bool): (r: seq<Row<V>>)
    ensures |r| <= |t|
    ensures forall row :: row in r <==> row in t && p(row)
  {
    if t == [] then []
    else
      assert t == [t[0]] + t[1..];
      (if p(t[0]) then [t[0]] else []) + Where(t[1..], p)
  }

  /** `SELECT COUNT(*) FROM t WHERE p`. */
  function Count<V(==, !new)>(t: seq<Row<V>>, p: Row<V> -> bool): nat {
    |Where(t, p)|
  }

  lemma {:induction false} WhereAppend<V(!new)>(a: seq<Row<V>>, b: seq<Row<V>>, p: Row<V> -> bool)
    ensures Where(a + b, p) == Where(a, p) + Where(b, p)
  {
    if a == [] {
      assert a + b == b;
    } else {
      assert (a + b)[0] == a[0] && (a + b)[1..] == a[1..] + b;
      WhereAppend(a[1..], b, p);
    }
  }

  /** A count is zero exactly when no row meets the condition. */
  lemma CountZero<V(!new)>(t: seq<Row<V>>, p: Row<V> -> bool)
    ensures Count(t, p) == 0 <==> forall row :: row in t ==> !p(row)
  {
    var w := Where(t, p);
    if w != [] {
      assert w[0] in w;
    }
  }

  /** Counting after one row is replaced: the old row leaves the count and the new one enters it. */
  lemma CountReplace<V(!new)>(t: seq<Row<V>>, i: nat, x: Row<V>, p: Row<V> -> bool)
    requires i < |t|
    ensures Count(t[i := x], p) == Count(t, p) - (if p(t[i]) then 1 else 0) + (if p(x) then 1 else 0)
  {
    assert t == t[..i] + [t[i]] + t[i + 1..];
    assert t[i := x] == t[..i] + [x] + t[i + 1..];
    WhereAppend(t[..i] + [t[i]], t[i + 1..], p);
    WhereAppend(t[..i], [t[i]], p);
    WhereAppend(t[..i] + [x], t[i + 1..], p);
    WhereAppend(t[..i], [x], p);
  }

  /** Counting after one row is removed. */
  lemma CountRemove<V(!new)>(t: seq<Row<V>>, i: nat, p: Row<V> -> bool)
    requires i < |t|
    ensures Count(t[..i] + t[i + 1..], p) == Count(t, p) - (if p(t[i]) then 1 else 0)
  {
    assert t == t[..i] + [t[i]] + t[i + 1..];
    WhereAppend(t[..i] + [t[i]], t[i + 1..], p);
    WhereAppend(t[..i], [t[i]], p);
    WhereAppend(t[..i], t[i + 1..], p);
  }

  /** Counting after a row is appended. */
  lemma CountAppend<V(!new)>(t: seq<Row<V>>, x: Row<V>, p: Row<V> -> bool)
    ensures Count(t + [x], p) == Count(t, p) + (if p(x) then 1 else 0)
  {
    WhereAppend(t, [x], p);
  }

  /** `UPDATE t SET <columns> WHERE id = ?`. */
  function Update<V(==, !new)>(t: seq<Row<V>>, id: int, v: V): (r: seq<Row<V>>)
    ensures |r| == |t|
    ensures forall i :: 0 <= i < |t| ==> r[i].id == t[i].id
  {
    if t == [] then []
    else [if t[0].id == id then Row(t[0].id, v) else t[0]] + Update(t[1..], id, v)
  }

  /** With a unique key, the update changes exactly the row with that key and keeps the order. */
  lemma {:induction false} UpdateAt<V(!new)>(t: seq<Row<V>>, i: nat, v: V)
    requires KeysUnique(t) && i < |t|
    ensures Update(t, t[i].id, v) == t[i := Row(t[i].id, v)]
  {
    var r := Update(t, t[i].id, v);
    forall k | 0 <= k < |t|
      ensures r[k] == t[i := Row(t[i].id, v)][k]
    {
      UpdateIndex(t, t[i].id, v, k);
    }
  }

  lemma {:induction false} UpdateIndex<V(!new)>(t: seq<Row<V>>, id: int, v: V, k: nat)
    requires k < |t|
    ensures Update(t, id, v)[k] == if t[k].id == id then Row(t[k].id, v) else t[k]
  {
    if k > 0 {
      UpdateIndex(t[1..], id, v, k - 1);
    }
  }

  /** `UPDATE t SET <columns> = f(<columns>)` over every row. */
  function Map<V(==, !new)>(t: seq<Row<V>>, f: V -> V): (r: seq<Row<V>>)
    ensures |r| == |t|
    ensures forall i :: 0 <= i < |t| ==> r[i] == Row(t[i].id, f(t[i].value))
  {
    if t == [] then [] else [Row(t[0].id, f(t[0].value))] + Map(t[1..], f)
  }

  /** `DELETE FROM t WHERE id = ?`. */
  function Delete<V(==, !new)>(t: seq<Row<V>>, id: int): (r: seq<Row<V>>)
    ensures forall row :: row in r <==> row in t && row.id != id
  {
    if t == [] then []
    else
      assert t == [t[0]] + t[1..];
      (if t[0].id == id then [] else [t[0]]) + Delete(t[1..], id)
  }

  /** With a unique key, the delete removes exactly the row with that key and keeps the others in order. */
  lemma {:induction false} DeleteAt<V(!new)>(t: seq<Row<V>>, i: nat)
    requires KeysUnique(t) && i < |t|
    ensures Delete(t, t[i].id) == t[..i] + t[i + 1..]
  {
    var id := t[i].id;
    if i == 0 {
      DeleteFirst(t);
    } else {
      var tail := t[1..];
      assert t[0].id != id;
      KeysUniqueTail(t);
      assert tail[i - 1] == t[i];
      DeleteAt(tail, i - 1);
      DeleteKeepsHead(t, id);
      ConsAround(t, i);
    }
  }

  /** With a unique key, deleting the first row's key removes just that row. */
  lemma DeleteFirst<V(!new)>(t: seq<Row<V>>)
    requires KeysUnique(t) && t != []
    ensures Delete(t, t[0].id) == t[1..]
  {
    HeadKeyAbsent(t);
    DeleteAbsent(t[1..], t[0].id);
  }

  lemma ConsAround<V>(t: seq<Row<V>>, i: nat)
    requires 0 < i < |t|
    ensures [t[0]] + (t[1..][..i - 1] + t[1..][i..]) == t[..i] + t[i + 1..]
  {
    assert [t[0]] + t[1..][..i - 1] == t[..i];
    assert t[1..][i..] == t[i + 1..];
  }

  lemma HeadKeyAbsent<V(!new)>(t: seq<Row<V>>)
    requires KeysUnique(t) && t != []
    ensures forall row :: row in t[1..] ==> row.id != t[0].id
  {
    forall row | row in t[1..] ensures row.id != t[0].id {
      var k :| 0 <= k < |t[1..]| && t[1..][k] == row;
      assert t[k + 1] == row;
    }
  }

  lemma KeysUniqueTail<V(!new)>(t: seq<Row<V>>)
    requires KeysUnique(t) && t != []
    ensures KeysUnique(t[1..])
  {
    forall a, b | 0 <= a < b < |t[1..]| ensures t[1..][a].id != t[1..][b].id {
      assert t[1..][a] == t[a + 1] && t[1..][b] == t[b + 1];
    }
  }

  lemma DeleteKeepsHead<V(!new)>(t: seq<Row<V>>, id: int)
    requires t != [] && t[0].id != id
    ensures Delete(t, id) == [t[0]] + Delete(t[1..], id)
  {
  }

  /** Deleting a key no row carries leaves the table as it was. */
  lemma {:induction false} DeleteAbsent<V(!new)>(t: seq<Row<V>>, id: int)
    requires forall row :: row in t ==> row.id != id
    ensures Delete(t, id) == t
  {
    if t != [] {
      assert t[0] in t;
      assert forall row :: row in t[1..] ==> row in t;
      DeleteAbsent(t[1..], id);
      assert t == [t[0]] + t[1..];
    }
  }

  /** The key stays unique under removal of rows, keeping the rest in order. */
  lemma KeysUniqueRemove<V(!new)>(t: seq<Row<V>>, i: nat)
    requires KeysUnique(t) && i < |t|
    ensures KeysUnique(t[..i] + t[i + 1..])
  {
    var r := t[..i] + t[i + 1..];
    forall a, b | 0 <= a < b < |r| ensures r[a].id != r[b].id {
      var a' := if a < i then a else a + 1;
      var b' := if b < i then b else b + 1;
      assert r[a] == t[a'] && r[b] == t[b'];
    }
  }

  /** An `INSERT` takes the next AUTO_INCREMENT value as its key and advances it. */
  lemma InsertKeepsKeys<V(!new)>(t: seq<Row<V>>, next: nat, v: V)
    requires KeysUnique(t) && KeysBelow(t, next)
    ensures KeysUnique(t + [Row(next, v)]) && KeysBelow(t + [Row(next, v)], next + 1)
  {
    var r := t + [Row(next, v)];
    forall a, b | 0 <= a < b < |r| ensures r[a].id != r[b].id {
      assert r[a] == t[a];
      if b < |t| { assert r[b] == t[b]; } else { assert t[a] in t; }
    }
  }

  /** An `UPDATE ... WHERE id = ?` leaves every key where it was. */
  lemma UpdateKeepsKeys<V(!new)>(t: seq<Row<V>>, id: int, v: V, next: nat)
    requires KeysUnique(t) && KeysBelow(t, next)
    ensures KeysUnique(Update(t, id, v)) && KeysBelow(Update(t, id, v), next)
  {
    var r := Update(t, id, v);
    forall row | row in r ensures row.id < next {
      var k :| 0 <= k < |r| && r[k] == row;
      assert t[k] in t;
    }
  }

  /** A delete keeps every remaining key below the next id. */
  lemma DeleteKeepsBelow<V(!new)>(t: seq<Row<V>>, id: int, next: nat)
    requires KeysBelow(t, next)
    ensures KeysBelow(Delete(t, id), next)
  {
  }

  /** Deleting by key keeps the keys unique. */
  lemma DeleteKeepsKeysUnique<V(!new)>(t: seq<Row<V>>, id: int)
    requires KeysUnique(t)
    ensures KeysUnique(Delete(t, id))
  {
    if i :| 0 <= i < |t| && t[i].id == id {
      DeleteAt(t, i);
      KeysUniqueRemove(t, i);
    } else {
      DeleteAbsent(t, id);
    }
  }

  /** Deleting by key keeps the keys unique, and a column that was unique stays unique. */
  lemma DeleteKeepsUnique<V(!new), K>(t: seq<Row<V>>, id: int, key: V -> K)
    requires KeysUnique(t)
    ensures KeysUnique(Delete(t, id))
    ensures UniqueBy(t, key) ==> UniqueBy(Delete(t, id), key)
  {
    if i :| 0 <= i < |t| && t[i].id == id {
      DeleteAt(t, i);
      KeysUniqueRemove(t, i);
      if UniqueBy(t, key) {
        UniqueByRemove(t, i, key);
      }
    } else {
      DeleteAbsent(t, id);
    }
  }

  lemma UniqueByRemove<V(!new), K>(t: seq<Row<V>>, i: nat, key: V -> K)
    requires UniqueBy(t, key) && i < |t|
    ensures UniqueBy(t[..i] + t[i + 1..], key)
  {
    var r := t[..i] + t[i + 1..];
    forall a, b | 0 <= a < b < |r| ensures key(r[a].value) != key(r[b].value) {
      var a' := if a < i then a else a + 1;
      var b' := if b < i then b else b + 1;
      assert r[a] == t[a'] && r[b] == t[b'];
    }
  }

  /** Appending a row whose key column value no row has keeps that column unique. */
  lemma InsertKeepsUniqueBy<V(!new), K>(t: seq<Row<V>>, x: Row<V>, key: V -> K)
    requires UniqueBy(t, key) && forall row :: row in t ==> key(row.value) != key(x.value)
    ensures UniqueBy(t + [x], key)
  {
    var r := t + [x];
    forall a, b | 0 <= a < b < |r| ensures key(r[a].value) != key(r[b].value) {
      assert r[a] == t[a] && t[a] in t;
    }
  }

  /** Updating one row keeps a column unique when its new value is its old one or one no other row has. */
  lemma UpdateKeepsUniqueBy<V(!new), K>(t: seq<Row<V>>, i: nat, v: V, key: V -> K)
    requires KeysUnique(t) && UniqueBy(t, key) && i < |t|
    requires key(v) == key(t[i].value) || forall row :: row in t && row.id != t[i].id ==> key(row.value) != key(v)
    ensures UniqueBy(Update(t, t[i].id, v), key)
  {
    UpdateAt(t, i, v);
    var r := t[i := Row(t[i].id, v)];
    forall a, b | 0 <= a < b < |r| ensures key(r[a].value) != key(r[b].value) {
      if a == i {
        NewValueDiffers(t, i, v, key, b);
      } else if b == i {
        NewValueDiffers(t, i, v, key, a);
      } else {
        assert r[a] == t[a] && r[b] == t[b];
      }
    }
  }

  lemma NewValueDiffers<V(!new), K>(t: seq<Row<V>>, i: nat, v: V, key: V -> K, j: nat)
    requires KeysUnique(t) && UniqueBy(t, key) && i < |t| && j < |t| && j != i
    requires key(v) == key(t[i].value) || forall row :: row in t && row.id != t[i].id ==> key(row.value) != key(v)
    ensures key(v) != key(t[j].value)
  {
    if key(v) == key(t[i].value) {
      if i < j {
        assert key(t[i].value) != key(t[j].value);
      } else {
        assert key(t[j].value) != key(t[i].value);
      }
    } else {
      assert t[j] in t;
      if i < j {
        assert t[i].id != t[j].id;
      } else {
        assert t[j].id != t[i].id;
      }
    }
  }

  /** Counting over a mapped table is counting the original rows whose image meets the condition. */
  lemma {:induction false} CountMap<V(!new)>(t: seq<Row<V>>, f: V -> V, p: Row<V> -> bool, q: Row<V> -> bool)
    requires forall row :: row in t ==> (p(Row(row.id, f(row.value))) <==> q(row))
    ensures Count(Map(t, f), p) == Count(t, q)
  {
    if t != [] {
      assert t[0] in t;
      assert forall row :: row in t[1..] ==> row in t;
      CountMap(t[1..], f, p, q);
      assert Map(t, f) == [Row(t[0].id, f(t[0].value))] + Map(t[1..], f);
      assert Where(Map(t, f), p) == (if p(Map(t, f)[0]) then [Map(t, f)[0]] else []) + Where(Map(t[1..], f), p);
    }
  }

  /** An `UPDATE` over every row leaves every key where it was. */
  lemma MapKeepsKeys<V(!new)>(t: seq<Row<V>>, f: V -> V, next: nat)
    requires KeysUnique(t) && KeysBelow(t, next)
    ensures KeysUnique(Map(t, f)) && KeysBelow(Map(t, f), next)
  {
    var r := Map(t, f);
    forall row | row in r ensures row.id < next {
      var k :| 0 <= k < |r| && r[k] == row;
      assert t[k] in t;
    }
  }

  /** Counting under a condition that is one of two exclusive ones adds their counts. */
  lemma {:induction false} CountEither<V(!new)>(t: seq<Row<V>>, p: Row<V> -> bool, q: Row<V> -> bool, either: Row<V> -> bool)
    requires forall row :: row in t ==> (either(row) <==> p(row) || q(row)) && !(p(row) && q(row))
    ensures Count(t, either) == Count(t, p) + Count(t, q)
  {
    if t != [] {
      assert t[0] in t;
      assert forall row :: row in t[1..] ==> row in t;
      CountEither(t[1..], p, q, either);
    }
  }
}
