/** The `products` table as the store keeps it: rows in ascending primary-key
    order (the order of a table scan), keys assigned by the store, and the
    three changes the application makes to it. */
module Table {
  import opened Records

  /** Primary keys strictly ascend along the table, so no two rows share one. */
  predicate IdsAscending(rows: seq<Product>)
  {
    forall i, j :: 0 <= i < j < |rows| ==> rows[i].id < rows[j].id
  }

  predicate HasId(rows: seq<Product>, id: int)
  {
    exists i :: 0 <= i < |rows| && rows[i].id == id
  }

  /** What every state of the table satisfies: unique positive keys, and every
      row saved through the form (a name, a non-negative quantity and price). */
  predicate TableInvariant(rows: seq<Product>)
  {
    IdsAscending(rows) &&
    forall i :: 0 <= i < |rows| ==> rows[i].id >= 1 && WellFormed(rows[i])
  }

  lemma AscendingIdsAreDistinct(rows: seq<Product>, i: int, j: int)
    requires IdsAscending(rows)
    requires 0 <= i < |rows| && 0 <= j < |rows| && i != j
    ensures rows[i].id != rows[j].id
  {
  }

  /** The largest key in a non-empty table. */
  function MaxId(rows: seq<Product>): (m: int)
    requires rows != []
    ensures forall i :: 0 <= i < |rows| ==> rows[i].id <= m
    ensures HasId(rows, m)
  {
    if |rows| == 1 then rows[0].id
    else
      var rest := MaxId(rows[1..]);
      assert forall i :: 1 <= i < |rows| ==> rows[i] == rows[1..][i - 1];
      if rows[0].id >= rest then rows[0].id else rest
  }

  /** The key the store gives a new row: one more than the largest key present,
      or 1 for an empty table. A key freed by deleting the largest row can be
      handed out again. */
  function NextRowId(rows: seq<Product>): (id: int)
    ensures rows == [] ==> id == 1
    ensures forall i :: 0 <= i < |rows| ==> rows[i].id < id
    ensures !HasId(rows, id)
  {
    if rows == [] then 1 else MaxId(rows) + 1
  }

  /** The add branch: one new row at the end carrying the form's values, the
      store's fresh key and the creation stamp. */
  function Append(rows: seq<Product>, f: Form, addedAt: int): (r: seq<Product>)
    ensures |r| == |rows| + 1 && r[..|rows|] == rows
    ensures r[|rows|] == FromForm(NextRowId(rows), f, addedAt)
  {
    rows + [FromForm(NextRowId(rows), f, addedAt)]
  }

  /** The edit branch: the row at position `k` takes the form's four values in place. */
  function Edit(rows: seq<Product>, k: nat, f: Form): (r: seq<Product>)
    requires k < |rows|
    ensures |r| == |rows|
    ensures forall i :: 0 <= i < |rows| && i != k ==> r[i] == rows[i]
    ensures r[k] == WithForm(rows[k], f)
  {
    rows[k := WithForm(rows[k], f)]
  }

  /** The rows a `WHERE` condition keeps, in table order. */
  function Where(rows: seq<Product>, keep: Product -> bool): (r: seq<Product>)
    ensures |r| <= |rows|
    ensures forall p :: p in r <==> p in rows && keep(p)
  {
    if rows == [] then []
    else if keep(rows[0]) then [rows[0]] + Where(rows[1..], keep)
    else Where(rows[1..], keep)
  }

  /** A condition keeps the surviving keys in ascending order. */
  lemma {:induction false} WhereAscending(rows: seq<Product>, keep: Product -> bool)
    ensures IdsAscending(rows) ==> IdsAscending(Where(rows, keep))
  {
    if rows != [] && IdsAscending(rows) {
      WhereAscending(rows[1..], keep);
      var rest := Where(rows[1..], keep);
      if keep(rows[0]) {
        forall j | 0 <= j < |rest| ensures rows[0].id < rest[j].id {
          assert rest[j] in rows[1..];
        }
      }
    }
  }

  /** A condition every row meets keeps the table as it is. */
  lemma {:induction false} WhereAllKept(rows: seq<Product>, keep: Product -> bool)
    requires forall i :: 0 <= i < |rows| ==> keep(rows[i])
    ensures Where(rows, keep) == rows
  {
    if rows != [] {
      assert keep(rows[0]);
      WhereAllKept(rows[1..], keep);
    }
  }

  /** A condition keeps a sub-multiset of the table. */
  lemma {:induction false} WhereSubMultiset(rows: seq<Product>, keep: Product -> bool)
    ensures multiset(Where(rows, keep)) <= multiset(rows)
  {
    if rows != [] {
      WhereSubMultiset(rows[1..], keep);
      assert rows == [rows[0]] + rows[1..];
    }
  }

  /** Filtering a table with one more row at the end filters the rest the
      same way and then keeps or drops that row. */
  lemma {:induction false} WhereSnoc(rows: seq<Product>, p: Product, keep: Product -> bool)
    ensures Where(rows + [p], keep) == Where(rows, keep) + if keep(p) then [p] else []
  {
    if rows != [] {
      assert (rows + [p])[1..] == rows[1..] + [p];
      WhereSnoc(rows[1..], p, keep);
    }
  }

  /** The condition `id != key`. */
  function OtherKey(key: int): Product -> bool
  {
    (p: Product) => p.id != key
  }

  /** `DELETE ... WHERE id = ?`: every row with that key goes, the others keep their order. */
  function RemoveId(rows: seq<Product>, id: int): (r: seq<Product>)
    ensures forall p :: p in r <==> p in rows && p.id != id
    ensures !HasId(r, id)
    ensures IdsAscending(rows) ==> IdsAscending(r)
  {
    WhereAscending(rows, OtherKey(id));
    Where(rows, OtherKey(id))
  }

  /** Adding keeps the invariant when the form had a name and kept its bounds;
      the new key differs from every existing one. */
  lemma AppendKeepsInvariant(rows: seq<Product>, f: Form, addedAt: int)
    requires TableInvariant(rows)
    requires f.name != "" && InBounds(f)
    ensures TableInvariant(Append(rows, f, addedAt))
    ensures HasId(Append(rows, f, addedAt), NextRowId(rows)) && !HasId(rows, NextRowId(rows))
  {
    var r := Append(rows, f, addedAt);
    assert r[|rows|].id == NextRowId(rows);
    forall i | 0 <= i < |rows| ensures r[i] == rows[i] {
      assert r[..|rows|][i] == r[i];
    }
  }

  /** Editing keeps the invariant (keys are not touched) when the form had a
      name and kept its bounds. */
  lemma EditKeepsInvariant(rows: seq<Product>, k: nat, f: Form)
    requires TableInvariant(rows) && k < |rows|
    requires f.name != "" && InBounds(f)
    ensures TableInvariant(Edit(rows, k, f))
  {
  }

  /** Deleting keeps the invariant: the remaining keys still ascend and every
      remaining row was a well-formed row before. */
  lemma RemoveKeepsInvariant(rows: seq<Product>, id: int)
    requires TableInvariant(rows)
    ensures TableInvariant(RemoveId(rows, id))
  {
    var r := RemoveId(rows, id);
    forall i | 0 <= i < |r| ensures r[i].id >= 1 && WellFormed(r[i]) {
      assert r[i] in rows;
    }
  }

  /** In a table with unique keys, deleting a key that is present removes exactly one row. */
  lemma {:induction false} RemoveOneRow(rows: seq<Product>, id: int)
    requires IdsAscending(rows) && HasId(rows, id)
    ensures |RemoveId(rows, id)| == |rows| - 1
  {
    if rows[0].id == id {
      RemoveAbsent(rows[1..], id);
    } else {
      var i :| 0 <= i < |rows| && rows[i].id == id;
      assert rows[1..][i - 1].id == id;
      RemoveOneRow(rows[1..], id);
    }
  }

  /** Deleting a key that is not present changes nothing. */
  lemma RemoveAbsent(rows: seq<Product>, id: int)
    requires !HasId(rows, id)
    ensures RemoveId(rows, id) == rows
  {
    WhereAllKept(rows, OtherKey(id));
  }

  /** Deleting the same key twice is the same as deleting it once. */
  lemma RemoveTwice(rows: seq<Product>, id: int)
    ensures RemoveId(RemoveId(rows, id), id) == RemoveId(rows, id)
  {
    RemoveAbsent(RemoveId(rows, id), id);
  }

  /** Keys are not reserved once used: deleting the row just added gives the
      table back, and the next add receives the very same key again. */
  lemma KeyReusedAfterDelete(rows: seq<Product>, f: Form, addedAt: int)
    ensures RemoveId(Append(rows, f, addedAt), NextRowId(rows)) == rows
    ensures NextRowId(RemoveId(Append(rows, f, addedAt), NextRowId(rows))) == NextRowId(rows)
  {
    var id := NextRowId(rows);
    WhereSnoc(rows, FromForm(id, f, addedAt), OtherKey(id));
    RemoveAbsent(rows, id);
  }
}
