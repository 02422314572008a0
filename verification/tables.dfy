/** A PostgreSQL table with a `serial` primary key, as a finite map from id to
    row plus the next value of the id sequence. */
module Tables {
  import opened Wrappers

  /** Bounds of PostgreSQL's `integer` type, which also bounds a `serial` sequence. */
  const MinInt4: int := -2147483648
  const MaxInt4: int := 2147483647

  predicate IsInt4(x: int) {
    MinInt4 <= x <= MaxInt4
  }

  /** A row together with its primary key, as a query returns it. */
  datatype Row<R> = Row(id: int, data: R)

  datatype Table<R> = Table(rows: map<int, R>, next: int) {

    /** Every id was handed out by the sequence, which starts at 1 and
        stops after the largest `integer`. */
    ghost predicate Valid() {
      && 1 <= next <= MaxInt4 + 1
      && forall k :: k in rows ==> 1 <= k < next
    }

    function Get(id: int): Option<R> {
      if id in rows then Some(rows[id]) else None
    }

    /** `nextval` still has a value to hand out, and no row already holds
        it (that would be a duplicate key). */
    predicate CanInsert() {
      next <= MaxInt4 && next !in rows
    }

    /** The row takes the next id of the sequence. */
    function Insert(r: R): Table<R> {
      Table(rows[next := r], next + 1)
    }

    /** `UPDATE ... WHERE id = $id`: overwrites the row if there is one. */
    function Put(id: int, r: R): Table<R> {
      if id in rows then Table(rows[id := r], next) else this
    }

    /** `DELETE ... WHERE id IN ids`. */
    function Delete(ids: set<int>): Table<R> {
      Table(rows - ids, next)
    }
  }

  /** The sequence of `t` can still hand out `n` ids. */
  predicate HasRoom<R>(t: Table<R>, n: nat) {
    t.next + n <= MaxInt4 + 1
  }

  function Empty<R>(): Table<R> {
    Table(map[], 1)
  }

  /** The rows whose ids lie in [lo, hi), in ascending id order. */
  function Scan<R>(rows: map<int, R>, lo: int, hi: int): (r: seq<Row<R>>)
    decreases hi - lo
  {
    if hi <= lo then []
    else if lo in rows then [Row(lo, rows[lo])] + Scan(rows, lo + 1, hi)
    else Scan(rows, lo + 1, hi)
  }

  /** A sequential scan of the table. PostgreSQL promises no order without
      ORDER BY; ascending id order is the one this model fixes. */
  function Rows<R>(t: Table<R>): seq<Row<R>> {
    Scan(t.rows, 1, t.next)
  }

  /** The rows of `rs` whose data satisfies `p`, in the same order. */
  function Where<R>(rs: seq<Row<R>>, p: R -> bool): (r: seq<Row<R>>)
    ensures |r| <= |rs|
    ensures forall i :: 0 <= i < |r| ==> r[i] in rs && p(r[i].data)
    ensures forall i :: 0 <= i < |rs| && p(rs[i].data) ==> rs[i] in r
  {
    if rs == [] then []
    else if p(rs[0].data) then [rs[0]] + Where(rs[1..], p)
    else Where(rs[1..], p)
  }

  /** `rs` numbered with consecutive ids starting at `from`. */
  function Numbered<R>(from: int, rs: seq<R>): (r: seq<Row<R>>)
    ensures |r| == |rs|
    ensures forall i :: 0 <= i < |rs| ==> r[i] == Row(from + i, rs[i])
    decreases |rs|
  {
    if rs == [] then [] else [Row(from, rs[0])] + Numbered(from + 1, rs[1..])
  }

  /** The table after inserting `rs` one after the other. */
  function InsertAll<R>(t: Table<R>, rs: seq<R>): Table<R>
    decreases |rs|
  {
    if rs == [] then t else InsertAll(t.Insert(rs[0]), rs[1..])
  }

  /** The `f` column of the rows, in the same order. */
  function Project<R, X>(rs: seq<Row<R>>, f: R -> X): (r: seq<X>)
    ensures |r| == |rs|
    ensures forall i :: 0 <= i < |rs| ==> r[i] == f(rs[i].data)
  {
    seq(|rs|, i requires 0 <= i < |rs| => f(rs[i].data))
  }

  /** A left join's view of a row: the row with that id, or NULL. */
  function Lookup<R>(t: Table<R>, id: int): (r: Option<Row<R>>)
    ensures r.Some? <==> id in t.rows
    ensures r.Some? ==> r.value == Row(id, t.rows[id])
  {
    if id in t.rows then Some(Row(id, t.rows[id])) else None
  }

  // ================================================================ lemmas

  /** Every scanned row is a row of the map, with an id in [lo, hi). */
  lemma {:induction false} ScanAt<R>(rows: map<int, R>, lo: int, hi: int, i: int)
    requires 0 <= i < |Scan(rows, lo, hi)|
    ensures lo <= Scan(rows, lo, hi)[i].id < hi
    ensures Scan(rows, lo, hi)[i].id in rows && rows[Scan(rows, lo, hi)[i].id] == Scan(rows, lo, hi)[i].data
    decreases hi - lo
  {
    if lo in rows {
      if i > 0 {
        ScanAt(rows, lo + 1, hi, i - 1);
      }
    } else {
      ScanAt(rows, lo + 1, hi, i);
    }
  }

  /** A scan lists ids in strictly ascending order. */
  lemma {:induction false} ScanAscending<R>(rows: map<int, R>, lo: int, hi: int, i: int, j: int)
    requires 0 <= i < j < |Scan(rows, lo, hi)|
    ensures Scan(rows, lo, hi)[i].id < Scan(rows, lo, hi)[j].id
    decreases hi - lo
  {
    if lo in rows {
      if i == 0 {
        ScanAt(rows, lo + 1, hi, j - 1);
      } else {
        ScanAscending(rows, lo + 1, hi, i - 1, j - 1);
      }
    } else {
      ScanAscending(rows, lo + 1, hi, i, j);
    }
  }

  /** A scan misses no row with an id in [lo, hi). */
  lemma {:induction false} ScanHas<R>(rows: map<int, R>, lo: int, hi: int, k: int)
    requires lo <= k < hi && k in rows
    ensures Row(k, rows[k]) in Scan(rows, lo, hi)
    decreases hi - lo
  {
    if k > lo {
      ScanHas(rows, lo + 1, hi, k);
    }
  }

  /** The rows of a table scan are exactly the table's rows, in ascending id order. */
  lemma RowsExact<R>(t: Table<R>)
    ensures forall i :: 0 <= i < |Rows(t)| ==> Rows(t)[i].id in t.rows && t.rows[Rows(t)[i].id] == Rows(t)[i].data
    ensures forall i, j :: 0 <= i < j < |Rows(t)| ==> Rows(t)[i].id < Rows(t)[j].id
    ensures forall k :: 1 <= k < t.next && k in t.rows ==> Row(k, t.rows[k]) in Rows(t)
  {
    forall i | 0 <= i < |Rows(t)| ensures Rows(t)[i].id in t.rows && t.rows[Rows(t)[i].id] == Rows(t)[i].data {
      ScanAt(t.rows, 1, t.next, i);
    }
    forall i, j | 0 <= i < j < |Rows(t)| ensures Rows(t)[i].id < Rows(t)[j].id {
      ScanAscending(t.rows, 1, t.next, i, j);
    }
    forall k | 1 <= k < t.next && k in t.rows ensures Row(k, t.rows[k]) in Rows(t) {
      ScanHas(t.rows, 1, t.next, k);
    }
  }

  /** A `serial` key is fresh: larger than every id in use, and the table
      stays valid with the new row under it. */
  lemma InsertFresh<R>(t: Table<R>, r: R)
    requires t.Valid() && t.CanInsert()
    ensures forall k :: k in t.rows ==> k < t.next
    ensures t.Insert(r).Valid()
    ensures t.Insert(r).Get(t.next) == Some(r)
    ensures forall k :: k in t.rows ==> t.Insert(r).Get(k) == t.Get(k)
    ensures |t.Insert(r).rows| == |t.rows| + 1
  {
  }

  /** In a valid table the sequence is past every key, so room is all an
      insert needs. */
  lemma RoomIsFreedom<R>(t: Table<R>, n: nat)
    requires t.Valid()
    ensures t.CanInsert() <==> HasRoom(t, 1)
    ensures (forall i :: t.next <= i < t.next + n ==> i !in t.rows)
  {
  }

  /** Scanning past a row added above every key appends that row. */
  lemma {:induction false} ScanExtend<R>(rows: map<int, R>, lo: int, hi: int, r: R)
    requires lo <= hi
    requires forall k :: k in rows ==> k < hi
    ensures Scan(rows[hi := r], lo, hi + 1) == Scan(rows, lo, hi) + [Row(hi, r)]
    decreases hi - lo
  {
    if lo < hi {
      ScanExtend(rows, lo + 1, hi, r);
    }
  }

  lemma RowsInsert<R>(t: Table<R>, r: R)
    requires t.Valid()
    ensures Rows(t.Insert(r)) == Rows(t) + [Row(t.next, r)]
  {
    ScanExtend(t.rows, 1, t.next, r);
  }

  lemma {:induction false} InsertAllNext<R>(t: Table<R>, rs: seq<R>)
    ensures InsertAll(t, rs).next == t.next + |rs|
    decreases |rs|
  {
    if rs != [] {
      InsertAllNext(t.Insert(rs[0]), rs[1..]);
    }
  }

  /** A batch insert never touches a key below the sequence's position. */
  lemma {:induction false} InsertAllKeeps<R>(t: Table<R>, rs: seq<R>, k: int)
    requires k < t.next
    ensures k in InsertAll(t, rs).rows <==> k in t.rows
    ensures k in t.rows ==> InsertAll(t, rs).rows[k] == t.rows[k]
    decreases |rs|
  {
    if rs != [] {
      InsertAllKeeps(t.Insert(rs[0]), rs[1..], k);
    }
  }

  /** The i-th row of a batch lands under id `next + i`. */
  lemma {:induction false} InsertAllPlaces<R>(t: Table<R>, rs: seq<R>, i: int)
    requires 0 <= i < |rs|
    ensures t.next + i in InsertAll(t, rs).rows && InsertAll(t, rs).rows[t.next + i] == rs[i]
    decreases |rs|
  {
    var t1 := t.Insert(rs[0]);
    if i == 0 {
      InsertAllKeeps(t1, rs[1..], t.next);
    } else {
      InsertAllPlaces(t1, rs[1..], i - 1);
      assert rs[1..][i - 1] == rs[i];
    }
  }

  /** A batch insert adds no key outside the ids it hands out. */
  lemma {:induction false} InsertAllDomain<R>(t: Table<R>, rs: seq<R>, k: int)
    requires k in InsertAll(t, rs).rows
    ensures k in t.rows || t.next <= k < t.next + |rs|
    decreases |rs|
  {
    if rs != [] {
      InsertAllDomain(t.Insert(rs[0]), rs[1..], k);
    }
  }

  /** Inserting a batch gives the rows consecutive fresh ids and keeps every
      row that was there. */
  lemma InsertAllFacts<R>(t: Table<R>, rs: seq<R>)
    requires t.Valid() && t.next + |rs| <= MaxInt4 + 1
    ensures InsertAll(t, rs).Valid()
    ensures InsertAll(t, rs).next == t.next + |rs|
    ensures forall k :: k in t.rows ==> k in InsertAll(t, rs).rows && InsertAll(t, rs).rows[k] == t.rows[k]
    ensures forall k :: t.next <= k < t.next + |rs| ==> k in InsertAll(t, rs).rows && InsertAll(t, rs).rows[k] == rs[k - t.next]
    ensures forall k :: k in InsertAll(t, rs).rows ==> k in t.rows || t.next <= k < t.next + |rs|
  {
    var after := InsertAll(t, rs);
    InsertAllNext(t, rs);
    forall k | k in t.rows ensures k in after.rows && after.rows[k] == t.rows[k] {
      InsertAllKeeps(t, rs, k);
    }
    forall k | t.next <= k < t.next + |rs| ensures k in after.rows && after.rows[k] == rs[k - t.next] {
      InsertAllPlaces(t, rs, k - t.next);
    }
    forall k | k in after.rows ensures k in t.rows || t.next <= k < t.next + |rs| {
      InsertAllDomain(t, rs, k);
    }
  }

  /** A scan after a batch insert lists the old rows, then the batch in order. */
  lemma {:induction false} InsertAllRows<R>(t: Table<R>, rs: seq<R>)
    requires t.Valid() && t.next + |rs| <= MaxInt4 + 1
    ensures Rows(InsertAll(t, rs)) == Rows(t) + Numbered(t.next, rs)
    decreases |rs|
  {
    if rs == [] {
      assert Rows(t) + Numbered(t.next, rs) == Rows(t);
    } else {
      var t1 := t.Insert(rs[0]);
      var before := Rows(t);
      var head := [Row(t.next, rs[0])];
      var tail := Numbered(t.next + 1, rs[1..]);
      assert Rows(t1) == before + head && t1.Valid() by {
        InsertFresh(t, rs[0]);
        RowsInsert(t, rs[0]);
      }
      assert Rows(InsertAll(t1, rs[1..])) == Rows(t1) + tail by {
        InsertAllRows(t1, rs[1..]);
      }
      assert InsertAll(t, rs) == InsertAll(t1, rs[1..]);
      assert Numbered(t.next, rs) == head + tail;
      assert (before + head) + tail == before + (head + tail);
    }
  }

  lemma {:induction false} InsertAllSize<R>(t: Table<R>, rs: seq<R>)
    requires t.Valid() && t.next + |rs| <= MaxInt4 + 1
    ensures |InsertAll(t, rs).rows| == |t.rows| + |rs|
    decreases |rs|
  {
    if rs != [] {
      InsertFresh(t, rs[0]);
      InsertAllSize(t.Insert(rs[0]), rs[1..]);
    }
  }

  lemma {:induction false} WhereAppend<R>(a: seq<Row<R>>, b: seq<Row<R>>, p: R -> bool)
    ensures Where(a + b, p) == Where(a, p) + Where(b, p)
    decreases |a|
  {
    if a != [] {
      assert (a + b)[1..] == a[1..] + b;
      WhereAppend(a[1..], b, p);
    } else {
      assert a + b == b;
    }
  }

  lemma {:induction false} WhereNone<R>(rs: seq<Row<R>>, p: R -> bool)
    requires forall i :: 0 <= i < |rs| ==> !p(rs[i].data)
    ensures Where(rs, p) == []
    decreases |rs|
  {
    if rs != [] {
      WhereNone(rs[1..], p);
    }
  }

  lemma {:induction false} WhereAll<R>(rs: seq<Row<R>>, p: R -> bool)
    requires forall i :: 0 <= i < |rs| ==> p(rs[i].data)
    ensures Where(rs, p) == rs
    decreases |rs|
  {
    if rs != [] {
      WhereAll(rs[1..], p);
      assert rs == [rs[0]] + rs[1..];
    }
  }

  /** A row of a filtered scan is a row of the table that passes the filter. */
  lemma WhereRowsAt<R>(t: Table<R>, p: R -> bool, i: int)
    requires 0 <= i < |Where(Rows(t), p)|
    ensures Where(Rows(t), p)[i].id in t.rows
    ensures t.rows[Where(Rows(t), p)[i].id] == Where(Rows(t), p)[i].data
    ensures p(Where(Rows(t), p)[i].data)
  {
    var j :| 0 <= j < |Rows(t)| && Rows(t)[j] == Where(Rows(t), p)[i];
    ScanAt(t.rows, 1, t.next, j);
  }

  /** The values a filtered scan projects are those of the matching rows. */
  lemma SelectedValues<R>(t: Table<R>, p: R -> bool, f: R -> int)
    requires t.Valid()
    ensures (set x | x in Project(Where(Rows(t), p), f)) == (set k | k in t.rows && p(t.rows[k]) :: f(t.rows[k]))
  {
    var sel := Where(Rows(t), p);
    var lhs := set x | x in Project(sel, f);
    var rhs := set k | k in t.rows && p(t.rows[k]) :: f(t.rows[k]);
    forall x | x in lhs ensures x in rhs {
      var i :| 0 <= i < |sel| && Project(sel, f)[i] == x;
      var j :| 0 <= j < |Rows(t)| && Rows(t)[j] == sel[i];
      ScanAt(t.rows, 1, t.next, j);
    }
    forall x | x in rhs ensures x in lhs {
      var k :| k in t.rows && p(t.rows[k]) && f(t.rows[k]) == x;
      ScanHas(t.rows, 1, t.next, k);
      var j :| 0 <= j < |Rows(t)| && Rows(t)[j] == Row(k, t.rows[k]);
      assert Row(k, t.rows[k]) in sel;
      var i :| 0 <= i < |sel| && sel[i] == Row(k, t.rows[k]);
      assert Project(sel, f)[i] == x;
    }
  }
}
