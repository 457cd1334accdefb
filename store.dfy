/** The bookmark table behind `BookmarksService` (getAllBookmarks, getById,
    insertBookmark, deleteBookmark). The real service is a database; here it is
    an ordered table of rows with unique ids and a serial id counter. */
module Store {
  import opened Wrappers
  import opened Json
  import opened Validation

  /** A stored row, as the router reads it back. */
  datatype Bookmark = Bookmark(id: nat, title: string, url: string, description: string, rating: int)

  /** The table: rows in their natural (insertion) order and the next serial id. */
  datatype Table = Table(rows: seq<Bookmark>, nextId: nat)

  /** No two rows share an id. */
  ghost predicate IdsUnique(rows: seq<Bookmark>)
  {
    forall i, j :: 0 <= i < j < |rows| ==> rows[i].id != rows[j].id
  }

  /** The table invariant: unique ids, all below the next serial id. */
  ghost predicate Valid(t: Table)
  {
    IdsUnique(t.rows) && forall i :: 0 <= i < |t.rows| ==> t.rows[i].id < t.nextId
  }

  /** `getById`: the row with that id, or None. */
  function Find(rows: seq<Bookmark>, id: nat): (r: Option<Bookmark>)
    ensures r.None? <==> forall i :: 0 <= i < |rows| ==> rows[i].id != id
    ensures r.Some? ==> r.value.id == id && r.value in rows
    decreases |rows|
  {
    if rows == [] then None
    else if rows[0].id == id then Some(rows[0])
    else
      var r := Find(rows[1..], id);
      assert (forall i :: 0 <= i < |rows[1..]| ==> rows[1..][i].id != id) ==>
             (forall i :: 0 <= i < |rows| ==> rows[i].id != id) by {
        if forall i :: 0 <= i < |rows[1..]| ==> rows[1..][i].id != id {
          forall i | 0 < i < |rows| ensures rows[i].id != id {
            assert rows[i] == rows[1..][i - 1];
          }
        }
      }
      r
  }

  /** The rows that a `delete ... where id = ?` leaves, in their order. */
  function Without(rows: seq<Bookmark>, id: nat): (r: seq<Bookmark>)
    ensures forall b :: b in r <==> b in rows && b.id != id
    ensures |r| <= |rows|
    decreases |rows|
  {
    if rows == [] then []
    else if rows[0].id == id then Without(rows[1..], id)
    else [rows[0]] + Without(rows[1..], id)
  }

  /** The row the store builds from a candidate. The database coerces each JSON
      value to its text column by `toText`, and a missing description becomes "". */
  function StoredRow(id: nat, c: NewBookmark, toText: Json -> string): Bookmark
  {
    var description := match c.description case None => "" case Some(d) => toText(d);
    Bookmark(id, toText(c.title), toText(c.url), description, c.rating)
  }

  /** `insertBookmark`: appends a row under the next serial id and returns it. */
  function Insert(t: Table, c: NewBookmark, toText: Json -> string): (Table, Bookmark)
  {
    var b := StoredRow(t.nextId, c, toText);
    (Table(t.rows + [b], t.nextId + 1), b)
  }

  /** `deleteBookmark`: removes the rows with that id and returns how many it removed. */
  function Delete(t: Table, id: nat): (Table, nat)
  {
    var rest := Without(t.rows, id);
    (Table(rest, t.nextId), |t.rows| - |rest|)
  }

  /** Looking up in a table with one row appended. */
  lemma {:induction false} FindAppend(rows: seq<Bookmark>, b: Bookmark, id: nat)
    ensures Find(rows + [b], id) ==
              if Find(rows, id).Some? then Find(rows, id) else if b.id == id then Some(b) else None
    decreases |rows|
  {
    if rows != [] && rows[0].id != id {
      assert (rows + [b])[1..] == rows[1..] + [b];
      FindAppend(rows[1..], b, id);
    }
  }

  /** Removing one id changes no lookup of another id. */
  lemma {:induction false} FindWithout(rows: seq<Bookmark>, id: nat, other: nat)
    ensures Find(Without(rows, id), other) == if other == id then None else Find(rows, other)
    decreases |rows|
  {
    if rows != [] {
      FindWithout(rows[1..], id, other);
    }
  }

  /** Removing an id no row carries leaves the rows as they are. */
  lemma {:induction false} WithoutAbsent(rows: seq<Bookmark>, id: nat)
    requires forall i :: 0 <= i < |rows| ==> rows[i].id != id
    ensures Without(rows, id) == rows
    decreases |rows|
  {
    if rows != [] {
      WithoutAbsent(rows[1..], id);
      assert [rows[0]] + rows[1..] == rows;
    }
  }

  /** Deleting from two stretches of rows deletes from each, keeping their order. */
  lemma {:induction false} WithoutConcat(p: seq<Bookmark>, q: seq<Bookmark>, id: nat)
    ensures Without(p + q, id) == Without(p, id) + Without(q, id)
    decreases |p|
  {
    if p != [] {
      assert (p + q)[0] == p[0] && (p + q)[1..] == p[1..] + q;
      WithoutConcat(p[1..], q, id);
    } else {
      assert p + q == q;
    }
  }

  /** In a table with unique ids, no row other than `x` carries its id. */
  lemma OthersDifferFrom(a: seq<Bookmark>, x: Bookmark, b: seq<Bookmark>)
    requires IdsUnique(a + [x] + b)
    ensures forall i :: 0 <= i < |a| ==> a[i].id != x.id
    ensures forall i :: 0 <= i < |b| ==> b[i].id != x.id
  {
    var rows := a + [x] + b;
    assert rows[|a|] == x;
    forall i | 0 <= i < |a| ensures a[i].id != x.id {
      assert rows[i] == a[i];
    }
    forall i | 0 <= i < |b| ensures b[i].id != x.id {
      assert rows[|a| + 1 + i] == b[i];
    }
  }

  /** Deleting an id only `x` carries leaves the rows on either side of it, in order. */
  lemma WithoutOnly(a: seq<Bookmark>, x: Bookmark, b: seq<Bookmark>)
    requires forall i :: 0 <= i < |a| ==> a[i].id != x.id
    requires forall i :: 0 <= i < |b| ==> b[i].id != x.id
    ensures Without(a + [x] + b, x.id) == a + b
  {
    var id := x.id;
    WithoutAbsent(a, id);
    WithoutAbsent(b, id);
    assert Without([x], id) == [];
    WithoutConcat(a, [x], id);
    assert Without(a + [x], id) == a;
    WithoutConcat(a + [x], b, id);
  }

  /** With unique ids, deleting the row `x` leaves the rows before it and the
      rows after it, in their order. */
  lemma WithoutKeepsOrder(a: seq<Bookmark>, x: Bookmark, b: seq<Bookmark>)
    requires IdsUnique(a + [x] + b)
    ensures Without(a + [x] + b, x.id) == a + b
  {
    OthersDifferFrom(a, x, b);
    WithoutOnly(a, x, b);
  }

  /** With unique ids, removing a present id removes exactly one row. */
  lemma {:induction false} WithoutPresent(rows: seq<Bookmark>, id: nat)
    requires IdsUnique(rows) && Find(rows, id).Some?
    ensures |Without(rows, id)| == |rows| - 1
    ensures IdsUnique(Without(rows, id))
    decreases |rows|
  {
    if rows[0].id == id {
      forall i | 0 <= i < |rows[1..]| ensures rows[1..][i].id != id {
        assert rows[1..][i] == rows[i + 1];
      }
      WithoutAbsent(rows[1..], id);
    } else {
      WithoutPresent(rows[1..], id);
      var rest := Without(rows[1..], id);
      forall i, j | 0 <= i < j < |[rows[0]] + rest|
        ensures ([rows[0]] + rest)[i].id != ([rows[0]] + rest)[j].id
      {
        if i == 0 {
          var b := rest[j - 1];
          assert b in rows[1..];
          var k :| 0 <= k < |rows[1..]| && rows[1..][k] == b;
          assert rows[k + 1] == b;
        }
      }
    }
  }

  /** Insert keeps the table valid, gives the new row an id no row had, and
      changes no lookup but that of the new id. */
  lemma InsertFresh(t: Table, c: NewBookmark, toText: Json -> string)
    requires Valid(t)
    ensures var (t', b) := Insert(t, c, toText);
            Valid(t') && b.id == t.nextId && Find(t.rows, b.id) == None &&
            t'.rows == t.rows + [b] && Find(t'.rows, b.id) == Some(b) &&
            forall j :: j != b.id ==> Find(t'.rows, j) == Find(t.rows, j)
  {
    var (t', b) := Insert(t, c, toText);
    FindAppend(t.rows, b, b.id);
    forall j | j != b.id ensures Find(t'.rows, j) == Find(t.rows, j) {
      FindAppend(t.rows, b, j);
    }
  }

  /** Deleting a present id removes exactly that row: one row affected, the id
      no longer found, every other lookup unchanged, the table still valid. */
  lemma DeleteRemovesExactlyOne(t: Table, id: nat)
    requires Valid(t) && Find(t.rows, id).Some?
    ensures var (t', count) := Delete(t, id);
            Valid(t') && count == 1 && |t'.rows| == |t.rows| - 1 &&
            Find(t'.rows, id) == None &&
            forall j :: j != id ==> Find(t'.rows, j) == Find(t.rows, j)
  {
    var (t', count) := Delete(t, id);
    WithoutPresent(t.rows, id);
    FindWithout(t.rows, id, id);
    forall j | j != id ensures Find(t'.rows, j) == Find(t.rows, j) {
      FindWithout(t.rows, id, j);
    }
    forall i | 0 <= i < |t'.rows| ensures t'.rows[i].id < t'.nextId {
      assert t'.rows[i] in t.rows;
    }
  }

  /** Deleting an id the table does not hold affects no row. */
  lemma DeleteAbsentChangesNothing(t: Table, id: nat)
    requires Find(t.rows, id).None?
    ensures Delete(t, id) == (t, 0)
  {
    WithoutAbsent(t.rows, id);
  }

  /** The service object: the table as mutable state. `toText` stands for the
      database's coercion of a JSON value to a text column. */
  class BookmarksService {
    var rows: seq<Bookmark>
    var nextId: nat
    const toText: Json -> string

    function State(): Table
      reads this
    {
      Table(rows, nextId)
    }

    ghost predicate Invariant()
      reads this
    {
      Valid(State())
    }

    /** An empty table whose serial ids start at 1. */
    constructor (toText: Json -> string)
      ensures Invariant() && rows == [] && nextId == 1 && this.toText == toText
    {
      rows := [];
      nextId := 1;
      this.toText := toText;
    }

    /** `getAllBookmarks`: every row in table order. */
    method GetAllBookmarks() returns (all: seq<Bookmark>)
      ensures all == rows
    {
      all := rows;
    }

    /** `getById`: the row with that id, or None. */
    method GetById(id: nat) returns (found: Option<Bookmark>)
      ensures found == Find(rows, id)
    {
      found := Find(rows, id);
    }

    /** `insertBookmark`: stores the candidate under a fresh id and returns the stored row. */
    method InsertBookmark(c: NewBookmark) returns (b: Bookmark)
      requires Invariant()
      modifies this
      ensures Invariant()
      ensures (State(), b) == Insert(old(State()), c, toText)
    {
      InsertFresh(State(), c, toText);
      b := StoredRow(nextId, c, toText);
      rows := rows + [b];
      nextId := nextId + 1;
    }

    /** `deleteBookmark`: removes the rows with that id and returns how many. */
    method DeleteBookmark(id: nat) returns (count: nat)
      requires Invariant()
      modifies this
      ensures Invariant()
      ensures (State(), count) == Delete(old(State()), id)
    {
      if Find(rows, id).Some? {
        DeleteRemovesExactlyOne(State(), id);
      } else {
        DeleteAbsentChangesNothing(State(), id);
      }
      var rest := Without(rows, id);
      count := |rows| - |rest|;
      rows := rest;
    }
  }
}
