/** The `urls` table of the shortener's SQLite database: its rows, the
    constraints its schema declares, and the SQL statements the service
    issues against it.  Every query is a pure function over the rows in
    storage order; the statements that change the table are methods of
    `Database`, whose fields are the table's contents. */
module UrlsTable {

  datatype Option<T> = None | Some(value: T)

  /** One row: the AUTOINCREMENT primary key, the target URL and its short code. */
  datatype Row = Row(id: nat, originalUrl: string, code: string)
  {
    /** The value a `WHERE column = ?` clause compares. */
    function Get(column: Column): string
    {
      match column
      case OriginalUrlColumn => originalUrl
      case CodeColumn => code
    }
  }

  /** The two text columns the service filters on. */
  datatype Column = OriginalUrlColumn | CodeColumn

  /** The table's contents together with SQLite's AUTOINCREMENT counter,
      the id the next successful insert receives. */
  datatype Table = Table(rows: seq<Row>, nextId: nat)

  /** The codes present in the table. */
  function Codes(rows: seq<Row>): set<string>
  {
    set i | 0 <= i < |rows| :: rows[i].code
  }

  /** `code TEXT NOT NULL UNIQUE`: no two rows share a code. */
  ghost predicate CodesUnique(rows: seq<Row>)
  {
    forall i, j :: 0 <= i < j < |rows| ==> rows[i].code != rows[j].code
  }

  /** `id INTEGER PRIMARY KEY AUTOINCREMENT`: rows are stored in ascending
      id order and every id is below the counter, so ids are never reused. */
  ghost predicate IdsAscending(rows: seq<Row>, nextId: nat)
  {
    && (forall i, j :: 0 <= i < j < |rows| ==> rows[i].id < rows[j].id)
    && (forall i :: 0 <= i < |rows| ==> rows[i].id < nextId)
  }

  /** The schema's invariants. */
  ghost predicate WellFormed(t: Table)
  {
    CodesUnique(t.rows) && IdsAscending(t.rows, t.nextId)
  }

  /** `SELECT ... FROM urls WHERE column = ?` followed by `fetchone()`: the
      index of the first row, in id order, whose column equals `value`. */
  function FirstMatch(rows: seq<Row>, column: Column, value: string): (r: Option<nat>)
    ensures r.Some? ==> r.value < |rows| && rows[r.value].Get(column) == value
    ensures r.Some? ==> forall j :: 0 <= j < r.value ==> rows[j].Get(column) != value
    ensures r.None? <==> forall j :: 0 <= j < |rows| ==> rows[j].Get(column) != value
  {
    if rows == [] then None
    else if rows[0].Get(column) == value then Some(0)
    else match FirstMatch(rows[1..], column, value)
      case None => None
      case Some(k) => Some(k + 1)
  }

  /** The number of rows a `WHERE code = ?` clause hits: the `rowcount` of
      an UPDATE or DELETE with that clause. */
  function MatchCount(rows: seq<Row>, code: string): (n: nat)
    ensures n > 0 <==> code in Codes(rows)
    ensures n <= |rows|
    ensures CodesUnique(rows) ==> n <= 1
  {
    if rows == [] then 0
    else
      assert Codes(rows) == {rows[0].code} + Codes(rows[1..]) by { CodesCons(rows); }
      (if rows[0].code == code then 1 else 0) + MatchCount(rows[1..], code)
  }

  /** `UPDATE urls SET original_url = ? WHERE code = ?`. */
  function SetUrlWhereCode(rows: seq<Row>, code: string, url: string): (r: seq<Row>)
    ensures |r| == |rows|
    ensures forall i :: 0 <= i < |rows| ==> r[i].id == rows[i].id && r[i].code == rows[i].code
    ensures forall i :: 0 <= i < |rows| ==>
              r[i].originalUrl == (if rows[i].code == code then url else rows[i].originalUrl)
  {
    if rows == [] then []
    else
      var head := if rows[0].code == code then rows[0].(originalUrl := url) else rows[0];
      [head] + SetUrlWhereCode(rows[1..], code, url)
  }

  /** `DELETE FROM urls WHERE code = ?`: exactly the rows with another code survive. */
  function DeleteWhereCode(rows: seq<Row>, code: string): (r: seq<Row>)
    ensures forall x :: x in r <==> x in rows && x.code != code
    ensures |r| == |rows| - MatchCount(rows, code)
    ensures code !in Codes(r)
  {
    if rows == [] then []
    else if rows[0].code == code then DeleteWhereCode(rows[1..], code)
    else [rows[0]] + DeleteWhereCode(rows[1..], code)
  }

  /** `INSERT INTO urls (original_url, code) VALUES (?, ?)` once the unique
      constraint has let it through: the row takes the next id. */
  function Inserted(t: Table, url: string, code: string): (t': Table)
    ensures Codes(t'.rows) == Codes(t.rows) + {code}
    ensures code !in Codes(t.rows) ==> Mapping(t'.rows) == Mapping(t.rows)[code := url]
    ensures code !in Codes(t.rows) && WellFormed(t) ==> WellFormed(t')
  {
    var row := Row(t.nextId, url, code);
    CodesAppend(t.rows, row);
    if code in Codes(t.rows) then Table(t.rows + [row], t.nextId + 1)
    else
      MappingAppend(t.rows, row);
      AppendWellFormed(t, row);
      Table(t.rows + [row], t.nextId + 1)
  }

  /** What the table means to its users: each code mapped to its URL.
      Where several rows shared a code the first would win, as the
      first-row lookup does; under `CodesUnique` no two rows do. */
  function Mapping(rows: seq<Row>): (m: map<string, string>)
    ensures m.Keys == Codes(rows)
  {
    if rows == [] then map[]
    else
      assert Codes(rows) == {rows[0].code} + Codes(rows[1..]) by { CodesCons(rows); }
      Mapping(rows[1..])[rows[0].code := rows[0].originalUrl]
  }

  lemma CodesCons(rows: seq<Row>)
    requires rows != []
    ensures Codes(rows) == {rows[0].code} + Codes(rows[1..])
  {
  }

  lemma CodesAppend(rows: seq<Row>, x: Row)
    ensures Codes(rows + [x]) == Codes(rows) + {x.code}
  {
    var r := rows + [x];
    forall c | c in Codes(r) ensures c in Codes(rows) + {x.code} {
      var i :| 0 <= i < |r| && r[i].code == c;
      if i < |rows| { assert r[i] == rows[i]; }
    }
    forall c | c in Codes(rows) ensures c in Codes(r) {
      var i :| 0 <= i < |rows| && rows[i].code == c;
      assert r[i] == rows[i];
    }
    assert r[|rows|] == x;
  }

  /** The first row carrying a code is the one the map associates with it. */
  lemma {:induction false} FirstMatchCodeMapping(rows: seq<Row>, code: string)
    ensures FirstMatch(rows, CodeColumn, code).Some? <==> code in Mapping(rows)
    ensures FirstMatch(rows, CodeColumn, code).Some? ==>
              Mapping(rows)[code] == rows[FirstMatch(rows, CodeColumn, code).value].originalUrl
  {
    if rows != [] && rows[0].code != code {
      FirstMatchCodeMapping(rows[1..], code);
    }
  }

  /** Under the unique constraint, every row is what the map says for its code. */
  lemma {:induction false} MappingAt(rows: seq<Row>, i: nat)
    requires CodesUnique(rows)
    requires i < |rows|
    ensures rows[i].code in Mapping(rows)
    ensures Mapping(rows)[rows[i].code] == rows[i].originalUrl
  {
    if i > 0 {
      assert CodesUnique(rows[1..]) by {
        forall a, b | 0 <= a < b < |rows[1..]| ensures rows[1..][a].code != rows[1..][b].code {
          assert rows[1..][a] == rows[a + 1] && rows[1..][b] == rows[b + 1];
        }
      }
      assert rows[1..][i - 1] == rows[i];
      MappingAt(rows[1..], i - 1);
    }
  }

  /** A successful insert adds exactly its own code to the map. */
  lemma {:induction false} MappingAppend(rows: seq<Row>, x: Row)
    requires x.code !in Codes(rows)
    ensures Mapping(rows + [x]) == Mapping(rows)[x.code := x.originalUrl]
  {
    if rows != [] {
      assert (rows + [x])[1..] == rows[1..] + [x];
      CodesCons(rows);
      MappingAppend(rows[1..], x);
    } else {
      assert rows + [x] == [x];
    }
  }

  /** An UPDATE by code rebinds that code in the map, and nothing else. */
  lemma {:induction false} MappingSetUrl(rows: seq<Row>, code: string, url: string)
    ensures Mapping(SetUrlWhereCode(rows, code, url))
         == if code in Codes(rows) then Mapping(rows)[code := url] else Mapping(rows)
  {
    if rows != [] {
      var r := SetUrlWhereCode(rows, code, url);
      var tail := SetUrlWhereCode(rows[1..], code, url);
      assert r[1..] == tail;
      MappingSetUrl(rows[1..], code, url);
      CodesCons(rows);
      var m := Mapping(rows[1..]);
      var k, v := rows[0].code, rows[0].originalUrl;
      assert Mapping(rows) == m[k := v];
      assert Mapping(r) == Mapping(tail)[k := r[0].originalUrl];
      if k == code {
        MapUpdateSame(m, code, v, url);
        if code in Codes(rows[1..]) {
          MapUpdateSame(m, code, url, url);
        }
      } else if code in Codes(rows[1..]) {
        MapUpdateOther(m, code, url, k, v);
      }
    }
  }

  /** A DELETE by code removes that code from the map, and nothing else. */
  lemma {:induction false} MappingDelete(rows: seq<Row>, code: string)
    ensures Mapping(DeleteWhereCode(rows, code)) == Mapping(rows) - {code}
  {
    if rows != [] {
      var tail := DeleteWhereCode(rows[1..], code);
      MappingDelete(rows[1..], code);
      var m := Mapping(rows[1..]);
      var k, v := rows[0].code, rows[0].originalUrl;
      assert Mapping(rows) == m[k := v];
      if k != code {
        var r := [rows[0]] + tail;
        assert r[1..] == tail;
        assert DeleteWhereCode(rows, code) == r;
        assert Mapping(r) == Mapping(tail)[k := v];
        MapRemoveOther(m, k, v, code);
      } else {
        assert DeleteWhereCode(rows, code) == tail;
        MapRemoveSame(m, k, v);
      }
    }
  }

  lemma MapUpdateSame(m: map<string, string>, k: string, v: string, w: string)
    ensures m[k := v][k := w] == m[k := w]
  {
  }

  lemma MapUpdateOther(m: map<string, string>, c: string, u: string, k: string, v: string)
    requires k != c
    ensures m[c := u][k := v] == m[k := v][c := u]
  {
  }

  lemma MapRemoveOther(m: map<string, string>, k: string, v: string, c: string)
    requires k != c
    ensures m[k := v] - {c} == (m - {c})[k := v]
  {
  }

  lemma MapRemoveSame(m: map<string, string>, k: string, v: string)
    ensures m[k := v] - {k} == m - {k}
  {
  }

  /** An UPDATE or DELETE whose code is absent leaves the rows as they were. */
  lemma AbsentCodeUntouched(rows: seq<Row>, code: string, url: string)
    requires code !in Codes(rows)
    ensures SetUrlWhereCode(rows, code, url) == rows
    ensures DeleteWhereCode(rows, code) == rows
  {
    AbsentCodeNotUpdated(rows, code, url);
    AbsentCodeNotDeleted(rows, code);
  }

  lemma {:induction false} AbsentCodeNotUpdated(rows: seq<Row>, code: string, url: string)
    requires forall i :: 0 <= i < |rows| ==> rows[i].code != code
    ensures SetUrlWhereCode(rows, code, url) == rows
  {
    if rows != [] {
      AbsentCodeNotUpdated(rows[1..], code, url);
      assert rows == [rows[0]] + rows[1..];
    }
  }

  lemma {:induction false} AbsentCodeNotDeleted(rows: seq<Row>, code: string)
    requires forall i :: 0 <= i < |rows| ==> rows[i].code != code
    ensures DeleteWhereCode(rows, code) == rows
  {
    if rows != [] {
      AbsentCodeNotDeleted(rows[1..], code);
      assert rows == [rows[0]] + rows[1..];
    }
  }

  /** Appending a row under a code not yet present and the next id keeps
      the schema's invariants. */
  lemma AppendWellFormed(t: Table, row: Row)
    requires row.code !in Codes(t.rows) && row.id == t.nextId
    ensures WellFormed(t) ==> WellFormed(Table(t.rows + [row], t.nextId + 1))
  {
  }

  /** Updating a URL keeps the schema's invariants: ids and codes stay put. */
  lemma SetUrlWellFormed(t: Table, code: string, url: string)
    requires WellFormed(t)
    ensures WellFormed(Table(SetUrlWhereCode(t.rows, code, url), t.nextId))
  {
  }

  /** Deleting rows keeps the schema's invariants: what survives is a
      subsequence of what was there. */
  lemma {:induction false} DeleteWellFormed(t: Table, code: string)
    requires WellFormed(t)
    ensures WellFormed(Table(DeleteWhereCode(t.rows, code), t.nextId))
    decreases |t.rows|
  {
    var rows := t.rows;
    if rows != [] {
      TailWellFormed(t);
      DeleteWellFormed(Table(rows[1..], t.nextId), code);
      var tail := DeleteWhereCode(rows[1..], code);
      if rows[0].code != code {
        forall y | y in tail ensures rows[0].code != y.code && rows[0].id < y.id {
          var k :| 0 <= k < |rows[1..]| && rows[1..][k] == y;
          assert rows[k + 1] == y;
        }
        ConsWellFormed(rows[0], tail, t.nextId);
      }
    }
  }

  lemma TailWellFormed(t: Table)
    requires WellFormed(t) && t.rows != []
    ensures WellFormed(Table(t.rows[1..], t.nextId))
  {
  }

  lemma ConsWellFormed(x: Row, rest: seq<Row>, nextId: nat)
    requires WellFormed(Table(rest, nextId)) && x.id < nextId
    requires forall y :: y in rest ==> x.code != y.code && x.id < y.id
    ensures WellFormed(Table([x] + rest, nextId))
  {
  }

  /** The database connection the service works through, reduced to the
      `urls` table it holds and the AUTOINCREMENT counter. */
  class Database {
    var rows: seq<Row>
    var nextId: nat

    ghost predicate Valid()
      reads this
    {
      WellFormed(State())
    }

    function State(): Table
      reads this
    {
      Table(rows, nextId)
    }

    /** A freshly created, empty table; SQLite's first rowid is 1. */
    constructor ()
      ensures Valid() && rows == [] && nextId == 1
    {
      rows := [];
      nextId := 1;
    }

    /** `INSERT INTO urls (original_url, code) VALUES (?, ?)` and `commit()`.
        `inserted` is false exactly when SQLite raises `IntegrityError` for
        the unique code; that insert writes nothing. */
    method Insert(url: string, code: string) returns (inserted: bool)
      requires Valid()
      modifies this
      ensures Valid()
      ensures inserted <==> code !in Codes(old(rows))
      ensures State() == if inserted then Inserted(old(State()), url, code) else old(State())
    {
      inserted := code !in Codes(rows);
      if inserted {
        rows, nextId := rows + [Row(nextId, url, code)], nextId + 1;
      }
    }

    /** `UPDATE urls SET original_url = ? WHERE code = ?` and `commit()`. */
    method UpdateUrl(code: string, url: string) returns (rowcount: nat)
      requires Valid()
      modifies this
      ensures Valid()
      ensures rowcount == MatchCount(old(rows), code) && rowcount <= 1
      ensures rows == SetUrlWhereCode(old(rows), code, url) && nextId == old(nextId)
    {
      rowcount := MatchCount(rows, code);
      SetUrlWellFormed(State(), code, url);
      rows := SetUrlWhereCode(rows, code, url);
    }

    /** `DELETE FROM urls WHERE code = ?` and `commit()`. */
    method DeleteCode(code: string) returns (rowcount: nat)
      requires Valid()
      modifies this
      ensures Valid()
      ensures rowcount == MatchCount(old(rows), code) && rowcount <= 1
      ensures rows == DeleteWhereCode(old(rows), code) && nextId == old(nextId)
    {
      rowcount := MatchCount(rows, code);
      DeleteWellFormed(State(), code);
      rows := DeleteWhereCode(rows, code);
    }
  }
}
