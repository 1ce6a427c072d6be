/** The shortener's four service operations over the `urls` table:
    create a short code for a URL (reusing the code of a row that already
    has that URL, otherwise inserting under a freshly generated code with a
    bounded number of retries), resolve a code, overwrite a code's URL and
    delete a code.

    The code generator is a parameter: `gen(k)` is what the generator
    yields on the k-th attempt of one call. */
module ShortenerService {
  import opened UrlsTable

  /** `for _ in range(10)`: the number of insert attempts. */
  const MaxAttempts: nat := 10

  /** The length a generated code is cut to. */
  const CodeLength: nat := 8

  /** The one failure `create` surfaces: every attempt collided. */
  datatype CreateError = GenerationExhausted

  datatype Result<T> = Ok(value: T) | Err(error: CreateError)

  /** Python's `s[:8]`: the first eight characters, or all of a shorter string. */
  function Truncate(s: string): (r: string)
    ensures r <= s
    ensures |r| == if |s| < CodeLength then |s| else CodeLength
  {
    if |s| <= CodeLength then s else s[..CodeLength]
  }

  /** The candidate code of attempt `k`: `shortuuid.uuid()[:8]`. */
  function Candidate(gen: nat -> string, k: nat): (code: string)
    ensures code <= gen(k) && |code| <= CodeLength
  {
    Truncate(gen(k))
  }

  /** The first attempt, from `k` on and below `MaxAttempts`, whose candidate
      is not among `codes`, that is the first insert the unique constraint
      lets through; `None` when every remaining attempt collides. */
  function FirstFreeAttempt(codes: set<string>, gen: nat -> string, k: nat): (r: Option<nat>)
    ensures r.Some? ==> k <= r.value < MaxAttempts && Candidate(gen, r.value) !in codes
    ensures r.Some? ==> forall j :: k <= j < r.value ==> Candidate(gen, j) in codes
    ensures r.None? <==> forall j :: k <= j < MaxAttempts ==> Candidate(gen, j) in codes
    decreases MaxAttempts - k
  {
    if k >= MaxAttempts then None
    else if Candidate(gen, k) !in codes then Some(k)
    else FirstFreeAttempt(codes, gen, k + 1)
  }

  /** What one `create` call does to the table and what it answers: the
      code of the first row holding the URL; otherwise one new row under the
      first of the `MaxAttempts` candidates that is free; otherwise a failure
      that leaves the table as it was. */
  function Create(t: Table, url: string, gen: nat -> string): (res: (Table, Result<string>))
    ensures res.1.Ok? ==> res.1.value in Codes(res.0.rows)
    ensures res.1.Ok? ==>
              || res.0 == t
              || (&& res.1.value !in Codes(t.rows)
                  && res.0 == Table(t.rows + [Row(t.nextId, url, res.1.value)], t.nextId + 1))
    ensures res.1.Err? ==> res.0 == t
    ensures res.1.Err? <==> (forall i :: 0 <= i < |t.rows| ==> t.rows[i].originalUrl != url)
                            && forall k :: 0 <= k < MaxAttempts ==> Candidate(gen, k) in Codes(t.rows)
  {
    match FirstMatch(t.rows, OriginalUrlColumn, url)
    case Some(i) => (t, Ok(t.rows[i].code))
    case None =>
      match FirstFreeAttempt(Codes(t.rows), gen, 0)
      case Some(k) => (Inserted(t, url, Candidate(gen, k)), Ok(Candidate(gen, k)))
      case None => (t, Err(GenerationExhausted))
  }

  /** `create_short_url`: look the URL up; if no row has it, try up to
      `MaxAttempts` candidate codes, each inserted as a new row until the
      unique constraint accepts one. */
  method CreateShortUrl(db: Database, originalUrl: string, gen: nat -> string) returns (r: Result<string>)
    requires db.Valid()
    modifies db
    ensures db.Valid()
    ensures (db.State(), r) == Create(old(db.State()), originalUrl, gen)
  {
    var found := FirstMatch(db.rows, OriginalUrlColumn, originalUrl);
    if found.Some? {
      return Ok(db.rows[found.value].code);
    }
    for attempt := 0 to MaxAttempts
      invariant db.Valid() && db.State() == old(db.State())
      invariant FirstFreeAttempt(Codes(db.rows), gen, 0) == FirstFreeAttempt(Codes(db.rows), gen, attempt)
    {
      var code := Candidate(gen, attempt);
      var inserted := db.Insert(originalUrl, code);
      if inserted {
        return Ok(code);
      }
    }
    return Err(GenerationExhausted);
  }

  /** `get_original_url`: the URL stored under `code`, or `None`. */
  function GetOriginalUrl(db: Database, code: string): (r: Option<string>)
    reads db
    ensures r.Some? <==> code in Codes(db.rows)
    ensures r.Some? ==> exists i :: 0 <= i < |db.rows| && db.rows[i].code == code && db.rows[i].originalUrl == r.value
    ensures r == if code in Mapping(db.rows) then Some(Mapping(db.rows)[code]) else None
  {
    FirstMatchCodeMapping(db.rows, code);
    match FirstMatch(db.rows, CodeColumn, code)
    case Some(i) => Some(db.rows[i].originalUrl)
    case None => None
  }

  /** `update_original_url`: overwrite the URL of the row with `code`;
      true when the UPDATE hit a row. */
  method UpdateOriginalUrl(db: Database, code: string, newOriginalUrl: string) returns (updated: bool)
    requires db.Valid()
    modifies db
    ensures db.Valid()
    ensures updated <==> code in Codes(old(db.rows))
    ensures db.rows == SetUrlWhereCode(old(db.rows), code, newOriginalUrl) && db.nextId == old(db.nextId)
    ensures Mapping(db.rows) == if updated then old(Mapping(db.rows))[code := newOriginalUrl] else old(Mapping(db.rows))
    ensures !updated ==> db.State() == old(db.State())
  {
    MappingSetUrl(db.rows, code, newOriginalUrl);
    if code !in Codes(db.rows) {
      AbsentCodeUntouched(db.rows, code, newOriginalUrl);
    }
    var rowcount := db.UpdateUrl(code, newOriginalUrl);
    updated := rowcount > 0;
  }

  /** `delete_url`: remove the row with `code`; true when the DELETE hit a row. */
  method DeleteUrl(db: Database, code: string) returns (deleted: bool)
    requires db.Valid()
    modifies db
    ensures db.Valid()
    ensures deleted <==> code in Codes(old(db.rows))
    ensures db.rows == DeleteWhereCode(old(db.rows), code) && db.nextId == old(db.nextId)
    ensures Mapping(db.rows) == old(Mapping(db.rows)) - {code}
    ensures code !in Codes(db.rows)
    ensures !deleted ==> db.State() == old(db.State())
  {
    MappingDelete(db.rows, code);
    if code !in Codes(db.rows) {
      AbsentCodeUntouched(db.rows, code, "");
    }
    var rowcount := db.DeleteCode(code);
    deleted := rowcount > 0;
  }

  // Properties of `create`.

  /** A URL already in the table gets back the code of its first row, and
      the table is left as it was. */
  lemma CreateReusesExisting(t: Table, url: string, gen: nat -> string, i: nat)
    requires i < |t.rows| && t.rows[i].originalUrl == url
    ensures Create(t, url, gen).0 == t
    ensures Create(t, url, gen).1.Ok?
    ensures exists j :: 0 <= j <= i && t.rows[j].originalUrl == url
              && Create(t, url, gen).1.value == t.rows[j].code
              && forall k :: 0 <= k < j ==> t.rows[k].originalUrl != url
  {
  }

  /** A URL not yet in the table either gains exactly one new row, under a
      code no row had and that is the candidate of the first attempt that did
      not collide, or, when all `MaxAttempts` candidates collide, fails with
      the table unchanged. */
  lemma CreateNew(t: Table, url: string, gen: nat -> string)
    requires forall i :: 0 <= i < |t.rows| ==> t.rows[i].originalUrl != url
    ensures var (t', r) := Create(t, url, gen);
      r.Ok? ==> && r.value !in Codes(t.rows)
                && t' == Table(t.rows + [Row(t.nextId, url, r.value)], t.nextId + 1)
                && exists k :: 0 <= k < MaxAttempts && r.value == Candidate(gen, k)
                     && forall j :: 0 <= j < k ==> Candidate(gen, j) in Codes(t.rows)
    ensures var (t', r) := Create(t, url, gen);
      r.Err? <==> forall k :: 0 <= k < MaxAttempts ==> Candidate(gen, k) in Codes(t.rows)
    ensures var (t', r) := Create(t, url, gen);
      r.Err? ==> t' == t
  {
  }

  /** A newly generated code is a prefix of a generator output, and has
      exactly `CodeLength` characters when the generator yields at least that many. */
  lemma CreatedCodeShape(t: Table, url: string, gen: nat -> string)
    requires forall i :: 0 <= i < |t.rows| ==> t.rows[i].originalUrl != url
    requires forall k :: 0 <= k < MaxAttempts ==> |gen(k)| >= CodeLength
    ensures var r := Create(t, url, gen).1;
      r.Ok? ==> |r.value| == CodeLength && exists k :: 0 <= k < MaxAttempts && r.value <= gen(k)
  {
  }

  /** `create` keeps the schema's invariants. */
  lemma CreateWellFormed(t: Table, url: string, gen: nat -> string)
    requires WellFormed(t)
    ensures WellFormed(Create(t, url, gen).0)
  {
  }

  /** A second `create` of the same URL, with any generator, returns the
      code of the first and changes nothing. */
  lemma {:induction false} CreateIdempotent(t: Table, url: string, gen: nat -> string, gen': nat -> string)
    ensures var (t1, r1) := Create(t, url, gen);
      r1.Ok? ==> Create(t1, url, gen') == (t1, r1)
  {
    var (t1, r1) := Create(t, url, gen);
    if r1.Ok? && FirstMatch(t.rows, OriginalUrlColumn, url).None? {
      var n := |t.rows|;
      assert t1.rows[n].originalUrl == url;
      var m := FirstMatch(t1.rows, OriginalUrlColumn, url);
      assert m == Some(n);
    }
  }

  /** Resolving the code `create` returns gives back the URL it was given,
      and a new row binds only its own code: every other code keeps its URL. */
  lemma CreateRoundTrip(t: Table, url: string, gen: nat -> string)
    requires WellFormed(t)
    ensures var (t', r) := Create(t, url, gen);
      r.Ok? ==> Mapping(t'.rows) == Mapping(t.rows)[r.value := url]
  {
    var (t', r) := Create(t, url, gen);
    var m := FirstMatch(t.rows, OriginalUrlColumn, url);
    if m.Some? {
      MappingAt(t.rows, m.value);
      MapUpdateSame(Mapping(t.rows), r.value, url, url);
      assert Mapping(t.rows)[r.value := url] == Mapping(t.rows);
    } else if r.Ok? {
      CreateNew(t, url, gen);
      MappingAppend(t.rows, Row(t.nextId, url, r.value));
    }
  }

  /** `create` consults the generator only on its `MaxAttempts` attempts:
      two generators that agree on them give the same outcome. */
  lemma CreateUsesTenCandidates(t: Table, url: string, gen: nat -> string, gen': nat -> string)
    requires forall k :: 0 <= k < MaxAttempts ==> gen(k) == gen'(k)
    ensures Create(t, url, gen) == Create(t, url, gen')
  {
    FirstFreeAttemptAgree(Codes(t.rows), gen, gen', 0);
  }

  lemma {:induction false} FirstFreeAttemptAgree(codes: set<string>, gen: nat -> string, gen': nat -> string, k: nat)
    requires forall j :: k <= j < MaxAttempts ==> gen(j) == gen'(j)
    ensures FirstFreeAttempt(codes, gen, k) == FirstFreeAttempt(codes, gen', k)
    decreases MaxAttempts - k
  {
    if k < MaxAttempts {
      FirstFreeAttemptAgree(codes, gen, gen', k + 1);
    }
  }

  // Properties of update, delete and resolve.

  /** After an update that hit a row, the code resolves to the new URL. */
  lemma UpdateThenResolve(rows: seq<Row>, code: string, url: string)
    requires code in Codes(rows)
    ensures code in Mapping(SetUrlWhereCode(rows, code, url))
    ensures Mapping(SetUrlWhereCode(rows, code, url))[code] == url
  {
    MappingSetUrl(rows, code, url);
  }

  /** After a delete the code no longer resolves, and a second delete of it
      hits no row. */
  lemma DeleteTwice(rows: seq<Row>, code: string)
    ensures code !in Mapping(DeleteWhereCode(rows, code))
    ensures MatchCount(DeleteWhereCode(rows, code), code) == 0
    ensures DeleteWhereCode(DeleteWhereCode(rows, code), code) == DeleteWhereCode(rows, code)
  {
  }

  // The scenarios of tests/test_shortener.py, followed through the
  // contracts above on a fresh table and an arbitrary generator.

  /** Creating a URL twice gives one code, which resolves back to the URL. */
  method ScenarioCreate(gen: nat -> string)
  {
    var db := new Database();
    ghost var empty := db.State();
    assert Codes(empty.rows) == {};
    var x := CreateShortUrl(db, "https://example.com/", gen);
    assert x.Ok?;
    ghost var t1 := db.State();
    CreateIdempotent(empty, "https://example.com/", gen, gen);
    var x' := CreateShortUrl(db, "https://example.com/", gen);
    assert x' == x && db.State() == t1;
    CreateRoundTrip(empty, "https://example.com/", gen);
    assert GetOriginalUrl(db, x.value) == Some("https://example.com/");
  }

  /** A code that was never issued resolves to nothing, and updating or
      deleting it reports false and changes nothing: generated codes have
      at most eight characters, so none equals it. */
  method ScenarioMissingCode(gen: nat -> string)
  {
    var db := new Database();
    assert Codes(db.rows) == {};
    var x := CreateShortUrl(db, "https://example.com/", gen);
    assert db.rows == [Row(1, "https://example.com/", Candidate(gen, 0))];
    var missing := "nonexistentcode";
    assert |Candidate(gen, 0)| <= CodeLength < |missing|;
    assert missing !in Codes(db.rows);
    assert GetOriginalUrl(db, missing) == None;
    var updated := UpdateOriginalUrl(db, missing, "https://example.com/");
    var deleted := DeleteUrl(db, missing);
    assert !updated && !deleted && db.rows == [Row(1, "https://example.com/", Candidate(gen, 0))];
  }

  /** An update redirects the code; a delete makes it unresolvable, and a
      second delete or an update afterwards reports false. */
  method ScenarioUpdateDelete(gen: nat -> string)
  {
    var db := new Database();
    assert Codes(db.rows) == {};
    var y := CreateShortUrl(db, "https://example.com/to-be-updated", gen);
    assert y.Ok?;
    var updated := UpdateOriginalUrl(db, y.value, "https://example.com/updated");
    assert updated;
    assert GetOriginalUrl(db, y.value) == Some("https://example.com/updated");
    var deleted := DeleteUrl(db, y.value);
    assert deleted && GetOriginalUrl(db, y.value) == None;
    deleted := DeleteUrl(db, y.value);
    assert !deleted;
    updated := UpdateOriginalUrl(db, y.value, "https://example.com/");
    assert !updated;
  }
}
