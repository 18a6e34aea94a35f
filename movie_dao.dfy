/**
 * The Room DAO over the MovieEntity table: a bulk insert that replaces rows
 * on primary-key conflict, two filtered reads, a count and a clear-all.
 */
module MovieDao {
  import opened MovieEntities
  import opened SqliteText

  /** The table contents, indexed by primary key. */
  type Table = map<string, MovieEntity>

  /** Every row is stored under its own primary key. */
  predicate Keyed(t: Table)
  {
    forall k :: k in t ==> t[k].imdbID == k
  }

  /**
   * The filter `year > 2000`. `year` is a TEXT column and the literal has no
   * affinity, so the literal is converted to the text '2000' and the two are
   * compared as text, not as numbers.
   */
  predicate YearPasses(year: string)
    ensures YearPasses(year) <==> TextLe("2000", year) && year != "2000"
  {
    TextLtIsStrict("2000", year);
    TextLt("2000", year)
  }

  /**
   * Text comparison decides on the first character unless it is '2': any
   * year starting above '2' passes and any starting below fails, whatever
   * its length.
   */
  lemma YearFilterByFirstChar(year: string)
    requires year != []
    ensures year[0] > '2' ==> YearPasses(year)
    ensures year[0] < '2' ==> !YearPasses(year)
  {
  }

  /** Textual comparison lets through years a numeric comparison would not, and the other way round. */
  lemma YearFilterIsTextual()
    ensures YearPasses("2001") && YearPasses("2010–2015")
    ensures !YearPasses("2000") && !YearPasses("1999")
    ensures YearPasses("999") && YearPasses("N/A")
    ensures !YearPasses("10000")
  {
  }

  // ---------------------------------------------------------------------
  // insertAll with OnConflictStrategy.REPLACE

  /** One row inserted with REPLACE: a row with the same primary key is overwritten. */
  function Upsert(t: Table, e: MovieEntity): (r: Table)
    ensures r.Keys == t.Keys + {e.imdbID}
    ensures r[e.imdbID] == e
    ensures forall k :: k in t && k != e.imdbID ==> r[k] == t[k]
  {
    t[e.imdbID := e]
  }

  /** The rows of `ms` inserted one after the other, first to last. */
  function UpsertAll(t: Table, ms: seq<MovieEntity>): (r: Table)
    ensures t.Keys <= r.Keys
    ensures ms != [] ==> ms[|ms| - 1].imdbID in r && r[ms[|ms| - 1].imdbID] == ms[|ms| - 1]
    decreases |ms|
  {
    if ms == [] then t else Upsert(UpsertAll(t, ms[..|ms| - 1]), ms[|ms| - 1])
  }

  /** An id that occurs in the batch ends up holding the LAST entity of the batch with that id. */
  lemma {:induction false} UpsertAllLastWins(t: Table, ms: seq<MovieEntity>, i: nat)
    requires i < |ms|
    requires forall j :: i < j < |ms| ==> ms[j].imdbID != ms[i].imdbID
    ensures ms[i].imdbID in UpsertAll(t, ms)
    ensures UpsertAll(t, ms)[ms[i].imdbID] == ms[i]
  {
    if i < |ms| - 1 {
      UpsertAllLastWins(t, ms[..|ms| - 1], i);
    }
  }

  /** An id that does not occur in the batch keeps its row, or stays absent. */
  lemma {:induction false} UpsertAllKeepsOthers(t: Table, ms: seq<MovieEntity>, k: string)
    requires forall j :: 0 <= j < |ms| ==> ms[j].imdbID != k
    ensures k in UpsertAll(t, ms) <==> k in t
    ensures k in t ==> UpsertAll(t, ms)[k] == t[k]
  {
    if ms != [] {
      UpsertAllKeepsOthers(t, ms[..|ms| - 1], k);
    }
  }

  /** After the batch the table holds exactly its old keys and the ids of the batch. */
  lemma {:induction false} UpsertAllKeys(t: Table, ms: seq<MovieEntity>)
    ensures UpsertAll(t, ms).Keys == t.Keys + set e | e in ms :: e.imdbID
  {
    if ms == [] {
      assert (set e | e in ms :: e.imdbID) == {};
    } else {
      var init, last := ms[..|ms| - 1], ms[|ms| - 1];
      UpsertAllKeys(t, init);
      assert ms == init + [last];
      assert (set e | e in ms :: e.imdbID) == (set e | e in init :: e.imdbID) + {last.imdbID};
    }
  }

  /** REPLACE keeps every row under its own key. */
  lemma {:induction false} UpsertAllKeyed(t: Table, ms: seq<MovieEntity>)
    requires Keyed(t)
    ensures Keyed(UpsertAll(t, ms))
  {
    if ms != [] {
      UpsertAllKeyed(t, ms[..|ms| - 1]);
    }
  }

  /** Inserting never removes a row, so the count never goes down. */
  lemma {:induction false} UpsertAllGrows(t: Table, ms: seq<MovieEntity>)
    ensures |t| <= |UpsertAll(t, ms)|
    ensures |UpsertAll(t, ms)| <= |t| + |ms|
  {
    if ms != [] {
      UpsertAllGrows(t, ms[..|ms| - 1]);
    }
  }

  // ---------------------------------------------------------------------
  // The two reads

  /** No element occurs twice. */
  predicate Distinct(ks: seq<string>)
  {
    forall i, j :: 0 <= i < j < |ks| ==> ks[i] != ks[j]
  }

  /**
   * Some listing of the keys: the order in which the engine happens to
   * visit the rows, which the query does not fix.
   */
  ghost function Enumerate(ks: set<string>): (r: seq<string>)
    ensures forall k :: k in r <==> k in ks
    ensures Distinct(r)
  {
    if ks == {} then []
    else
      var k :| k in ks;
      [k] + Enumerate(ks - {k})
  }

  /** The rows at the listed keys that pass the year filter, in listing order. */
  function RowsPassing(t: Table, ks: seq<string>): (r: seq<MovieEntity>)
    requires forall k :: k in ks ==> k in t
    ensures |r| <= |ks|
    ensures forall x :: x in r ==> x in t.Values && YearPasses(x.year)
  {
    if ks == [] then []
    else
      assert ks == [ks[0]] + ks[1..];
      (if YearPasses(t[ks[0]].year) then [t[ks[0]]] else []) + RowsPassing(t, ks[1..])
  }

  /** How often a row should be returned: once if it is stored at a listed key and passes the filter. */
  function PassingCount(t: Table, ks: seq<string>, e: MovieEntity): (n: nat)
    requires forall k :: k in ks ==> k in t
  {
    if e.imdbID in ks && t[e.imdbID] == e && YearPasses(e.year) then 1 else 0
  }

  /** Over distinct keys, every passing row at a listed key is returned exactly once, and nothing else. */
  lemma {:induction false} RowsPassingCounts(t: Table, ks: seq<string>)
    requires Keyed(t)
    requires forall k :: k in ks ==> k in t
    requires Distinct(ks)
    ensures forall e :: multiset(RowsPassing(t, ks))[e] == PassingCount(t, ks, e)
  {
    if ks != [] {
      var rest := ks[1..];
      assert Distinct(rest) by {
        forall i, j | 0 <= i < j < |rest| ensures rest[i] != rest[j] {
          assert rest[i] == ks[i + 1] && rest[j] == ks[j + 1];
        }
      }
      assert ks[0] !in rest by {
        forall j | 0 <= j < |rest| ensures rest[j] != ks[0] {
          assert rest[j] == ks[j + 1];
        }
      }
      RowsPassingCounts(t, rest);
      forall e ensures multiset(RowsPassing(t, ks))[e] == PassingCount(t, ks, e) {
        assert e.imdbID in ks <==> e.imdbID == ks[0] || e.imdbID in rest by {
          assert ks == [ks[0]] + rest;
        }
      }
    }
  }

  /** Non-decreasing `year`, in text order: what `ORDER BY year ASC` promises. */
  ghost predicate SortedByYear(s: seq<MovieEntity>)
  {
    forall i, j :: 0 <= i < j < |s| ==> TextLe(s[i].year, s[j].year)
  }

  /** `e` inserted before the first row whose year it does not exceed. */
  function InsertByYear(e: MovieEntity, s: seq<MovieEntity>): (r: seq<MovieEntity>)
    ensures multiset(r) == multiset(s) + multiset{e}
  {
    if s == [] then [e]
    else if TextLe(e.year, s[0].year) then [e] + s
    else
      assert s == [s[0]] + s[1..];
      [s[0]] + InsertByYear(e, s[1..])
  }

  /** Insertion sort by year. */
  function SortByYear(s: seq<MovieEntity>): (r: seq<MovieEntity>)
    ensures multiset(r) == multiset(s)
  {
    if s == [] then []
    else
      assert s == [s[0]] + s[1..];
      InsertByYear(s[0], SortByYear(s[1..]))
  }

  /** A row whose year is at most every year of a sorted result can go in front of it. */
  lemma ConsSorted(x: MovieEntity, r: seq<MovieEntity>)
    requires SortedByYear(r)
    requires forall y :: y in r ==> TextLe(x.year, y.year)
    ensures SortedByYear([x] + r)
  {
    var full := [x] + r;
    forall i, j | 0 <= i < j < |full| ensures TextLe(full[i].year, full[j].year) {
      assert full[j] == r[j - 1];
      if i > 0 {
        assert full[i] == r[i - 1];
      }
    }
  }

  lemma {:induction false} InsertByYearSorted(e: MovieEntity, s: seq<MovieEntity>)
    requires SortedByYear(s)
    ensures SortedByYear(InsertByYear(e, s))
  {
    if s == [] {
    } else if TextLe(e.year, s[0].year) {
      forall y | y in s ensures TextLe(e.year, y.year) {
        var j :| 0 <= j < |s| && s[j] == y;
        if j > 0 {
          TextLeTransitive(e.year, s[0].year, s[j].year);
        }
      }
      ConsSorted(e, s);
    } else {
      var rest := s[1..];
      InsertByYearSorted(e, rest);
      var r := InsertByYear(e, rest);
      TextLeTotal(e.year, s[0].year);
      forall x | x in r ensures TextLe(s[0].year, x.year) {
        assert x in multiset(r);
        if x != e {
          assert x in rest;
        }
      }
      ConsSorted(s[0], r);
    }
  }

  lemma {:induction false} SortByYearSorted(s: seq<MovieEntity>)
    ensures SortedByYear(SortByYear(s))
  {
    if s != [] {
      SortByYearSorted(s[1..]);
      InsertByYearSorted(s[0], SortByYear(s[1..]));
    }
  }

  // ---------------------------------------------------------------------
  // The table

  class MovieTable {
    var rows: Table

    ghost predicate Valid()
      reads this
    {
      Keyed(rows)
    }

    /** The entity is the row stored under its primary key. */
    predicate Stored(e: MovieEntity)
      reads this
    {
      e.imdbID in rows && rows[e.imdbID] == e
    }

    constructor ()
      ensures Valid() && rows == map[]
    {
      rows := map[];
    }

    /** insertAll: the rows inserted one by one, each replacing a stored row with its primary key. */
    method InsertAll(movies: seq<MovieEntity>)
      requires Valid()
      modifies this
      ensures Valid()
      ensures rows == UpsertAll(old(rows), movies)
      ensures GetCount() >= old(GetCount())
    {
      var i := 0;
      while i < |movies|
        invariant 0 <= i <= |movies|
        invariant rows == UpsertAll(old(rows), movies[..i])
      {
        assert movies[..i + 1][..i] == movies[..i];
        rows := rows[movies[i].imdbID := movies[i]];
        i := i + 1;
      }
      assert movies[..|movies|] == movies;
      UpsertAllKeyed(old(rows), movies);
      UpsertAllGrows(old(rows), movies);
    }

    /** clearAll: DELETE FROM MovieEntity. */
    method ClearAll()
      modifies this
      ensures Valid() && rows == map[]
      ensures GetCount() == 0
    {
      rows := map[];
    }

    /** getCount: SELECT COUNT(*), the number of distinct primary keys stored. */
    function GetCount(): (n: nat)
      reads this
      requires Valid()
      ensures n == |set e | e in rows.Values :: e.imdbID|
    {
      IdsAreKeys(rows);
      |rows|
    }

    /** getMovies: the rows with year > 2000, each once, in no promised order. */
    ghost function GetMovies(): (r: seq<MovieEntity>)
      reads this
      requires Valid()
      ensures forall e :: multiset(r)[e] == if Stored(e) && YearPasses(e.year) then 1 else 0
      ensures forall e :: e in r <==> Stored(e) && YearPasses(e.year)
    {
      var ks := Enumerate(rows.Keys);
      RowsPassingCounts(rows, ks);
      RowsPassing(rows, ks)
    }

    /** getSortedMovies: the same rows as getMovies, ordered by year ascending. */
    ghost function GetSortedMovies(): (r: seq<MovieEntity>)
      reads this
      requires Valid()
      ensures multiset(r) == multiset(GetMovies())
      ensures forall e :: e in r <==> Stored(e) && YearPasses(e.year)
      ensures SortedByYear(r)
    {
      SortByYearSorted(GetMovies());
      SortByYear(GetMovies())
    }
  }

  /** Under Keyed, the ids carried by the rows are exactly the keys. */
  lemma IdsAreKeys(t: Table)
    requires Keyed(t)
    ensures (set e | e in t.Values :: e.imdbID) == t.Keys
  {
  }

  /**
   * A stored row that fails the year filter still counts toward getCount
   * but neither read returns it.
   */
  lemma FilteredOutRowStillCounted(table: MovieTable, e: MovieEntity)
    requires table.Valid() && table.Stored(e) && !YearPasses(e.year)
    ensures e.imdbID in (set x | x in table.rows.Values :: x.imdbID)
    ensures e !in table.GetMovies() && e !in table.GetSortedMovies()
  {
  }
}
