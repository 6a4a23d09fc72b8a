/**
 * What the dashboard computes from the user's two inputs: the genre chosen
 * in the dropdown (whose options and default come from the table) and the
 * free text typed into the game-name search box.
 */
module Filters {
  import opened Wrappers
  import opened Games
  import opened Ranking
  import opened Dedup
  import Views

  const TOP_GENRE_COUNT: nat := 5

  // ---------------------------------------------------------------------
  // Genre dropdown

  /**
   * The dropdown's options: every genre of the table, each once, missing
   * genres left out, in the order in which the genres first appear.
   */
  function GenreOptions(t: Table): (r: seq<string>)
    ensures NoDuplicates(r)
    ensures forall i :: 0 <= i < |r| ==> exists k :: 0 <= k < |t| && t[k].genre == Some(r[i])
    ensures forall k :: 0 <= k < |t| && t[k].genre.Some? ==> t[k].genre.value in r
    ensures forall i, j :: 0 <= i < j < |r| ==>
      FirstIndex(Column(t, GenreOf), Some(r[i])) < FirstIndex(Column(t, GenreOf), Some(r[j]))
  {
    var column := Column(t, GenreOf);
    var r := DistinctPresent(column);
    assert forall i :: 0 <= i < |r| ==> Some(r[i]) in column;
    r
  }

  /**
   * The dropdown's initial value, the first option. A table without any
   * genre has no first option: the lookup fails, shown here as None.
   */
  function DefaultGenre(t: Table): (r: Option<string>)
    ensures r.None? <==> forall k :: 0 <= k < |t| ==> t[k].genre.None?
    ensures r.Some? ==> r.value in GenreOptions(t)
    ensures r.Some? ==> exists k :: 0 <= k < |t| && t[k].genre == r && forall j :: 0 <= j < k ==> t[j].genre.None?
  {
    var options := GenreOptions(t);
    if options == [] then None
    else
      FirstGenreIsDefault(t, options);
      Some(options[0])
  }

  lemma FirstGenreIsDefault(t: Table, options: seq<string>)
    requires options == GenreOptions(t) && options != []
    ensures exists k :: 0 <= k < |t| && t[k].genre == Some(options[0]) && forall j :: 0 <= j < k ==> t[j].genre.None?
  {
    var column := Column(t, GenreOf);
    var k := FirstIndex(column, Some(options[0]));
    forall j | 0 <= j < k ensures t[j].genre.None? {
      assert column[j] == t[j].genre;
    }
  }

  // ---------------------------------------------------------------------
  // Top games of the selected genre

  /**
   * The rows whose genre is exactly g, in table order: each row of genre g
   * as often as the table has it, and no other row.
   */
  function RowsOfGenre(t: Table, g: string): (r: Table)
    ensures multiset(r) <= multiset(t)
    ensures forall i :: 0 <= i < |r| ==> r[i].genre == Some(g)
    ensures forall k :: 0 <= k < |t| && t[k].genre == Some(g) ==> t[k] in r
  {
    if t == [] then []
    else
      assert t == [t[0]] + t[1..];
      var rest := RowsOfGenre(t[1..], g);
      if t[0].genre == Some(g) then [t[0]] + rest else rest
  }

  /** A row of genre g is kept as often as the table has it; any other row never. */
  lemma {:induction false} RowsOfGenreCount(t: Table, g: string, x: Record)
    ensures multiset(RowsOfGenre(t, g))[x] == if x.genre == Some(g) then multiset(t)[x] else 0
  {
    if t != [] {
      assert t == [t[0]] + t[1..];
      RowsOfGenreCount(t[1..], g, x);
    }
  }

  /** The filter works row by row: filtering a concatenation concatenates the filtered parts. */
  lemma {:induction false} RowsOfGenreConcat(a: Table, b: Table, g: string)
    ensures RowsOfGenre(a + b, g) == RowsOfGenre(a, g) + RowsOfGenre(b, g)
  {
    if a == [] {
      assert a + b == b;
    } else {
      var ab := a + b;
      assert ab[0] == a[0] && ab[1..] == a[1..] + b;
      RowsOfGenreConcat(a[1..], b, g);
      var rest, tail := RowsOfGenre(a[1..], g), RowsOfGenre(b, g);
      if a[0].genre == Some(g) {
        assert RowsOfGenre(ab, g) == [a[0]] + (rest + tail);
        assert RowsOfGenre(a, g) == [a[0]] + rest;
        assert [a[0]] + (rest + tail) == ([a[0]] + rest) + tail;
      } else {
        assert RowsOfGenre(ab, g) == rest + tail;
        assert RowsOfGenre(a, g) == rest;
      }
    }
  }

  /**
   * The best-selling games of genre g: at most five, all of genre g, ranked
   * like the global top list, and none of genre g left out that sells more
   * than one kept. A genre no row has gives an empty list, not an error.
   */
  function GenreTop(t: Table, g: string): (r: Table)
    ensures |r| == Min(TOP_GENRE_COUNT, |RowsOfGenre(t, g)|)
    ensures multiset(r) <= multiset(t)
    ensures forall i :: 0 <= i < |r| ==> r[i].genre == Some(g)
    ensures forall i, j :: 0 <= i < j < |r| && r[j].globalSales.Some? ==>
      r[i].globalSales.Some? && r[i].globalSales.value >= r[j].globalSales.value
    ensures forall i, x :: 0 <= i < |r| && x in multiset(RowsOfGenre(t, g)) - multiset(r) && x.globalSales.Some? ==>
      r[i].globalSales.Some? && r[i].globalSales.value >= x.globalSales.value
    ensures (forall k :: 0 <= k < |t| ==> t[k].genre != Some(g)) ==> r == []
  {
    var rows := RowsOfGenre(t, g);
    var r := Top(rows, TOP_GENRE_COUNT, GlobalSalesKey);
    GenreRanked(t, g, rows, r);
    r
  }

  lemma GenreRanked(t: Table, g: string, rows: Table, r: Table)
    requires rows == RowsOfGenre(t, g)
    requires multiset(r) <= multiset(rows) && SortedBy(r, GlobalSalesKey)
    requires forall i, x :: 0 <= i < |r| && x in multiset(rows) - multiset(r) ==>
      Before(GlobalSalesKey(r[i]), GlobalSalesKey(x))
    ensures multiset(r) <= multiset(t)
    ensures forall i :: 0 <= i < |r| ==> r[i].genre == Some(g)
    ensures forall i, j :: 0 <= i < j < |r| && r[j].globalSales.Some? ==>
      r[i].globalSales.Some? && r[i].globalSales.value >= r[j].globalSales.value
    ensures forall i, x :: 0 <= i < |r| && x in multiset(rows) - multiset(r) && x.globalSales.Some? ==>
      r[i].globalSales.Some? && r[i].globalSales.value >= x.globalSales.value
    ensures (forall k :: 0 <= k < |t| ==> t[k].genre != Some(g)) ==> r == []
  {
    Views.RankedBySales(rows, r);
    DrawnFrom(rows, r);
    DrawnFrom(t, rows);
    if r != [] {
      assert r[0] in rows;
      var k :| 0 <= k < |t| && t[k] == r[0];
    }
  }

  // ---------------------------------------------------------------------
  // Game-name search

  /** ASCII lower case; other characters are left as they are. */
  function Lower(c: char): char
  {
    if 'A' <= c <= 'Z' then (c as int + 32) as char else c
  }

  function Upper(c: char): char
  {
    if 'a' <= c <= 'z' then (c as int - 32) as char else c
  }

  function LowerText(s: string): (r: string)
    ensures |r| == |s| && forall i :: 0 <= i < |s| ==> r[i] == Lower(s[i])
  {
    seq(|s|, i requires 0 <= i < |s| => Lower(s[i]))
  }

  function UpperText(s: string): (r: string)
    ensures |r| == |s| && forall i :: 0 <= i < |s| ==> r[i] == Upper(s[i])
  {
    seq(|s|, i requires 0 <= i < |s| => Upper(s[i]))
  }

  /** pattern occurs in text at position i. */
  predicate OccursAt(text: string, pattern: string, i: nat)
  {
    i + |pattern| <= |text| && text[i..i + |pattern|] == pattern
  }

  /** Whether pattern occurs anywhere in text, by trying each start position in turn. */
  function Contains(text: string, pattern: string): (b: bool)
    ensures b <==> exists i :: 0 <= i <= |text| && OccursAt(text, pattern, i)
    decreases |text|
  {
    if |pattern| <= |text| && text[..|pattern|] == pattern then
      assert OccursAt(text, pattern, 0);
      true
    else if text == [] then
      false
    else
      var b := Contains(text[1..], pattern);
      ShiftOccurrence(text, pattern);
      assert b ==> exists i :: 0 <= i <= |text| && OccursAt(text, pattern, i) by {
        if b {
          var i :| 0 <= i <= |text[1..]| && OccursAt(text[1..], pattern, i);
          assert OccursAt(text, pattern, i + 1);
        }
      }
      assert (exists i :: 0 <= i <= |text| && OccursAt(text, pattern, i)) ==> b by {
        if exists i :: 0 <= i <= |text| && OccursAt(text, pattern, i) {
          var i :| 0 <= i <= |text| && OccursAt(text, pattern, i);
          assert i != 0;
          assert OccursAt(text[1..], pattern, i - 1);
        }
      }
      b
  }

  lemma ShiftOccurrence(text: string, pattern: string)
    requires text != []
    ensures forall i :: 0 <= i < |text| ==> (OccursAt(text[1..], pattern, i) <==> OccursAt(text, pattern, i + 1))
  {
    forall i | 0 <= i < |text| ensures OccursAt(text[1..], pattern, i) <==> OccursAt(text, pattern, i + 1) {
      if i + 1 + |pattern| <= |text| {
        assert text[1..][i..i + |pattern|] == text[i + 1..i + 1 + |pattern|];
      }
    }
  }

  /** A row matches when it has a name containing the query, ignoring ASCII case. */
  predicate NameMatches(r: Record, query: string)
  {
    r.name.Some? && Contains(LowerText(r.name.value), LowerText(query))
  }

  /**
   * The rows the search mask keeps, in table order. What it keeps is stated
   * by the lemmas that follow: MatchesMembers, MatchesCount, MatchesConcat
   * and FirstMatch.
   */
  function Matches(t: Table, query: string): Table
  {
    if t == [] then []
    else
      var rest := Matches(t[1..], query);
      if NameMatches(t[0], query) then [t[0]] + rest else rest
  }

  /** Every kept row matches and comes from the table; every matching row is kept. */
  lemma {:induction false} MatchesMembers(t: Table, query: string)
    ensures forall i :: 0 <= i < |Matches(t, query)| ==>
      NameMatches(Matches(t, query)[i], query) && Matches(t, query)[i] in t
    ensures forall k :: 0 <= k < |t| && NameMatches(t[k], query) ==> t[k] in Matches(t, query)
  {
    if t != [] {
      MatchesMembers(t[1..], query);
      MatchesStep(t, query, Matches(t[1..], query));
    }
  }

  /** A matching row is kept as often as the table has it; any other row never. */
  lemma {:induction false} MatchesCount(t: Table, query: string, x: Record)
    ensures multiset(Matches(t, query))[x] == if NameMatches(x, query) then multiset(t)[x] else 0
  {
    if t != [] {
      assert t == [t[0]] + t[1..];
      MatchesCount(t[1..], query, x);
    }
  }

  /** Like the genre filter, the search mask works row by row. */
  lemma {:induction false} MatchesConcat(a: Table, b: Table, query: string)
    ensures Matches(a + b, query) == Matches(a, query) + Matches(b, query)
  {
    if a == [] {
      assert a + b == b;
    } else {
      var ab := a + b;
      assert ab[0] == a[0] && ab[1..] == a[1..] + b;
      MatchesConcat(a[1..], b, query);
      var rest, tail := Matches(a[1..], query), Matches(b, query);
      if NameMatches(a[0], query) {
        assert Matches(ab, query) == [a[0]] + (rest + tail);
        assert Matches(a, query) == [a[0]] + rest;
        assert [a[0]] + (rest + tail) == ([a[0]] + rest) + tail;
      } else {
        assert Matches(ab, query) == rest + tail;
        assert Matches(a, query) == rest;
      }
    }
  }

  lemma MatchesStep(t: Table, query: string, rest: Table)
    requires t != []
    requires forall i :: 0 <= i < |rest| ==> NameMatches(rest[i], query) && rest[i] in t[1..]
    requires forall k :: 0 <= k < |t[1..]| && NameMatches(t[1..][k], query) ==> t[1..][k] in rest
    ensures var r := if NameMatches(t[0], query) then [t[0]] + rest else rest;
      && (forall i :: 0 <= i < |r| ==> NameMatches(r[i], query) && r[i] in t)
      && (forall k :: 0 <= k < |t| && NameMatches(t[k], query) ==> t[k] in r)
  {
    assert t == [t[0]] + t[1..];
    forall k | 1 <= k < |t| ensures t[k] == t[1..][k - 1] {}
  }

  /** The first match is the first row of the table that matches. */
  lemma {:induction false} FirstMatch(t: Table, query: string)
    requires Matches(t, query) != []
    ensures exists k :: 0 <= k < |t| && t[k] == Matches(t, query)[0] && forall j :: 0 <= j < k ==> !NameMatches(t[j], query)
  {
    if NameMatches(t[0], query) {
      assert t[0] == Matches(t, query)[0];
    } else {
      FirstMatch(t[1..], query);
      var k :| 0 <= k < |t[1..]| && t[1..][k] == Matches(t[1..], query)[0] &&
        forall j :: 0 <= j < k ==> !NameMatches(t[1..][j], query);
      forall j | 1 <= j < k + 1 ensures t[j] == t[1..][j - 1] {}
      assert t[k + 1] == Matches(t, query)[0];
    }
  }

  /** The three things the search area can show. */
  datatype SearchOutcome = NoQuery | NotFound | Found(game: Record)

  /**
   * The search: no query (absent or empty) is its own outcome; otherwise
   * the first row in table order whose name contains the query, ignoring
   * case, or "not found" when there is none.
   */
  function Search(t: Table, query: Option<string>): (o: SearchOutcome)
    ensures o.NoQuery? <==> query.None? || query.value == ""
    ensures o.NotFound? <==> query.Some? && query.value != "" && forall k :: 0 <= k < |t| ==> !NameMatches(t[k], query.value)
    ensures o.Found? ==> query.Some? && exists k :: (0 <= k < |t| && t[k] == o.game && NameMatches(t[k], query.value) &&
      forall j :: 0 <= j < k ==> !NameMatches(t[j], query.value))
  {
    match query
    case None => NoQuery
    case Some(q) =>
      if q == "" then NoQuery
      else
        var details := Matches(t, q);
        MatchesMembers(t, q);
        if details == [] then NotFound
        else
          FirstMatch(t, q);
          Found(details[0])
  }

  /** Queries that agree up to ASCII case give the same outcome. */
  lemma SearchIgnoresCase(t: Table, q1: string, q2: string)
    requires LowerText(q1) == LowerText(q2)
    ensures Search(t, Some(q1)) == Search(t, Some(q2))
  {
    assert |q1| == |q2|;
    assert forall r :: NameMatches(r, q1) == NameMatches(r, q2);
    MatchesIgnoreCase(t, q1, q2);
  }

  lemma {:induction false} MatchesIgnoreCase(t: Table, q1: string, q2: string)
    requires LowerText(q1) == LowerText(q2)
    ensures Matches(t, q1) == Matches(t, q2)
  {
    if t != [] {
      MatchesIgnoreCase(t[1..], q1, q2);
    }
  }

  /** "MARIO" finds what "mario" finds: upper-casing a query does not change the outcome. */
  lemma UpperCaseQuery(t: Table, q: string)
    ensures Search(t, Some(UpperText(q))) == Search(t, Some(q))
  {
    assert LowerText(UpperText(q)) == LowerText(q);
    SearchIgnoresCase(t, UpperText(q), q);
  }

  /** A row without a name never matches, whatever the query. */
  lemma NamelessNeverMatches(t: Table, q: string, k: nat)
    requires k < |t| && t[k].name.None?
    ensures t[k] !in Matches(t, q) && Search(t, Some(q)) != Found(t[k])
  {
    MatchesMembers(t, q);
  }
}
