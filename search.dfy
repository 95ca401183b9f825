/** `search_images` of both scripts, as a function of the table: the query
    is lower-cased and split on ',', every term is stripped, and a row is
    found when some term equals one of the comma-separated tokens of the
    searched column exactly. */
module Search {
  import opened Text
  import opened Records

  /** The query terms before stripping: `query.lower().split(',')`. */
  function Terms(query: string): (terms: seq<string>)
    ensures |terms| >= 1
  {
    Split(Lower(query), ',')
  }

  /** The tokens of a stored column value: `value.split(',')`, unstripped
      and with their case kept. */
  function Tokens(row: Record, column: Column): seq<string> {
    Split(Field(row, column), ',')
  }

  /** Some stripped term from `terms` is one of `tokens`, the terms tried
      in order. */
  predicate AnyTermIn(terms: seq<string>, tokens: seq<string>) {
    terms != [] && (Strip(terms[0]) in tokens || AnyTermIn(terms[1..], tokens))
  }

  lemma {:induction false} AnyTermInExists(terms: seq<string>, tokens: seq<string>)
    ensures AnyTermIn(terms, tokens) <==> exists k :: 0 <= k < |terms| && Strip(terms[k]) in tokens
  {
    if terms != [] {
      AnyTermInExists(terms[1..], tokens);
      if Strip(terms[0]) !in tokens {
        forall k | 0 <= k < |terms| && Strip(terms[k]) in tokens ensures 1 <= k && Strip(terms[1..][k - 1]) in tokens {
        }
      }
    }
  }

  /** The row is found: some stripped query term is one of its tokens. */
  predicate RowMatches(row: Record, column: Column, terms: seq<string>) {
    AnyTermIn(terms, Tokens(row, column))
  }

  /** The positions of the rows among the first `n` that match, ascending. */
  function MatchIndices(table: seq<Record>, column: Column, terms: seq<string>, n: nat): seq<nat>
    requires n <= |table|
  {
    if n == 0 then []
    else MatchIndices(table, column, terms, n - 1) + (if RowMatches(table[n - 1], column, terms) then [n - 1] else [])
  }

  /** The rows among the first `n` that match, in table order. */
  function Matches(table: seq<Record>, column: Column, terms: seq<string>, n: nat): seq<Record>
    requires n <= |table|
  {
    if n == 0 then []
    else Matches(table, column, terms, n - 1) + (if RowMatches(table[n - 1], column, terms) then [table[n - 1]] else [])
  }

  /** The matches are found in table order, each row at most once: the
      positions increase strictly, and a position is listed exactly when
      its row matches. */
  lemma MatchIndicesExact(table: seq<Record>, column: Column, terms: seq<string>, n: nat)
    requires n <= |table|
    ensures forall a, b :: 0 <= a < b < |MatchIndices(table, column, terms, n)| ==>
      MatchIndices(table, column, terms, n)[a] < MatchIndices(table, column, terms, n)[b]
    ensures forall a :: 0 <= a < |MatchIndices(table, column, terms, n)| ==> MatchIndices(table, column, terms, n)[a] < n
    ensures forall i :: 0 <= i < n ==> (i in MatchIndices(table, column, terms, n) <==> RowMatches(table[i], column, terms))
  {
    MatchIndicesAscending(table, column, terms, n);
    MatchIndicesListMatches(table, column, terms, n);
  }

  lemma {:induction false} MatchIndicesAscending(table: seq<Record>, column: Column, terms: seq<string>, n: nat)
    requires n <= |table|
    ensures forall a, b :: 0 <= a < b < |MatchIndices(table, column, terms, n)| ==>
      MatchIndices(table, column, terms, n)[a] < MatchIndices(table, column, terms, n)[b]
    ensures forall a :: 0 <= a < |MatchIndices(table, column, terms, n)| ==> MatchIndices(table, column, terms, n)[a] < n
  {
    if n > 0 {
      MatchIndicesAscending(table, column, terms, n - 1);
      var prev := MatchIndices(table, column, terms, n - 1);
      assert forall a :: 0 <= a < |prev| ==> prev[a] < n - 1;
    }
  }

  lemma {:induction false} MatchIndicesListMatches(table: seq<Record>, column: Column, terms: seq<string>, n: nat)
    requires n <= |table|
    ensures forall i :: 0 <= i < n ==> (i in MatchIndices(table, column, terms, n) <==> RowMatches(table[i], column, terms))
  {
    if n > 0 {
      MatchIndicesListMatches(table, column, terms, n - 1);
      MatchIndicesAscending(table, column, terms, n - 1);
      var prev := MatchIndices(table, column, terms, n - 1);
      var last: seq<nat> := if RowMatches(table[n - 1], column, terms) then [n - 1] else [];
      assert MatchIndices(table, column, terms, n) == prev + last;
      forall i | 0 <= i < n
        ensures i in MatchIndices(table, column, terms, n) <==> RowMatches(table[i], column, terms)
      {
        assert i in prev + last <==> i in prev || i in last;
        if i == n - 1 {
          assert i !in prev;
        }
      }
    }
  }

  /** The rows returned are the rows at the matching positions, in that order. */
  lemma {:induction false} MatchesAtIndices(table: seq<Record>, column: Column, terms: seq<string>, n: nat)
    requires n <= |table|
    ensures |Matches(table, column, terms, n)| == |MatchIndices(table, column, terms, n)|
    ensures forall a :: 0 <= a < |MatchIndices(table, column, terms, n)| ==>
      MatchIndices(table, column, terms, n)[a] < |table|
      && Matches(table, column, terms, n)[a] == table[MatchIndices(table, column, terms, n)[a]]
  {
    if n > 0 {
      MatchIndicesAscending(table, column, terms, n - 1);
      MatchesAtIndices(table, column, terms, n - 1);
    }
  }

  /** What a search over the whole table returns for `query`. */
  function Search(table: seq<Record>, column: Column, query: string): seq<Record> {
    Matches(table, column, Terms(query), |table|)
  }

  /** A stored token holding an upper-case letter is never found: every
      query term is lower-cased before it is compared. */
  lemma UppercaseTokenNeverMatches(query: string, token: string, c: char)
    requires c in token && IsUpper(c)
    ensures forall k :: 0 <= k < |Terms(query)| ==> Strip(Terms(query)[k]) != token
  {
    LowerHasNoUpper(query);
    SplitPieces(Lower(query), ',');
    forall k | 0 <= k < |Terms(query)| ensures Strip(Terms(query)[k]) != token {
      var term := Terms(query)[k];
      assert term in Terms(query);
      StripKeepsCharacters(term);
      assert c !in Strip(term);
    }
  }

  /** Hence a row whose every token holds an upper-case letter is never found. */
  lemma UppercaseRowNeverFound(row: Record, column: Column, query: string)
    requires forall p :: p in Tokens(row, column) ==> exists c :: c in p && IsUpper(c)
    ensures !RowMatches(row, column, Terms(query))
  {
    AnyTermInExists(Terms(query), Tokens(row, column));
    if RowMatches(row, column, Terms(query)) {
      var k :| 0 <= k < |Terms(query)| && Strip(Terms(query)[k]) in Tokens(row, column);
      var c :| c in Strip(Terms(query)[k]) && IsUpper(c);
      UppercaseTokenNeverMatches(query, Strip(Terms(query)[k]), c);
    }
  }

  lemma DogParkTokens(row: Record)
    requires row.imageKeywords == "dog,park"
    ensures Tokens(row, KeywordsColumn) == ["dog", "park"]
  {
    assert "dog,park" == "dog" + [','] + "park";
    SplitAfterPiece("dog", "park", ',');
    SplitNoSeparator("park", ',');
  }

  /** Keywords stored as `dog,park` are found by the query `Dog`. */
  lemma DogFound(row: Record)
    requires row.imageKeywords == "dog,park"
    ensures RowMatches(row, KeywordsColumn, Terms("Dog"))
  {
    DogParkTokens(row);
    assert Lower("Dog") == "dog" by {
      assert "Dog" == ['D'] + "og";
      LowerUnchanged("og");
    }
    SingleTerm("dog");
  }

  /** A lower-case query without ',' or surrounding whitespace is one term. */
  lemma SingleTerm(query: string)
    requires ',' !in query && (forall k :: 0 <= k < |query| ==> !IsUpper(query[k]))
    requires query == [] || (!IsSpace(query[0]) && !IsSpace(query[|query| - 1]))
    ensures Terms(query) == [query]
    ensures Strip(Terms(query)[0]) == query
  {
    LowerUnchanged(query);
    SplitNoSeparator(query, ',');
    StripUnpadded(query);
  }

  /** Tokens are compared whole: the query `doggo` does not find `dog,park`. */
  lemma DoggoNotFound(row: Record)
    requires row.imageKeywords == "dog,park"
    ensures !RowMatches(row, KeywordsColumn, Terms("doggo"))
  {
    DogParkTokens(row);
    SingleTerm("doggo");
    assert |"doggo"| == 5 && |Tokens(row, KeywordsColumn)[0]| == 3 && |Tokens(row, KeywordsColumn)[1]| == 4;
    assert !AnyTermIn(Terms("doggo")[1..], Tokens(row, KeywordsColumn));
  }

  /** An empty query is one empty term, which finds every row with an empty
      token (an empty column value, say). */
  lemma EmptyQueryFindsEmptyToken(row: Record, column: Column)
    requires [] in Tokens(row, column)
    ensures Terms("") == [""]
    ensures RowMatches(row, column, Terms(""))
  {
    assert Strip(Terms("")[0]) == [];
  }
}
