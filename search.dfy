/** The search-and-sort logic of scripts/utils/initSearchAndSort.js; its
    search half is the same code as scripts/utils/initSearch.js. */
module Search {
  import opened Seqs
  import opened Text
  import opened Sorting
  import opened Photos

  // ---------------------------------------------------------------------------
  // extractYear

  /** The year of a date when it is exactly four digits, '' otherwise. */
  function ExtractYear(date: string): (y: string)
    ensures y == "" || (|y| == 4 && AllDigits(y) && y == YearOfDate(date))
    ensures y == "" <==> !(|YearOfDate(date)| == 4 && AllDigits(YearOfDate(date)))
  {
    if date == "" then ""
    else
      var year := YearOfDate(date);
      if |year| == 4 && AllDigits(year) then year else ""
  }

  /** A four-digit year, alone or followed by '-' and more, is extracted as is. */
  lemma ExtractYearOfYear(y: string, tail: string)
    requires |y| == 4 && AllDigits(y)
    requires tail == "" || tail[0] == '-'
    ensures ExtractYear(y + tail) == y
  {
    YearOfPrefix(y, tail);
  }

  // ---------------------------------------------------------------------------
  // The search index

  /** A photo with its lower-case search text (`{ ...photo, search }`). */
  datatype Indexed = Indexed(photo: Photo, search: string)

  /** The values joined into the search text, in order. */
  function SearchFields(p: Photo): seq<string> {
    [p.country, p.region, ExtractYear(p.year), Join(p.tags, " "), p.description]
  }

  function SearchText(p: Photo): string {
    Lower(Join(SearchFields(p), " "))
  }

  /** The words a query may hit: country, region, year, every tag, description. */
  function SearchWords(p: Photo): seq<string> {
    [p.country, p.region, ExtractYear(p.year)] + p.tags + [p.description]
  }

  /** `indexedPhotos`: one entry per photo, in catalog order. */
  function BuildIndex(photos: seq<Photo>): (r: seq<Indexed>)
    ensures |r| == |photos|
    ensures forall i :: 0 <= i < |photos| ==> r[i].photo == photos[i] && r[i].search == SearchText(photos[i])
    ensures forall i :: 0 <= i < |photos| ==> IsLower(r[i].search)
  {
    forall p: Photo ensures IsLower(SearchText(p)) {
      LowerIdempotent(Join(SearchFields(p), " "));
    }
    seq(|photos|, i requires 0 <= i < |photos| => Indexed(photos[i], SearchText(photos[i])))
  }

  /** A word without white space occurs in a photo's search text exactly when
      it occurs, case-folded, inside one of the photo's searchable values. */
  lemma SearchTextWords(p: Photo, t: string)
    requires t != [] && NoSpace(t)
    ensures IsInfix(t, SearchText(p)) <==> exists f :: f in SearchWords(p) && IsInfix(t, Lower(f))
  {
    if IsInfix(t, SearchText(p)) {
      var f := WordInSearchText(p, t);
    }
    if f :| f in SearchWords(p) && IsInfix(t, Lower(f)) {
      SearchWordInText(p, f);
      InfixTransitive(t, Lower(f), SearchText(p));
    }
  }

  /** Where a word of the search text comes from. */
  lemma WordInSearchText(p: Photo, t: string) returns (f: string)
    requires t != [] && NoSpace(t) && IsInfix(t, SearchText(p))
    ensures f in SearchWords(p) && IsInfix(t, Lower(f))
  {
    var fields := SearchFields(p);
    var lowered := LowerAll(fields);
    LowerJoin(fields);
    WordInfixOfJoin(t, lowered);
    var k :| 0 <= k < |lowered| && IsInfix(t, lowered[k]);
    if k == 3 {
      LowerJoin(p.tags);
      WordInfixOfJoin(t, LowerAll(p.tags));
      var m :| 0 <= m < |LowerAll(p.tags)| && IsInfix(t, LowerAll(p.tags)[m]);
      f := p.tags[m];
      assert SearchWords(p)[3 + m] == f;
    } else {
      f := fields[k];
      assert SearchWords(p)[if k < 3 then k else |SearchWords(p)| - 1] == f;
    }
  }

  /** Every searchable value, case-folded, lies inside the search text. */
  lemma SearchWordInText(p: Photo, f: string)
    requires f in SearchWords(p)
    ensures IsInfix(Lower(f), SearchText(p))
  {
    var fields := SearchFields(p);
    var lowered := LowerAll(fields);
    var words := SearchWords(p);
    LowerJoin(fields);
    var i :| 0 <= i < |words| && words[i] == f;
    if 3 <= i < 3 + |p.tags| {
      LowerJoin(p.tags);
      assert lowered[3] == Join(LowerAll(p.tags), " ");
      PartInfixOfJoin(LowerAll(p.tags), " ", i - 3);
      PartInfixOfJoin(lowered, " ", 3);
      InfixTransitive(Lower(f), lowered[3], SearchText(p));
    } else {
      var k := if i < 3 then i else 4;
      assert fields[k] == f;
      PartInfixOfJoin(lowered, " ", k);
    }
  }

  // ---------------------------------------------------------------------------
  // tokenizeQuery

  /** `String(query || '')`: a missing query reads as ''. */
  function QueryText(query: Option<string>): string {
    if query.Some? then query.value else ""
  }

  /** `filter(Boolean)` on strings: the empty string is falsy. */
  predicate NonEmpty(w: string) {
    w != ""
  }

  /** `String(query || '').trim().toLowerCase().split(/\s+/).filter(Boolean)`:
      the tokens are the query's lower-cased pieces between white space, in
      order. Each occurs in the lower-cased query, and together they hold
      every non-space character of it. */
  function Tokenize(query: Option<string>): (tokens: seq<string>)
    ensures forall t :: t in tokens ==> t != [] && NoSpace(t)
    ensures tokens == [] <==> AllSpace(QueryText(query))
    ensures forall t :: t in tokens ==> IsInfix(t, Lower(QueryText(query)))
    ensures Join(tokens, "") == NonSpaceChars(Lower(QueryText(query)))
  {
    var text := Lower(Trim(QueryText(query)));
    var tokens := Filter(SplitOnSpaces(text), NonEmpty);
    SplitPiecesHaveNoSpace(text);
    BlankQuery(QueryText(query));
    TokensOfQuery(QueryText(query));
    if AllSpace(QueryText(query)) then
      assert SplitOnSpaces(text) == [[]];
      FilterEmpty(SplitOnSpaces(text), NonEmpty);
      tokens
    else
      assert tokens != [] by {
        SplitHasNonEmptyPiece(text);
        var p :| p in SplitOnSpaces(text) && p != [];
        assert p in tokens;
      }
      tokens
  }

  /** Dropping empty pieces does not change their concatenation. */
  lemma {:induction false} JoinWithoutEmpty(parts: seq<string>)
    ensures Join(Filter(parts, NonEmpty), "") == Join(parts, "")
  {
    if parts != [] {
      JoinWithoutEmpty(parts[1..]);
      JoinNoSep(parts);
      if parts[0] != "" {
        var kept := Filter(parts, NonEmpty);
        assert kept == [parts[0]] + Filter(parts[1..], NonEmpty);
        JoinNoSep(kept);
        assert kept[1..] == Filter(parts[1..], NonEmpty);
      } else {
        assert "" + Join(parts[1..], "") == Join(parts[1..], "");
      }
    }
  }

  /** What the tokenizer keeps of a query text: pieces of the lower-cased
      text, which together hold all its non-space characters. */
  lemma TokensOfQuery(q: string)
    ensures var tokens := Filter(SplitOnSpaces(Lower(Trim(q))), NonEmpty);
      && (forall t :: t in tokens ==> IsInfix(t, Lower(q)))
      && Join(tokens, "") == NonSpaceChars(Lower(q))
  {
    var a, b := TrimBounds(q);
    TokensAreInfixes(q, a, b);
    TokensKeepNonSpace(q, a, b);
  }

  lemma TokensAreInfixes(q: string, a: nat, b: nat)
    requires a <= b <= |q| && Trim(q) == q[a..b]
    ensures forall t :: t in Filter(SplitOnSpaces(Lower(Trim(q))), NonEmpty) ==> IsInfix(t, Lower(q))
  {
    var text := Lower(Trim(q));
    assert text == Lower(q)[a..b] by {
      LowerSlice(q, a, b);
    }
    InfixAt(text, Lower(q), a);
    SplitPiecesAreInfixes(text);
    forall t | t in Filter(SplitOnSpaces(text), NonEmpty) ensures IsInfix(t, Lower(q)) {
      InfixTransitive(t, text, Lower(q));
    }
  }

  lemma TokensKeepNonSpace(q: string, a: nat, b: nat)
    requires a <= b <= |q| && Trim(q) == q[a..b] && AllSpace(q[..a]) && AllSpace(q[b..])
    ensures Join(Filter(SplitOnSpaces(Lower(Trim(q))), NonEmpty), "") == NonSpaceChars(Lower(q))
  {
    var text := Lower(Trim(q));
    var l := Lower(q);
    assert Join(Filter(SplitOnSpaces(text), NonEmpty), "") == NonSpaceChars(text) by {
      SplitKeepsNonSpace(text);
      JoinWithoutEmpty(SplitOnSpaces(text));
    }
    assert text == l[a..b] by {
      LowerSlice(q, a, b);
    }
    assert AllSpace(l[..a]) by {
      forall k | 0 <= k < a ensures IsSpace(l[..a][k]) {
        assert q[..a][k] == q[k];
        LowerCharFacts(q[k]);
      }
    }
    assert AllSpace(l[b..]) by {
      forall k | 0 <= k < |l| - b ensures IsSpace(l[b..][k]) {
        assert q[b..][k] == q[b + k];
        LowerCharFacts(q[b + k]);
      }
    }
    NonSpaceSlice(l, a, b);
  }

  /** A query is blank exactly when its trimmed, lower-cased text is empty. */
  lemma BlankQuery(q: string)
    ensures AllSpace(q) ==> Lower(Trim(q)) == []
    ensures !AllSpace(q) ==> !AllSpace(Lower(Trim(q)))
  {
    TrimFacts(q);
    if !AllSpace(q) {
      LowerCharFacts(Trim(q)[0]);
      assert !IsSpace(Lower(Trim(q))[0]);
    }
  }

  /** Words joined by single spaces tokenize back to those words. */
  lemma TokenizeJoin(words: seq<string>)
    requires NonEmptyWords(words) && forall k :: 0 <= k < |words| ==> IsLower(words[k])
    ensures Tokenize(Some(Join(words, " "))) == words
  {
    var s := Join(words, " ");
    if words == [] {
      assert AllSpace(QueryText(Some(s)));
    } else {
      JoinedWordsAreQuery(words);
      SplitJoin(words);
      FilterAll(words, NonEmpty);
    }
  }

  /** Lower-case words joined by single spaces are left alone by `trim` and
      `toLowerCase`. */
  lemma JoinedWordsAreQuery(words: seq<string>)
    requires |words| >= 1 && NonEmptyWords(words)
    requires forall k :: 0 <= k < |words| ==> IsLower(words[k])
    ensures Lower(Trim(Join(words, " "))) == Join(words, " ")
  {
    JoinedWordsTrimmed(words);
    assert LowerAll(words) == words by {
      forall k | 0 <= k < |words| ensures LowerAll(words)[k] == words[k] {
        assert IsLower(words[k]);
      }
    }
    LowerJoin(words);
  }

  lemma JoinedWordsTrimmed(words: seq<string>)
    requires |words| >= 1 && NonEmptyWords(words)
    ensures Trim(Join(words, " ")) == Join(words, " ")
  {
    var last := words[|words| - 1];
    JoinEnds(words);
    assert !IsSpace(words[0][0]) && !IsSpace(last[|last| - 1]);
    TrimUnchanged(Join(words, " "));
  }

  // ---------------------------------------------------------------------------
  // filterByQuery

  /** `tokens.every(token => photo.search.includes(token))`. */
  predicate Matches(x: Indexed, tokens: seq<string>) {
    forall t :: t in tokens ==> IsInfix(t, x.search)
  }

  function MatchesAll(tokens: seq<string>): Indexed -> bool {
    (x: Indexed) => Matches(x, tokens)
  }

  function FilterByTokens(photos: seq<Indexed>, tokens: seq<string>): seq<Indexed> {
    Filter(photos, MatchesAll(tokens))
  }

  /** No tokens: the input unchanged; otherwise the records that contain every
      token, each as often as in the input and in input order. */
  function FilterByQuery(photos: seq<Indexed>, query: Option<string>): (r: seq<Indexed>)
    ensures Tokenize(query) == [] ==> r == photos
    ensures forall x :: x in r <==> x in photos && Matches(x, Tokenize(query))
    ensures forall x :: multiset(r)[x] == if Matches(x, Tokenize(query)) then multiset(photos)[x] else 0
    ensures IsSubsequence(r, photos)
    ensures r == FilterByTokens(photos, Tokenize(query))
  {
    var tokens := Tokenize(query);
    FilterCounts(photos, MatchesAll(tokens));
    FilterSubsequence(photos, MatchesAll(tokens));
    FilterAll(photos, MatchesAll([]));
    if tokens == [] then photos
    else
      FilterByTokens(photos, tokens)
  }

  /** Tokens are conjunctive: filtering by two token lists at once is
      filtering by one and then by the other. */
  lemma FilterConjunctive(photos: seq<Indexed>, t1: seq<string>, t2: seq<string>)
    ensures FilterByTokens(photos, t1 + t2) == FilterByTokens(FilterByTokens(photos, t1), t2)
  {
    FilterFilter(photos, MatchesAll(t1), MatchesAll(t2),
      MatchesAll(t1 + t2));
  }

  /** Token order and repetition do not matter. */
  lemma FilterOrderInsensitive(photos: seq<Indexed>, t1: seq<string>, t2: seq<string>)
    requires Elements(t1) == Elements(t2)
    ensures FilterByTokens(photos, t1) == FilterByTokens(photos, t2)
  {
    assert forall t :: t in t1 <==> t in t2 by {
      forall t ensures t in t1 <==> t in t2 {
        assert t in t1 <==> t in Elements(t1);
        assert t in t2 <==> t in Elements(t2);
      }
    }
    FilterAgree(photos, MatchesAll(t1), MatchesAll(t2));
  }

  /** On the index, a record survives a query exactly when every query word
      occurs, case-folded, inside one of its searchable values. */
  lemma MatchesByField(x: Indexed, query: Option<string>)
    requires x.search == SearchText(x.photo)
    ensures Matches(x, Tokenize(query)) <==>
      forall t :: t in Tokenize(query) ==> exists f :: f in SearchWords(x.photo) && IsInfix(t, Lower(f))
  {
    forall t | t in Tokenize(query)
      ensures IsInfix(t, x.search) <==> exists f :: f in SearchWords(x.photo) && IsInfix(t, Lower(f))
    {
      SearchTextWords(x.photo, t);
    }
  }

  // ---------------------------------------------------------------------------
  // showEmptyState

  /** The "nothing found" message is shown when the query is not blank and
      the list is empty; otherwise the grid is shown. */
  function ShowEmptyState(list: seq<Indexed>, query: Option<string>): (shown: bool)
    ensures shown <==> !AllSpace(QueryText(query)) && list == []
  {
    TrimFacts(QueryText(query));
    var hasQuery := query.Some? && query.value != "" && |Trim(query.value)| > 0;
    var isEmpty := |list| == 0;
    hasQuery && isEmpty
  }

  // ---------------------------------------------------------------------------
  // initSort

  /** The two locale collations the sort uses, each as "at or before":
      `ru` is `localeCompare(_, 'ru')`, the year tie-break; `base` is
      `localeCompare(_, ['ru', 'en'], { sensitivity: 'base', numeric: true,
      ignorePunctuation: true })`, the location sort. */
  datatype Collation = Collation(ru: (string, string) -> bool, base: (string, string) -> bool)

  ghost predicate ValidCollation(c: Collation) {
    TotalPreorder(c.ru) && TotalPreorder(c.base)
  }

  /** `Number(year || 0)` for a year made of decimal digits ('' is 0). */
  function YearNumber(year: string): nat {
    if AllDigits(year) then DecimalValue(year) else 0
  }

  function YearOf(x: Indexed): nat {
    YearNumber(x.photo.year)
  }

  function LocationOf(x: Indexed): string {
    x.photo.location
  }

  function YearDesc(c: Collation): (Indexed, Indexed) -> bool {
    (a: Indexed, b: Indexed) =>
      YearOf(a) > YearOf(b) || (YearOf(a) == YearOf(b) && c.ru(LocationOf(a), LocationOf(b)))
  }

  function YearAsc(c: Collation): (Indexed, Indexed) -> bool {
    (a: Indexed, b: Indexed) =>
      YearOf(a) < YearOf(b) || (YearOf(a) == YearOf(b) && c.ru(LocationOf(a), LocationOf(b)))
  }

  function LocationAsc(c: Collation): (Indexed, Indexed) -> bool {
    (a: Indexed, b: Indexed) => c.base(LocationOf(a), LocationOf(b))
  }

  function LocationDesc(c: Collation): (Indexed, Indexed) -> bool {
    (a: Indexed, b: Indexed) => c.base(LocationOf(b), LocationOf(a))
  }

  /** The comparator behind each `sortKey`; None for an unknown key. */
  function Ordering(sortKey: string, c: Collation): Option<(Indexed, Indexed) -> bool> {
    if sortKey == "year_desc" then Some(YearDesc(c))
    else if sortKey == "year_asc" then Some(YearAsc(c))
    else if sortKey == "location_asc" then Some(LocationAsc(c))
    else if sortKey == "location_desc" then Some(LocationDesc(c))
    else None
  }

  predicate KnownSortKey(sortKey: string) {
    sortKey in {"year_desc", "year_asc", "location_asc", "location_desc"}
  }

  /** Each known key orders records by a total preorder. */
  lemma OrderingIsTotalPreorder(sortKey: string, c: Collation)
    requires ValidCollation(c)
    ensures Ordering(sortKey, c).Some? <==> KnownSortKey(sortKey)
    ensures Ordering(sortKey, c).Some? ==> TotalPreorder(Ordering(sortKey, c).value)
  {
    if sortKey == "year_desc" || sortKey == "year_asc" {
      var le := Ordering(sortKey, c).value;
      forall x, y ensures le(x, y) || le(y, x) {
        assert c.ru(LocationOf(x), LocationOf(y)) || c.ru(LocationOf(y), LocationOf(x));
      }
      forall x, y, z | le(x, y) && le(y, z) ensures le(x, z) {
        if YearOf(x) == YearOf(y) == YearOf(z) {
          assert c.ru(LocationOf(x), LocationOf(y)) && c.ru(LocationOf(y), LocationOf(z));
        }
      }
    } else if sortKey == "location_asc" || sortKey == "location_desc" {
      var le := Ordering(sortKey, c).value;
      forall x, y ensures le(x, y) || le(y, x) {
        assert c.base(LocationOf(x), LocationOf(y)) || c.base(LocationOf(y), LocationOf(x));
      }
      forall x, y, z | le(x, y) && le(y, z) ensures le(x, z) {
        if sortKey == "location_asc" {
          assert c.base(LocationOf(x), LocationOf(y)) && c.base(LocationOf(y), LocationOf(z));
        } else {
          assert c.base(LocationOf(z), LocationOf(y)) && c.base(LocationOf(y), LocationOf(x));
        }
      }
    }
  }

  /** `initSort`: a sorted copy for a known key, the copy unchanged otherwise. */
  function InitSort(list: seq<Indexed>, sortKey: string, c: Collation): (r: seq<Indexed>)
    ensures multiset(r) == multiset(list) && |r| == |list|
    ensures !KnownSortKey(sortKey) ==> r == list
  {
    match Ordering(sortKey, c)
    case None => list
    case Some(le) => StableSort(list, le)
  }

  /** For a known key the result is ordered by that key's comparator, and
      records that tie keep their input order. */
  lemma InitSortOrdered(list: seq<Indexed>, sortKey: string, c: Collation)
    requires ValidCollation(c) && KnownSortKey(sortKey)
    ensures SortedBy(InitSort(list, sortKey, c), Ordering(sortKey, c).value)
    ensures StableFor(InitSort(list, sortKey, c), list, Ordering(sortKey, c).value)
  {
    OrderingIsTotalPreorder(sortKey, c);
    StableSortSorted(list, Ordering(sortKey, c).value);
    StableSortStable(list, Ordering(sortKey, c).value);
  }

  /** `year_desc`: years never increase, and equal years go by location in
      the 'ru' collation; `year_asc` the same with years never decreasing. */
  lemma YearSortOrder(list: seq<Indexed>, c: Collation)
    requires ValidCollation(c)
    ensures var r := InitSort(list, "year_desc", c);
      forall i, j :: 0 <= i < j < |r| ==>
        YearOf(r[i]) >= YearOf(r[j]) && (YearOf(r[i]) == YearOf(r[j]) ==> c.ru(LocationOf(r[i]), LocationOf(r[j])))
    ensures var r := InitSort(list, "year_asc", c);
      forall i, j :: 0 <= i < j < |r| ==>
        YearOf(r[i]) <= YearOf(r[j]) && (YearOf(r[i]) == YearOf(r[j]) ==> c.ru(LocationOf(r[i]), LocationOf(r[j])))
  {
    InitSortOrdered(list, "year_desc", c);
    InitSortOrdered(list, "year_asc", c);
  }

  /** `location_asc` is ascending in the base collation; `location_desc`
      compares the other way round, so it is descending. */
  lemma LocationSortOrder(list: seq<Indexed>, c: Collation)
    requires ValidCollation(c)
    ensures var r := InitSort(list, "location_asc", c);
      forall i, j :: 0 <= i < j < |r| ==> c.base(LocationOf(r[i]), LocationOf(r[j]))
    ensures var r := InitSort(list, "location_desc", c);
      forall i, j :: 0 <= i < j < |r| ==> c.base(LocationOf(r[j]), LocationOf(r[i]))
  {
    InitSortOrdered(list, "location_asc", c);
    InitSortOrdered(list, "location_desc", c);
  }

  // ---------------------------------------------------------------------------
  // runSearch

  /** What `runSearch` renders: the sort of the filter result. */
  function SearchResults(index: seq<Indexed>, query: Option<string>, sortKey: string, c: Collation): seq<Indexed> {
    InitSort(FilterByQuery(index, query), sortKey, c)
  }

  /** The empty state appears exactly when the query has a word and no record
      of the index contains every word of it. */
  lemma EmptyStateIffNoMatch(index: seq<Indexed>, query: Option<string>, sortKey: string, c: Collation)
    ensures ShowEmptyState(SearchResults(index, query, sortKey, c), query) <==>
      Tokenize(query) != [] && forall x :: x in index ==> !Matches(x, Tokenize(query))
  {
    var filtered := FilterByQuery(index, query);
    assert |SearchResults(index, query, sortKey, c)| == |filtered|;
    EmptyStateWithoutSort(index, query);
  }

  /** The earlier page renders the filter result itself; its empty state
      appears exactly when the query has a word and nothing matches it. */
  lemma EmptyStateWithoutSort(index: seq<Indexed>, query: Option<string>)
    ensures ShowEmptyState(FilterByQuery(index, query), query) <==>
      Tokenize(query) != [] && forall x :: x in index ==> !Matches(x, Tokenize(query))
  {
    var tokens := Tokenize(query);
    FilterEmpty(index, MatchesAll(tokens));
  }

}
