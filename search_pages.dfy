/** The page state behind the two search entry points: what the gallery grid
    was last given to render and whether the "nothing found" message is up.
    The search field's text is the `query` field; a click, an Enter or the
    end of the typing delay all run the same search. */
module SearchPages {
  import opened Seqs
  import opened Photos
  import opened Search

  /** `initSearchAndSort`: search, then sort by the selected key. */
  class SearchAndSortPage {
    const index: seq<Indexed>
    const collation: Collation
    var query: string
    var currentSort: string
    var rendered: seq<Indexed>
    var emptyShown: bool

    /** The grid and the message show the current query under the current key. */
    ghost predicate Valid()
      reads this
    {
      && rendered == SearchResults(index, Some(query), currentSort, collation)
      && emptyShown == ShowEmptyState(rendered, Some(query))
    }

    /** Builds the index, takes the select's key ('year_desc' without a
        select) and runs the first search. */
    constructor (photos: seq<Photo>, sortSelect: Option<string>, inputValue: string, c: Collation)
      ensures index == BuildIndex(photos) && collation == c && query == inputValue
      ensures currentSort == if sortSelect.Some? then sortSelect.value else "year_desc"
      ensures Valid()
    {
      index := BuildIndex(photos);
      collation := c;
      query := inputValue;
      currentSort := if sortSelect.Some? then sortSelect.value else "year_desc";
      new;
      RunSearch();
    }

    /** `runSearch`: filter the index by the field's text, sort, render, and
        show the message exactly when the query has a word and nothing in the
        catalog contains all of its words. */
    method RunSearch()
      modifies this
      ensures query == old(query) && currentSort == old(currentSort)
      ensures rendered == SearchResults(index, Some(query), currentSort, collation)
      ensures emptyShown == ShowEmptyState(rendered, Some(query))
      ensures emptyShown <==>
        Tokenize(Some(query)) != [] && forall x :: x in index ==> !Matches(x, Tokenize(Some(query)))
      ensures Valid()
    {
      var sorted := SearchResults(index, Some(query), currentSort, collation);
      EmptyStateIffNoMatch(index, Some(query), currentSort, collation);
      rendered := sorted;
      emptyShown := ShowEmptyState(sorted, Some(query));
    }

    /** The select's change event: keep the new key and search again. */
    method ChangeSort(value: string)
      modifies this
      ensures currentSort == value && query == old(query)
      ensures rendered == SearchResults(index, Some(query), value, collation)
      ensures Valid()
    {
      currentSort := value;
      RunSearch();
    }

    /** New text in the search field, followed by a search. */
    method Search(value: string)
      modifies this
      ensures query == value && currentSort == old(currentSort)
      ensures rendered == SearchResults(index, Some(value), currentSort, collation)
      ensures Valid()
    {
      query := value;
      RunSearch();
    }
  }

  /** `initSearch`: the earlier page that only filters. */
  class SearchPage {
    const index: seq<Indexed>
    var query: string
    var rendered: seq<Indexed>
    var emptyShown: bool

    ghost predicate Valid()
      reads this
    {
      && rendered == FilterByQuery(index, Some(query))
      && emptyShown == ShowEmptyState(rendered, Some(query))
    }

    constructor (photos: seq<Photo>, inputValue: string)
      ensures index == BuildIndex(photos) && query == inputValue
      ensures Valid()
    {
      index := BuildIndex(photos);
      query := inputValue;
      new;
      RunSearch();
    }

    /** `runSearch`: render the filter result in catalog order. */
    method RunSearch()
      modifies this
      ensures query == old(query)
      ensures rendered == FilterByQuery(index, Some(query))
      ensures emptyShown == ShowEmptyState(rendered, Some(query))
      ensures emptyShown <==>
        Tokenize(Some(query)) != [] && forall x :: x in index ==> !Matches(x, Tokenize(Some(query)))
      ensures Valid()
    {
      var results := FilterByQuery(index, Some(query));
      EmptyStateWithoutSort(index, Some(query));
      rendered := results;
      emptyShown := ShowEmptyState(results, Some(query));
    }

    method Search(value: string)
      modifies this
      ensures query == value
      ensures rendered == FilterByQuery(index, Some(value))
      ensures Valid()
    {
      query := value;
      RunSearch();
    }
  }
}
