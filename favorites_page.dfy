/** scripts/favorites.js: the favorites page lists the catalog photos whose
    ids are in the favorites store, drops a card when its heart is clicked,
    and shows the empty state when nothing is left. */
module FavoritesPage {
  import opened Seqs
  import opened Photos
  import opened FavoritesStore

  /** `ids.has(String(photo.id))`. */
  function InFavorites(favorites: seq<string>): Photo -> bool {
    (p: Photo) => IdString(p.id) in favorites
  }

  /** `buildFavoritesList`: the catalog photos whose id is a favorite, every
      copy of each, in catalog order. */
  function BuildFavoritesList(catalog: seq<Photo>, favorites: seq<string>): (r: seq<Photo>)
    ensures forall p :: p in r <==> p in catalog && IdString(p.id) in favorites
    ensures forall p :: multiset(r)[p] == if IdString(p.id) in favorites then multiset(catalog)[p] else 0
    ensures IsSubsequence(r, catalog)
  {
    FilterCounts(catalog, InFavorites(favorites));
    FilterSubsequence(catalog, InFavorites(favorites));
    Filter(catalog, InFavorites(favorites))
  }

  /** No two photos share the string form of their id. */
  predicate UniqueIds(s: seq<Photo>) {
    forall i, j :: 0 <= i < j < |s| ==> IdString(s[i].id) != IdString(s[j].id)
  }

  lemma {:induction false} UniqueIdsSubsequence(a: seq<Photo>, b: seq<Photo>)
    requires IsSubsequence(a, b) && UniqueIds(b)
    ensures UniqueIds(a)
    decreases |b|
  {
    if a != [] {
      if a[0] == b[0] && IsSubsequence(a[1..], b[1..]) {
        UniqueIdsSubsequence(a[1..], b[1..]);
        forall j | 0 < j < |a| ensures IdString(a[0].id) != IdString(a[j].id) {
          assert a[j] in a[1..];
          SubsequenceMembers(a[1..], b[1..], a[j]);
          var m :| 0 <= m < |b[1..]| && b[1..][m] == a[j];
          assert b[m + 1] == a[j];
        }
      } else {
        UniqueIdsSubsequence(a, b[1..]);
      }
    }
  }

  /** The photos whose id is not `k`. */
  function OtherId(k: string): Photo -> bool {
    (p: Photo) => IdString(p.id) != k
  }

  /** With unique ids, dropping every photo with the id of card `i` drops
      exactly that card. */
  lemma RemoveById(cards: seq<Photo>, i: nat)
    requires UniqueIds(cards) && i < |cards|
    ensures Filter(cards, OtherId(IdString(cards[i].id))) == cards[..i] + cards[i + 1..]
  {
    var keep := OtherId(IdString(cards[i].id));
    forall j | 0 <= j < |cards| && j != i ensures keep(cards[j]) {
      if j < i {
        assert IdString(cards[j].id) != IdString(cards[i].id);
      } else {
        assert IdString(cards[i].id) != IdString(cards[j].id);
      }
    }
    FilterDropOne(cards, i, keep);
  }

  /** Un-favoriting the id of a listed card lists exactly the other cards:
      the page that drops the card agrees with a fresh build of the list. */
  lemma UnfavoriteDropsCard(catalog: seq<Photo>, members: seq<string>, i: nat)
    requires UniqueIds(catalog)
    requires i < |BuildFavoritesList(catalog, members)|
    ensures var cards := BuildFavoritesList(catalog, members);
      BuildFavoritesList(catalog, Toggled(members, IdString(cards[i].id))) == cards[..i] + cards[i + 1..]
  {
    var cards := BuildFavoritesList(catalog, members);
    var k := IdString(cards[i].id);
    assert cards[i] in cards;
    var after := Toggled(members, k);
    FilterFilter(catalog, InFavorites(members), OtherId(k), InFavorites(after));
    UniqueIdsSubsequence(cards, catalog);
    RemoveById(cards, i);
  }

  class Page {
    const catalog: seq<Photo>
    const store: Store
    /** The cards in the grid, in order. */
    var cards: seq<Photo>
    /** The empty state is up and the grid hidden. */
    var showingEmpty: bool

    /** What the page shows agrees with the store: the empty state when no
        catalog photo is a favorite, otherwise exactly the favorites. */
    ghost predicate InSync()
      reads this, store
    {
      if showingEmpty then BuildFavoritesList(catalog, store.members) == []
      else cards == BuildFavoritesList(catalog, store.members) && cards != []
    }

    /** Page load: an empty grid, then the first `render`. */
    constructor (catalog: seq<Photo>, store: Store)
      ensures this.catalog == catalog && this.store == store
      ensures cards == BuildFavoritesList(catalog, store.members)
      ensures InSync()
    {
      this.catalog := catalog;
      this.store := store;
      cards := [];
      showingEmpty := false;
      new;
      Render();
    }

    /** `render`: the list of favorites when it has any (every card then
        marked as a favorite); otherwise the empty state, leaving the old
        cards in the hidden grid. */
    method Render()
      modifies this
      ensures var list := BuildFavoritesList(catalog, store.members);
        && showingEmpty == (list == [])
        && cards == (if list == [] then old(cards) else list)
      ensures !showingEmpty ==> forall p :: p in cards ==> store.IsFavorite(p.id)
      ensures InSync()
    {
      var list := BuildFavoritesList(catalog, store.members);
      if |list| == 0 {
        showingEmpty := true;
      } else {
        cards := list;
        showingEmpty := false;
      }
    }

    /** A click on the heart of card `i`: toggle its id in the store, drop
        the card, and show the empty state when no card is left. When ids are
        unique and the page agreed with the store, it still does. */
    method OnLikeClick(i: nat)
      requires i < |cards| && store.Valid()
      modifies this, store
      ensures store.members == Toggled(old(store.members), IdString(old(cards)[i].id))
      ensures store.saved == IdList(store.members)
      ensures store.notified == old(store.notified) + [|store.members|]
      ensures cards == old(cards)[..i] + old(cards)[i + 1..]
      ensures showingEmpty == (old(showingEmpty) || cards == [])
      ensures old(InSync()) && !old(showingEmpty) && UniqueIds(catalog) ==> InSync()
      ensures store.Valid()
    {
      ghost var wasInSync := InSync();
      // the button's `data-fav-id` holds the card id as text
      var favId := IdString(cards[i].id);
      store.ToggleFavorite(StrId(favId));
      cards := cards[..i] + cards[i + 1..];
      if |cards| == 0 {
        showingEmpty := true;
      }
      if wasInSync && !old(showingEmpty) && UniqueIds(catalog) {
        UnfavoriteDropsCard(catalog, old(store.members), i);
      }
    }

    /** The window's 'storage' event, after the store has handled it: under
        the store's key the page renders again, otherwise nothing changes. */
    method OnStorage(key: string, stored: Stored)
      requires store.Valid()
      modifies this, store
      ensures key == StorageKey ==> store.members == LoadSet(stored) && store.saved == stored
      ensures key == StorageKey ==> store.notified == old(store.notified) + [|store.members|]
      ensures key == StorageKey ==> InSync()
      ensures key == StorageKey ==> var list := BuildFavoritesList(catalog, store.members);
        && showingEmpty == (list == [])
        && cards == (if list == [] then old(cards) else list)
      ensures key != StorageKey ==> store.members == old(store.members) && store.saved == old(store.saved)
      ensures key != StorageKey ==> store.notified == old(store.notified)
      ensures key != StorageKey ==> cards == old(cards) && showingEmpty == old(showingEmpty)
      ensures store.Valid()
    {
      store.OnStorage(key, stored);
      if key == StorageKey {
        Render();
      }
    }
  }
}
