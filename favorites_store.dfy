/** scripts/favoritesStore.js: the set of favorite photo ids, kept in memory,
    written to local storage after every change and announced to the page
    with the new count. */
module FavoritesStore {
  import opened Seqs
  import opened Text
  import opened Photos

  /** The local storage key the store reads and writes. */
  const StorageKey: string := "provatorov:favorites"

  /** What local storage holds under the key, once parsed: nothing, text
      that is not JSON, or a JSON array of id strings. */
  datatype Stored = Missing | Malformed | IdList(ids: seq<string>)

  /** `load`: the parsed array; nothing stored reads as `'[]'` and a parse
      error as `[]`. */
  function Load(stored: Stored): (ids: seq<string>)
    ensures stored.IdList? ==> ids == stored.ids
    ensures !stored.IdList? ==> ids == []
  {
    match stored
    case Missing => []
    case Malformed => []
    case IdList(ids) => ids
  }

  /** `new Set(load())`: the loaded ids without repeats, first occurrence first. */
  function LoadSet(stored: Stored): (members: seq<string>)
    ensures Distinct(members)
    ensures forall k :: k in members <==> k in Load(stored)
  {
    var r := Dedup(Load(stored));
    assert forall k :: k in r <==> k in Elements(r);
    assert forall k :: k in Load(stored) <==> k in Elements(Load(stored));
    r
  }

  /** What `saveAndNotify` writes and a later `load` reads gives back the same set. */
  lemma {:induction false} SaveLoad(members: seq<string>)
    requires Distinct(members)
    ensures LoadSet(IdList(members)) == members
  {
    DedupDistinct(members);
  }

  /** Set.delete: every occurrence of `k` goes, the rest keep their order. */
  function Remove(s: seq<string>, k: string): seq<string> {
    Filter(s, (x: string) => x != k)
  }

  /** `set.has(key) ? set.delete(key) : set.add(key)` on the insertion-ordered
      set: a present key leaves, an absent key joins at the end. */
  function Toggled(s: seq<string>, k: string): (r: seq<string>)
    ensures k in s ==> k !in r && forall x :: x != k ==> (x in r <==> x in s)
    ensures k !in s ==> r == s + [k]
    ensures Distinct(s) ==> Distinct(r)
  {
    if k in s then
      var r := Remove(s, k);
      if Distinct(s) then
        FilterSubsequence(s, (x: string) => x != k);
        DistinctSubsequence(r, s);
        r
      else r
    else
      s + [k]
  }

  lemma {:induction false} DistinctSubsequence<T>(a: seq<T>, b: seq<T>)
    requires IsSubsequence(a, b) && Distinct(b)
    ensures Distinct(a)
    decreases |b|
  {
    if a != [] {
      if a[0] == b[0] && IsSubsequence(a[1..], b[1..]) {
        DistinctSubsequence(a[1..], b[1..]);
        forall j | 0 < j < |a| ensures a[0] != a[j] {
          assert a[j] in a[1..];
          SubsequenceMembers(a[1..], b[1..], a[j]);
        }
      } else {
        DistinctSubsequence(a, b[1..]);
      }
    }
  }

  /** Toggling a key twice restores the set; the sequence is restored too
      when the key was absent, since it joins at the end and leaves again. */
  lemma ToggleTwice(s: seq<string>, k: string)
    requires Distinct(s)
    ensures forall x :: x in Toggled(Toggled(s, k), k) <==> x in s
    ensures k !in s ==> Toggled(Toggled(s, k), k) == s
  {
    if k !in s {
      FilterAppend(s, [k], (x: string) => x != k);
      FilterAll(s, (x: string) => x != k);
      assert Filter([k], (x: string) => x != k) == [];
    }
  }

  /** A number id and its decimal string are the same favorite. */
  lemma FavoriteByString(store: Store, n: nat)
    ensures store.IsFavorite(NumId(n)) == store.IsFavorite(StrId(NatToString(n)))
  {
    IdStringOfNumber(n);
  }

  /** The in-memory state of the store module. */
  class Store {
    /** `set`, in insertion order. */
    var members: seq<string>
    /** The value under `StorageKey` in local storage. */
    var saved: Stored
    /** The counts sent with each 'favorites:changed' event, oldest first. */
    var notified: seq<nat>

    ghost predicate Valid()
      reads this
    {
      Distinct(members)
    }

    /** Module start: load the stored ids into the set. */
    constructor (stored: Stored)
      ensures members == LoadSet(stored) && saved == stored && notified == []
      ensures Valid()
    {
      members := LoadSet(stored);
      saved := stored;
      notified := [];
    }

    /** `getFavorites`: the ids in insertion order, each once. */
    method GetFavorites() returns (ids: seq<string>)
      requires Valid()
      ensures ids == members && Distinct(ids)
    {
      ids := members;
    }

    /** `getFavoritesCount`: the number of distinct favorite ids. */
    method GetFavoritesCount() returns (n: nat)
      requires Valid()
      ensures n == |Elements(members)| && n == |members|
    {
      DistinctCardinality(members);
      n := |members|;
    }

    /** `isFavorite(id)`: the id's string form is in the set. */
    function IsFavorite(id: Id): (b: bool)
      reads this
      ensures b <==> IdString(id) in Elements(members)
    {
      IdString(id) in members
    }

    /** `saveAndNotify`: store the set as an array and announce its size;
        loading what was stored gives the same set back. */
    method SaveAndNotify()
      requires Valid()
      modifies this
      ensures members == old(members) && saved == IdList(members)
      ensures notified == old(notified) + [|members|]
      ensures LoadSet(saved) == members
      ensures Valid()
    {
      saved := IdList(members);
      notified := notified + [|members|];
      SaveLoad(members);
    }

    /** `toggleFavorite(id)`: flip the membership of `String(id)`, then save
        and notify. */
    method ToggleFavorite(id: Id)
      requires Valid()
      modifies this
      ensures members == Toggled(old(members), IdString(id))
      ensures IsFavorite(id) <==> !old(IsFavorite(id))
      ensures forall other: Id :: IdString(other) != IdString(id) ==> (IsFavorite(other) <==> old(IsFavorite(other)))
      ensures saved == IdList(members) && LoadSet(saved) == members
      ensures notified == old(notified) + [|members|]
      ensures Valid()
    {
      members := Toggled(members, IdString(id));
      SaveAndNotify();
    }

    /** `clearFavorites`: empty the set, then save and notify. */
    method ClearFavorites()
      requires Valid()
      modifies this
      ensures members == [] && saved == IdList([])
      ensures forall id: Id :: !IsFavorite(id)
      ensures notified == old(notified) + [0]
      ensures Valid()
    {
      members := [];
      SaveAndNotify();
    }

    /** The window's 'storage' event: another tab changed local storage.
        Under the store's key the set is reloaded and its size announced;
        under any other key nothing happens. */
    method OnStorage(key: string, stored: Stored)
      requires Valid()
      modifies this
      ensures key != StorageKey ==> members == old(members) && saved == old(saved) && notified == old(notified)
      ensures key == StorageKey ==> members == LoadSet(stored) && saved == stored
      ensures key == StorageKey ==> notified == old(notified) + [|members|]
      ensures Valid()
    {
      if key != StorageKey {
        return;
      }
      saved := stored;
      members := LoadSet(stored);
      notified := notified + [|members|];
    }
  }
}
