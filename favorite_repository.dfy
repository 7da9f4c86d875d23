/** The favourites store (`FavoriteRepository`) over the persisted `FavoriteCharacter`
    records. The object store is modelled as the sequence of records it holds; whether a
    fetch or count request against it fails is an input of each operation. */
module FavoriteRepository {
  import opened Wrappers

  /** A persisted favourite: every attribute is optional in the store's schema. */
  datatype FavoriteRecord = FavoriteRecord(
    name: Option<string>,
    status: Option<string>,
    species: Option<string>,
    gender: Option<string>,
    imageURL: Option<string>,
    origin: Option<string>,
    location: Option<string>,
    created: Option<string>,
    episodes: Option<seq<string>>)

  /** The predicate `name == %@`: a record without a name never matches. */
  predicate Named(r: FavoriteRecord, name: string) {
    r.name == Some(name)
  }

  predicate HasName(s: seq<FavoriteRecord>, name: string) {
    exists i :: 0 <= i < |s| && Named(s[i], name)
  }

  /** Position of the first record with the given name (`favorites.first`). */
  function FirstNamed(s: seq<FavoriteRecord>, name: string): (r: Option<nat>)
    ensures r.None? <==> !HasName(s, name)
    ensures r.Some? ==> r.value < |s| && Named(s[r.value], name)
    ensures r.Some? ==> forall j :: 0 <= j < r.value ==> !Named(s[j], name)
  {
    if s == [] then None
    else if Named(s[0], name) then Some(0)
    else match FirstNamed(s[1..], name)
      case None =>
        assert forall i :: 1 <= i < |s| ==> s[i] == s[1..][i - 1];
        None
      case Some(i) => Some(i + 1)
  }

  /** The store after `context.delete` of the first record with that name. */
  function RemoveFirstNamed(s: seq<FavoriteRecord>, name: string): seq<FavoriteRecord> {
    match FirstNamed(s, name)
    case None => s
    case Some(i) => s[..i] + s[i + 1..]
  }

  /** Removing by name deletes exactly one record, the first with that name, and keeps
      every other record in its place and order. */
  lemma RemoveFirstNamedDeletesOne(s: seq<FavoriteRecord>, name: string)
    requires HasName(s, name)
    ensures |RemoveFirstNamed(s, name)| == |s| - 1
    ensures var i := FirstNamed(s, name).value;
      && multiset(RemoveFirstNamed(s, name)) + multiset{s[i]} == multiset(s)
      && (forall j :: 0 <= j < i ==> RemoveFirstNamed(s, name)[j] == s[j])
      && (forall j :: i <= j < |s| - 1 ==> RemoveFirstNamed(s, name)[j] == s[j + 1])
  {
    DropAt(s, FirstNamed(s, name).value);
  }

  /** Dropping the record at `i` loses that record only and closes the gap. */
  lemma DropAt(s: seq<FavoriteRecord>, i: nat)
    requires i < |s|
    ensures var r := s[..i] + s[i + 1..];
      && |r| == |s| - 1
      && multiset(r) + multiset{s[i]} == multiset(s)
      && (forall j :: 0 <= j < i ==> r[j] == s[j])
      && (forall j :: i <= j < |s| - 1 ==> r[j] == s[j + 1])
  {
    var r := s[..i] + s[i + 1..];
    calc {
      multiset(s);
      { assert s == s[..i] + [s[i]] + s[i + 1..]; }
      multiset(s[..i] + [s[i]] + s[i + 1..]);
      multiset(s[..i]) + multiset{s[i]} + multiset(s[i + 1..]);
    }
    assert multiset(r) == multiset(s[..i]) + multiset(s[i + 1..]);
  }

  /** Removing one name leaves every other name as favourite as it was. */
  lemma RemoveFirstNamedKeepsOthers(s: seq<FavoriteRecord>, name: string, other: string)
    requires name != other
    ensures HasName(RemoveFirstNamed(s, name), other) <==> HasName(s, other)
  {
    if HasName(s, name) {
      var i := FirstNamed(s, name).value;
      var r := RemoveFirstNamed(s, name);
      RemoveFirstNamedDeletesOne(s, name);
      if HasName(s, other) {
        var k :| 0 <= k < |s| && Named(s[k], other);
        if k < i {
          assert Named(r[k], other);
        } else {
          assert Named(r[k - 1], other);
        }
      }
      if HasName(r, other) {
        var k :| 0 <= k < |r| && Named(r[k], other);
        if k < i {
          assert Named(s[k], other);
        } else {
          assert Named(s[k + 1], other);
        }
      }
    }
  }

  /** Adding a named record makes that name a favourite. */
  lemma AddMakesFavorite(s: seq<FavoriteRecord>, c: FavoriteRecord, name: string)
    requires c.name == Some(name)
    ensures HasName(s + [c], name)
  {
    assert Named((s + [c])[|s|], name);
  }

  /** After the only record with a name is removed, that name is no longer a favourite;
      with several records of that name, the others remain. */
  lemma RemoveOnlyRecord(s: seq<FavoriteRecord>, name: string)
    requires HasName(s, name)
    ensures (forall j, k :: 0 <= j < k < |s| && Named(s[j], name) ==> !Named(s[k], name))
            <==> !HasName(RemoveFirstNamed(s, name), name)
  {
    var i := FirstNamed(s, name).value;
    var r := RemoveFirstNamed(s, name);
    RemoveFirstNamedDeletesOne(s, name);
    if forall j, k :: 0 <= j < k < |s| && Named(s[j], name) ==> !Named(s[k], name) {
      forall j | 0 <= j < |r| ensures !Named(r[j], name) {
        if j < i {
          assert r[j] == s[j];
        } else {
          assert r[j] == s[j + 1];
        }
      }
    } else {
      var j, k :| 0 <= j < k < |s| && Named(s[j], name) && Named(s[k], name);
      assert i <= j;
      assert r[k - 1] == s[k];
    }
  }

  class FavoriteStore {
    var records: seq<FavoriteRecord>

    constructor (initial: seq<FavoriteRecord>)
      ensures records == initial
    {
      records := initial;
    }

    /** `getFavoriteCharacters`: every stored record, or none when the fetch fails. */
    method GetFavoriteCharacters(fetchSucceeds: bool) returns (r: seq<FavoriteRecord>)
      ensures fetchSucceeds ==> r == records
      ensures !fetchSucceeds ==> r == []
    {
      if fetchSucceeds {
        r := records;
      } else {
        r := [];
      }
    }

    /** `addFavorite`: inserts without any duplicate check and always reports success. */
    method AddFavorite(c: FavoriteRecord) returns (ok: bool)
      modifies this`records
      ensures records == old(records) + [c]
      ensures ok
    {
      records := records + [c];
      ok := true;
    }

    /** `removeFavorite(byName:)`: deletes the first record with the name; false, and no
        change, when the fetch fails or no record has that name. */
    method RemoveFavorite(name: string, fetchSucceeds: bool) returns (ok: bool)
      modifies this`records
      ensures ok <==> fetchSucceeds && HasName(old(records), name)
      ensures ok ==> records == RemoveFirstNamed(old(records), name)
      ensures !ok ==> records == old(records)
    {
      if !fetchSucceeds {
        return false;
      }
      var first := FirstNamed(records, name);
      if first.Some? {
        records := records[..first.value] + records[first.value + 1..];
        ok := true;
      } else {
        ok := false;
      }
    }

    /** `isFavorite(byName:)`: whether some stored record has the name; false when the
        count request fails. */
    method IsFavorite(name: string, countSucceeds: bool) returns (r: bool)
      ensures r <==> countSucceeds && HasName(records, name)
    {
      if !countSucceeds {
        return false;
      }
      r := FirstNamed(records, name).Some?;
    }
  }
}
