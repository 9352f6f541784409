/** The linear-scan primitives the handlers share: find the first record with an id,
    and splice one record out of the sequence. */
module MovieStore {
  import opened Movies

  /** No record in `s` carries `id`. */
  predicate NoMatch(s: Store, id: string) {
    forall j :: 0 <= j < |s| ==> s[j].id != id
  }

  /** `i` is the index of the first record in `s` that carries `id`. */
  predicate IsFirstMatch(s: Store, id: string, i: int) {
    0 <= i < |s| && s[i].id == id && forall j :: 0 <= j < i ==> s[j].id != id
  }

  /** At most one record in `s` carries `id`. */
  predicate AtMostOne(s: Store, id: string) {
    forall i, j :: 0 <= i < j < |s| && s[i].id == id ==> s[j].id != id
  }

  /** The intended (never enforced) store invariant: ids are pairwise distinct. */
  predicate UniqueIds(s: Store) {
    forall i, j :: 0 <= i < j < |s| ==> s[i].id != s[j].id
  }

  /** Index of the first record carrying `id`, scanning from the front. */
  function FirstMatch(s: Store, id: string): (r: Option<nat>)
    ensures r.None? <==> NoMatch(s, id)
    ensures r.Some? ==> IsFirstMatch(s, id, r.value)
    decreases |s|
  {
    if |s| == 0 then None
    else if s[0].id == id then Some(0)
    else match FirstMatch(s[1..], id)
      case None =>
        assert forall j :: 1 <= j < |s| ==> s[j] == s[1..][j - 1];
        None
      case Some(k) => Some(k + 1)
  }

  /** The `for index, item := range movies` scan the handlers run, stopping at the first hit.
      This is the imperative reading of `FirstMatch`, which the handlers use: both find the
      same index. */
  method ScanFirst(s: Store, id: string) returns (found: bool, index: nat)
    ensures found ==> IsFirstMatch(s, id, index)
    ensures !found ==> NoMatch(s, id)
    ensures found <==> FirstMatch(s, id).Some?
    ensures found ==> FirstMatch(s, id) == Some(index)
  {
    index := 0;
    while index < |s|
      invariant index <= |s|
      invariant forall j :: 0 <= j < index ==> s[j].id != id
    {
      if s[index].id == id {
        return true, index;
      }
      index := index + 1;
    }
    return false, index;
  }

  /** `append(movies[:i], movies[i+1:]...)`: the record at `i` leaves, the others keep their order. */
  function RemoveAt(s: Store, i: nat): (r: Store)
    requires i < |s|
    ensures |r| == |s| - 1
    ensures forall j :: 0 <= j < i ==> r[j] == s[j]
    ensures forall j :: i <= j < |r| ==> r[j] == s[j + 1]
    ensures multiset(r) + multiset{s[i]} == multiset(s)
  {
    assert s == s[..i] + [s[i]] + s[i + 1..];
    s[..i] + s[i + 1..]
  }

  /** The first match is unique: any index meeting the definition is the one the scan finds. */
  lemma FirstMatchIsIndex(s: Store, id: string, i: int)
    requires IsFirstMatch(s, id, i)
    ensures FirstMatch(s, id) == Some(i)
  {
  }

  /** Removing the only record that carries `id` leaves none that does. */
  lemma RemoveOnlyMatch(s: Store, id: string, i: nat)
    requires IsFirstMatch(s, id, i) && AtMostOne(s, id)
    ensures NoMatch(RemoveAt(s, i), id)
  {
  }

  /** Removing a record keeps ids pairwise distinct. */
  lemma RemovePreservesUnique(s: Store, i: nat)
    requires i < |s| && UniqueIds(s)
    ensures UniqueIds(RemoveAt(s, i))
  {
  }
}
