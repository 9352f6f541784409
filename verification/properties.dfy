/** Properties of the handlers that relate several calls or state the code's quirks:
    update reorders, a bad update body loses the record, delete removes one duplicate
    at a time, and ids stay distinct only while the random draw does not collide. */
module HandlerProperties {
  import opened Movies
  import opened MovieStore
  import opened Handlers
  import Decimal

  /** Delete removes exactly the record at the first match: one record fewer, and the
      removed record is the only difference between the two stores as multisets. */
  lemma DeleteRemovesOne(s: Store, id: string, i: nat)
    requires IsFirstMatch(s, id, i)
    ensures var r := DeleteMovie(s, id).store;
              |r| == |s| - 1 && multiset(r) + multiset{s[i]} == multiset(s)
  {
  }

  /** With at most one record carrying `id`, deleting twice is deleting once. */
  lemma DeleteIdempotent(s: Store, id: string)
    requires AtMostOne(s, id)
    ensures DeleteMovie(DeleteMovie(s, id).store, id) == DeleteMovie(s, id)
  {
  }

  /** When a later record at `j` carries the same id as the first match at `i`, a delete
      removes only the first: the later one survives, shifted down by one, so a repeated
      delete is not a no-op. */
  lemma DeleteRemovesOneDuplicate(s: Store, id: string, i: nat, j: nat)
    requires IsFirstMatch(s, id, i) && i < j < |s| && s[j].id == id
    ensures var r := DeleteMovie(s, id).store;
              && r[j - 1] == s[j]
              && !NoMatch(r, id)
              && |DeleteMovie(r, id).store| == |r| - 1
  {
    var r := DeleteMovie(s, id).store;
    assert r[j - 1] == s[j];
  }

  /** A successful update keeps the length, keeps the other records in their relative order,
      and moves the record carrying `id` to the end. When no other record carries `id`, a
      later lookup finds the replacement there. */
  lemma UpdateMovesToEnd(s: Store, id: string, i: nat, m: Movie)
    requires IsFirstMatch(s, id, i)
    ensures var r := UpdateMovie(s, id, Parsed(m));
              && |r.store| == |s|
              && r.store[..|s| - 1] == s[..i] + s[i + 1..]
              && r.store[|s| - 1] == m.(id := id)
              && (AtMostOne(s, id) ==> GetMovie(r.store, id).response == OneMovie(m.(id := id)))
  {
    var r := UpdateMovie(s, id, Parsed(m));
    if AtMostOne(s, id) {
      RemoveOnlyMatch(s, id, i);
      assert IsFirstMatch(r.store, id, |s| - 1);
    }
  }

  /** A malformed update body is reported with status 400 only after the record carrying `id`
      is gone: the store is one shorter, and when no other record carries `id` a later lookup
      of `id` misses. */
  lemma MalformedUpdateLosesRecord(s: Store, id: string, i: nat, err: string)
    requires IsFirstMatch(s, id, i)
    ensures var r := UpdateMovie(s, id, Malformed(err));
              && Status(r.response) == StatusBadRequest
              && |r.store| == |s| - 1
              && (AtMostOne(s, id) ==> GetMovie(r.store, id).response == Message(NotFoundMessage))
  {
    if AtMostOne(s, id) {
      RemoveOnlyMatch(s, id, i);
    }
  }

  /** When a later record at `j` carries the same id as the first match at `i`, it survives an
      update of either kind and hides the outcome from a later lookup: the lookup answers with a
      record of the old store carrying `id` that came after `i`, not with the appended
      replacement and not with "Movie not found". */
  lemma DuplicateHidesUpdate(s: Store, id: string, i: nat, j: nat, body: Decoded)
    requires IsFirstMatch(s, id, i) && i < j < |s| && s[j].id == id
    ensures var r := UpdateMovie(s, id, body);
              exists k :: i < k <= j && GetMovie(r.store, id).response == OneMovie(s[k]) && s[k].id == id
  {
    FirstMatchIsIndex(s, id, i);
    var rest := RemoveAt(s, i);
    var t := UpdateMovie(s, id, body).store;
    assert t[..|rest|] == rest by {
      if body.Parsed? {
        assert t == rest + [body.movie.(id := id)];
      }
    }
    assert t[j - 1] == rest[j - 1] == s[j];
    var k' := FirstMatch(t, id).value;
    assert k' <= j - 1;
    assert t[k'] == rest[k'] == s[k' + 1];
    assert GetMovie(t, id).response == OneMovie(s[k' + 1]);
  }

  /** Appending a record whose id no record carries keeps ids distinct. */
  lemma AppendFreshPreservesUnique(s: Store, m: Movie)
    requires UniqueIds(s) && NoMatch(s, m.id)
    ensures UniqueIds(s + [m])
  {
  }

  /** Every handler keeps ids distinct, except a create whose rendered draw is already in use. */
  lemma ServePreservesUnique(s: Store, req: Request)
    requires UniqueIds(s) && WellFormed(req)
    requires req.Create? ==> NoMatch(s, Decimal.Itoa(req.draw))
    ensures UniqueIds(Serve(s, req).store)
  {
  }

  /** No create in the run draws an id already in use in the store it runs against. */
  predicate FreshDraws(s: Store, reqs: seq<Request>)
    requires AllWellFormed(reqs)
    decreases |reqs|
  {
    |reqs| == 0 ||
    ((reqs[0].Create? ==> NoMatch(s, Decimal.Itoa(reqs[0].draw)))
     && FreshDraws(Serve(s, reqs[0]).store, reqs[1..]))
  }

  /** The store keeps distinct ids along any run in which no create draws an id already in use. */
  lemma {:induction false} RunPreservesUnique(s: Store, reqs: seq<Request>)
    requires AllWellFormed(reqs) && UniqueIds(s) && FreshDraws(s, reqs)
    ensures UniqueIds(Run(s, reqs).store)
    decreases |reqs|
  {
    if |reqs| > 0 {
      ServePreservesUnique(s, reqs[0]);
      RunPreservesUnique(Serve(s, reqs[0]).store, reqs[1..]);
    }
  }

  /** The two seed records carry distinct ids. */
  lemma SeedUnique()
    ensures UniqueIds(Seed)
  {
  }

  /** Starting from the seed, ids stay distinct along any run in which no create draws an id
      already in use. */
  lemma RunFromSeedKeepsUnique(reqs: seq<Request>)
    requires AllWellFormed(reqs) && FreshDraws(Seed, reqs)
    ensures UniqueIds(Run(Seed, reqs).store)
  {
    SeedUnique();
    RunPreservesUnique(Seed, reqs);
  }

  /** Nothing stops a create from reusing an id: a draw of 1 against the seed duplicates "1". */
  lemma CreateCanDuplicateId(body: Movie)
    ensures !UniqueIds(CreateMovie(Seed, body, 1).store)
  {
    var r := CreateMovie(Seed, body, 1).store;
    assert Decimal.Itoa(1) == "1";
    assert r[0].id == r[2].id;
  }

  /** Repeating the same lookup any number of times, with nothing in between, changes nothing
      and answers the same each time. */
  lemma {:induction false} RepeatedGetIsStable(s: Store, id: string, reqs: seq<Request>)
    requires forall k :: 0 <= k < |reqs| ==> reqs[k] == GetOne(id)
    ensures AllWellFormed(reqs)
    ensures Run(s, reqs).store == s
    ensures forall k :: 0 <= k < |reqs| ==> Run(s, reqs).responses[k] == GetMovie(s, id).response
    decreases |reqs|
  {
    if |reqs| > 0 {
      RepeatedGetIsStable(s, id, reqs[1..]);
    }
  }

  /** List, get, update and delete on the two seed records. */
  lemma SeedScenarios(m: Movie, err: string)
    ensures GetMovies(Seed).response == MovieList(Seed) && |Seed| == 2
    ensures Seed[0].id == "1" && Seed[1].id == "2"
    ensures GetMovie(Seed, "1").response == OneMovie(Seed[0])
    ensures Seed[0].director == Some(Director("John", "Doe"))
    ensures GetMovie(Seed, "999").response == Message(NotFoundMessage)
    ensures var r := UpdateMovie(Seed, "1", Malformed(err));
              Status(r.response) == 400 && GetMovie(r.store, "1").response == Message(NotFoundMessage)
    ensures UpdateMovie(Seed, "1", Parsed(m)).store == [Seed[1], m.(id := "1")]
    ensures DeleteMovie(Seed, "2").store == [Seed[0]]
    ensures DeleteMovie(DeleteMovie(Seed, "2").store, "2") == DeleteMovie(Seed, "2")
  {
  }
}
