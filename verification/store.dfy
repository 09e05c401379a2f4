/**
  The service's in-memory store: the `repositories` array and the route
  handlers that act on it. Every handler addressed by an id goes through
  the existence guard first; an unknown id is answered with the error
  "data not found" and the collection is not touched.
 */
module RepositoryStore {
  import opened Repositories
  import opened RepositoryTable

  /** The one error message the service sends. */
  const DATA_NOT_FOUND: string := "data not found"

  /**
    What a handler answers, without the transport: a record (create,
    replace, like), an empty success (delete) or an error message (the
    guard).
   */
  datatype Response = Ok(repo: Repository) | NoContent | Err(message: string)

  class Store {
    /** The stored records, in insertion order. */
    var repositories: seq<Repository>

    /** The store's invariant: no two records share an identifier. */
    ghost predicate Valid()
      reads this
    {
      UniqueIds(repositories)
    }

    /** The collection starts empty when the service starts. */
    constructor ()
      ensures Valid()
      ensures repositories == []
    {
      repositories := [];
    }

    /** GET /repositories: the whole collection as it is. */
    method List() returns (rs: seq<Repository>)
      ensures rs == repositories
    {
      rs := repositories;
    }

    /**
      The existence guard mounted on every `/repositories/:id` route: does a
      record with this id exist?
     */
    method ValidateId(id: Id) returns (found: bool)
      ensures found <==> HasId(repositories, id)
    {
      found := FindIndex(repositories, id) >= 0;
    }

    /**
      POST /repositories: a new record with the given fields, the fresh
      identifier `id` (the service draws a UUID) and no likes, appended at
      the end.
     */
    method Create(id: Id, title: string, url: string, techs: seq<string>) returns (repo: Repository)
      requires !HasId(repositories, id)
      modifies this
      ensures repo == Repository(id, title, url, techs, 0)
      ensures repositories == old(repositories) + [repo]
      ensures old(Valid()) ==> Valid() && LikesKept(old(repositories), repositories)
    {
      repo := Repository(id, title, url, techs, 0);
      if Valid() {
        CreateKeepsInvariants(repositories, repo);
      }
      repositories := repositories + [repo];
    }

    /**
      PUT /repositories/:id: overwrite title, url and techs of the record
      with this id, in place, keeping its id and likes.
     */
    method Replace(id: Id, title: string, url: string, techs: seq<string>) returns (resp: Response)
      modifies this
      ensures !HasId(old(repositories), id) ==>
                resp == Err(DATA_NOT_FOUND) && repositories == old(repositories)
      ensures HasId(old(repositories), id) ==>
                && repositories == Replaced(old(repositories), id, title, url, techs)
                && resp == Ok(repositories[FindIndex(old(repositories), id)])
      ensures old(Valid()) ==> Valid() && LikesKept(old(repositories), repositories)
    {
      var found := ValidateId(id);
      if !found {
        return Err(DATA_NOT_FOUND);
      }
      ReplaceKeepsIds(repositories, id, title, url, techs);
      if Valid() {
        ReplaceKeepsLikes(repositories, id, title, url, techs);
      }
      var idx := FindIndex(repositories, id);
      var repo := repositories[idx].(title := title, url := url, techs := techs);
      repositories := repositories[idx := repo];
      resp := Ok(repo);
    }

    /** DELETE /repositories/:id: take the record with this id out. */
    method Delete(id: Id) returns (resp: Response)
      modifies this
      ensures !HasId(old(repositories), id) ==>
                resp == Err(DATA_NOT_FOUND) && repositories == old(repositories)
      ensures HasId(old(repositories), id) ==>
                resp == NoContent && repositories == Removed(old(repositories), id)
      ensures old(Valid()) ==> Valid() && LikesKept(old(repositories), repositories)
    {
      var found := ValidateId(id);
      if !found {
        return Err(DATA_NOT_FOUND);
      }
      if Valid() {
        DeleteForgetsOnlyItsId(repositories, id);
      }
      var idx := FindIndex(repositories, id);
      SpliceAtFoundIndexRemoves(repositories, id);
      repositories := Splice(repositories, idx);
      resp := NoContent;
    }

    /**
      POST /repositories/:id/like: one more like for the record with this
      id. As in the service, the guard's lookup is not reused: a second
      first-match scan (`find`) picks the record to update.
     */
    method Like(id: Id) returns (resp: Response)
      modifies this
      ensures !HasId(old(repositories), id) ==>
                resp == Err(DATA_NOT_FOUND) && repositories == old(repositories)
      ensures HasId(old(repositories), id) ==>
                && repositories == Liked(old(repositories), id)
                && resp == Ok(repositories[FindIndex(old(repositories), id)])
      ensures old(Valid()) ==> Valid() && LikesKept(old(repositories), repositories)
    {
      var found := ValidateId(id);
      if !found {
        return Err(DATA_NOT_FOUND);
      }
      var repo := Find(repositories, id).value;
      // The record `find` returns is the element at the first matching index,
      // so incrementing it updates that element in place.
      FindAgreesWithFindIndex(repositories, id);
      var idx := FindIndex(repositories, id);
      repo := repo.(likes := repo.likes + 1);
      ghost var before := repositories;
      repositories := repositories[idx := repo];
      assert repositories == Liked(before, id);
      LikeKeepsIds(before, id);
      if UniqueIds(before) {
        LikeKeepsLikes(before, id);
      }
      resp := Ok(repo);
    }
  }

  /**
    An end-to-end client sequence: create, like, delete, list; then a
    replace of an unknown id.
   */
  method Scenario(id: Id, other: Id)
  {
    var store := new Store();
    var created := store.Create(id, "Demo", "http://x", ["Node.js"]);
    assert created.likes == 0 && created.id == id;
    assert store.repositories[0].id == id;
    var liked := store.Like(id);
    assert liked == Ok(Repository(id, "Demo", "http://x", ["Node.js"], 1));
    var deleted := store.Delete(id);
    assert deleted == NoContent;
    var all := store.List();
    assert all == [];
    var missing := store.Replace(other, "t", "u", []);
    assert missing == Err(DATA_NOT_FOUND);
    assert store.repositories == [];
  }
}
