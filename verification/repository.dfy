/**
  The repository record kept by the service, and the two first-match
  lookups its handlers run over the collection: `findIndex` (the id guard,
  replace and delete) and `find` (like).
 */
module Repositories {

  /** An opaque identifier; the service generates one per created record. */
  type Id = string

  /** One stored record: `{id, title, url, techs, likes}`. */
  datatype Repository = Repository(
    id: Id,
    title: string,
    url: string,
    techs: seq<string>,
    likes: nat)

  datatype Option<T> = None | Some(value: T)

  /** Some record of `s` carries identifier `id`. */
  predicate HasId(s: seq<Repository>, id: Id) {
    exists i :: 0 <= i < |s| && s[i].id == id
  }

  /** The identifiers of `s`, position by position. */
  function Ids(s: seq<Repository>): (ids: seq<Id>)
    ensures |ids| == |s|
    ensures forall i :: 0 <= i < |s| ==> ids[i] == s[i].id
  {
    seq(|s|, i requires 0 <= i < |s| => s[i].id)
  }

  /** No two records of `s` share an identifier. */
  ghost predicate UniqueIds(s: seq<Repository>) {
    forall i, j :: 0 <= i < |s| && 0 <= j < |s| && s[i].id == s[j].id ==> i == j
  }

  /**
    The index of the first record whose id is `id`, or -1 when there is
    none, as `Array.prototype.findIndex` answers.
   */
  function FindIndex(s: seq<Repository>, id: Id): (r: int)
    ensures -1 <= r < |s|
    ensures r == -1 <==> !HasId(s, id)
    ensures 0 <= r ==> s[r].id == id && forall j :: 0 <= j < r ==> s[j].id != id
  {
    if s == [] then -1
    else if s[0].id == id then 0
    else
      var k := FindIndex(s[1..], id);
      assert forall j :: 0 <= j < |s[1..]| ==> s[1..][j] == s[j + 1];
      if k < 0 then -1 else k + 1
  }

  /**
    The first record whose id is `id`, or None (JavaScript's `undefined`)
    when there is none, as `Array.prototype.find` answers.
   */
  function Find(s: seq<Repository>, id: Id): (r: Option<Repository>)
    ensures r.None? <==> !HasId(s, id)
    ensures r.Some? ==> r.value.id == id && r.value in s
  {
    if s == [] then None
    else if s[0].id == id then Some(s[0])
    else
      assert forall j :: 0 <= j < |s[1..]| ==> s[1..][j] == s[j + 1];
      Find(s[1..], id)
  }

  /**
    `find` and `findIndex` select the same record: the one `find` returns
    is the element at the index `findIndex` returns.
   */
  lemma {:induction false} FindAgreesWithFindIndex(s: seq<Repository>, id: Id)
    ensures var i := FindIndex(s, id);
            Find(s, id) == if i < 0 then None else Some(s[i])
  {
    if s != [] && s[0].id != id {
      FindAgreesWithFindIndex(s[1..], id);
    }
  }

  /**
    With unique identifiers the first match is the only match: both lookups
    select the record at the one index that carries `id`.
   */
  lemma FirstMatchIsOnlyMatch(s: seq<Repository>, id: Id, i: nat)
    requires UniqueIds(s)
    requires i < |s| && s[i].id == id
    ensures FindIndex(s, id) == i
    ensures Find(s, id) == Some(s[i])
  {
  }

  /**
    Two collections with the same identifiers at the same positions answer
    every lookup by index alike.
   */
  lemma FindIndexDependsOnlyOnIds(s: seq<Repository>, t: seq<Repository>, id: Id)
    requires Ids(s) == Ids(t)
    ensures FindIndex(s, id) == FindIndex(t, id)
  {
  }
}
