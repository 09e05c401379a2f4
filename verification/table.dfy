/**
  What each id-addressed handler does to the collection, stated on values:
  the guard has already found the id or the collection is left as it is.
  The lemmas here are the invariants the store keeps: identifiers stay
  unique and immutable, and likes never decrease.
 */
module RepositoryTable {
  import opened Repositories

  /**
    Replace: the first record with `id` keeps its id and likes and takes
    the new title, url and techs, at the same index.
   */
  function Replaced(s: seq<Repository>, id: Id, title: string, url: string, techs: seq<string>)
    : (r: seq<Repository>)
    ensures !HasId(s, id) ==> r == s
    ensures |r| == |s|
    ensures HasId(s, id) ==>
              var i := FindIndex(s, id);
              && r[i] == Repository(s[i].id, title, url, techs, s[i].likes)
              && forall j :: 0 <= j < |s| && j != i ==> r[j] == s[j]
  {
    var i := FindIndex(s, id);
    if i < 0 then s else s[i := s[i].(title := title, url := url, techs := techs)]
  }

  /**
    Delete: the first record with `id` is taken out; the records before it
    stay where they were and those after it move down by one.
   */
  function Removed(s: seq<Repository>, id: Id): (r: seq<Repository>)
    ensures !HasId(s, id) ==> r == s
    ensures HasId(s, id) ==>
              var i := FindIndex(s, id);
              && |r| == |s| - 1
              && (forall j :: 0 <= j < i ==> r[j] == s[j])
              && (forall j :: i <= j < |r| ==> r[j] == s[j + 1])
  {
    var i := FindIndex(s, id);
    if i < 0 then s else s[..i] + s[i + 1..]
  }

  /**
    Like: the first record with `id` gains one like; no other field and no
    other record changes.
   */
  function Liked(s: seq<Repository>, id: Id): (r: seq<Repository>)
    ensures !HasId(s, id) ==> r == s
    ensures |r| == |s|
    ensures HasId(s, id) ==>
              var i := FindIndex(s, id);
              && r[i] == s[i].(likes := s[i].likes + 1)
              && forall j :: 0 <= j < |s| && j != i ==> r[j] == s[j]
  {
    var i := FindIndex(s, id);
    if i < 0 then s else s[i := s[i].(likes := s[i].likes + 1)]
  }

  /** `k` successive likes of the same id. */
  function LikedTimes(s: seq<Repository>, id: Id, k: nat): (r: seq<Repository>)
    ensures |r| == |s|
  {
    if k == 0 then s else Liked(LikedTimes(s, id, k - 1), id)
  }

  /**
    A record's like count, followed across a change of the collection by
    its id, never goes down.
   */
  ghost predicate LikesKept(before: seq<Repository>, after: seq<Repository>) {
    forall i, j :: 0 <= i < |before| && 0 <= j < |after| && before[i].id == after[j].id ==>
      before[i].likes <= after[j].likes
  }

  /**
    Create with a fresh identifier keeps the identifiers unique and lowers
    no record's like count.
   */
  lemma CreateKeepsInvariants(s: seq<Repository>, repo: Repository)
    requires UniqueIds(s)
    requires !HasId(s, repo.id)
    ensures UniqueIds(s + [repo])
    ensures LikesKept(s, s + [repo])
  {
  }

  /**
    Replace leaves every identifier where it was, so it keeps them unique
    and keeps every later lookup by id landing on the same index.
   */
  lemma ReplaceKeepsIds(s: seq<Repository>, id: Id, title: string, url: string, techs: seq<string>)
    ensures var r := Replaced(s, id, title, url, techs);
            Ids(r) == Ids(s) && (UniqueIds(s) ==> UniqueIds(r))
            && forall x :: FindIndex(r, x) == FindIndex(s, x)
  {
    var r := Replaced(s, id, title, url, techs);
    assert Ids(r) == Ids(s);
    forall x ensures FindIndex(r, x) == FindIndex(s, x) {
      FindIndexDependsOnlyOnIds(r, s, x);
    }
  }

  /** With unique identifiers, replace never lowers any record's count. */
  lemma ReplaceKeepsLikes(s: seq<Repository>, id: Id, title: string, url: string, techs: seq<string>)
    requires UniqueIds(s)
    ensures LikesKept(s, Replaced(s, id, title, url, techs))
  {
  }

  /**
    Like leaves every identifier where it was, so it keeps them unique and
    keeps every later lookup by id landing on the same index.
   */
  lemma LikeKeepsIds(s: seq<Repository>, id: Id)
    ensures var r := Liked(s, id);
            Ids(r) == Ids(s) && (UniqueIds(s) ==> UniqueIds(r))
            && forall x :: FindIndex(r, x) == FindIndex(s, x)
  {
    var r := Liked(s, id);
    assert Ids(r) == Ids(s);
    forall x ensures FindIndex(r, x) == FindIndex(s, x) {
      FindIndexDependsOnlyOnIds(r, s, x);
    }
  }

  /** With unique identifiers, a like never lowers any record's count. */
  lemma LikeKeepsLikes(s: seq<Repository>, id: Id)
    requires UniqueIds(s)
    ensures LikesKept(s, Liked(s, id))
  {
  }

  /** Delete removes exactly one record: the one it found. */
  lemma DeleteRemovesOneRecord(s: seq<Repository>, id: Id)
    requires HasId(s, id)
    ensures multiset(Removed(s, id)) + multiset{s[FindIndex(s, id)]} == multiset(s)
  {
    TakeOneOut(s, FindIndex(s, id));
  }

  /** Cutting the element at `i` out of a sequence loses exactly that element. */
  lemma TakeOneOut<T>(s: seq<T>, i: nat)
    requires i < |s|
    ensures multiset(s[..i] + s[i + 1..]) + multiset{s[i]} == multiset(s)
  {
    assert s == s[..i] + [s[i]] + s[i + 1..];
  }

  /**
    With unique identifiers, delete forgets exactly the given id: it is no
    longer found, every other id is found exactly when it was before, the
    identifiers stay unique and no remaining record loses likes.
   */
  lemma DeleteForgetsOnlyItsId(s: seq<Repository>, id: Id)
    requires UniqueIds(s)
    ensures var r := Removed(s, id);
            && UniqueIds(r)
            && !HasId(r, id)
            && (forall x :: x != id ==> (HasId(r, x) <==> HasId(s, x)))
            && LikesKept(s, r)
  {
    var r := Removed(s, id);
    if HasId(s, id) {
      var i := FindIndex(s, id);
      // Records before the deleted one stay put; those after it move down by one.
      assert forall j :: 0 <= j < |r| ==> r[j] == s[if j < i then j else j + 1];
      forall x | x != id && HasId(s, x) ensures HasId(r, x) {
        var k :| 0 <= k < |s| && s[k].id == x;
        assert k != i;
        if k < i {
          assert r[k].id == x;
        } else {
          assert r[k - 1].id == x;
        }
      }
    }
  }

  /**
    `k` likes of a stored id raise its count by exactly `k`, at the index the
    lookup found, and touch no other record.
   */
  lemma {:induction false} LikedTimesCounts(s: seq<Repository>, id: Id, k: nat)
    requires HasId(s, id)
    ensures FindIndex(LikedTimes(s, id, k), id) == FindIndex(s, id)
    ensures LikedTimes(s, id, k)[FindIndex(s, id)] == s[FindIndex(s, id)].(likes := s[FindIndex(s, id)].likes + k)
    ensures forall j :: 0 <= j < |s| && j != FindIndex(s, id) ==> LikedTimes(s, id, k)[j] == s[j]
  {
    if k > 0 {
      var i, prev := FindIndex(s, id), LikedTimes(s, id, k - 1);
      LikedTimesCounts(s, id, k - 1);
      assert prev[i].id == id;
      LikeKeepsIndex(prev, id);
      var r := LikedTimes(s, id, k);
      assert r == Liked(prev, id);
      assert r[i] == prev[i].(likes := prev[i].likes + 1);
      forall j | 0 <= j < |s| && j != i
        ensures r[j] == s[j]
      {
        assert r[j] == prev[j];
      }
    }
  }

  /** A like leaves the liked record where the lookup finds it. */
  lemma LikeKeepsIndex(s: seq<Repository>, id: Id)
    requires HasId(s, id)
    ensures FindIndex(Liked(s, id), id) == FindIndex(s, id)
  {
    var i, r := FindIndex(s, id), Liked(s, id);
    assert r[i].id == id;
    assert forall j :: 0 <= j < i ==> r[j].id != id;
  }

  /**
    A freshly created record (likes 0, new id, appended at the end) that is
    then liked `k` times has exactly `k` likes.
   */
  lemma FreshRecordLikedTimes(s: seq<Repository>, id: Id, title: string, url: string,
                              techs: seq<string>, k: nat)
    requires !HasId(s, id)
    ensures LikedTimes(s + [Repository(id, title, url, techs, 0)], id, k)[|s|].likes == k
  {
    var t := s + [Repository(id, title, url, techs, 0)];
    assert t[|s|].id == id;
    assert FindIndex(t, id) == |s|;
    LikedTimesCounts(t, id, k);
  }

  /**
    `Array.prototype.splice(start, 1)`: a negative start counts from the end
    (and is clamped to 0), a start past the end is clamped to the length, and
    at most one element is deleted.
   */
  function Splice(s: seq<Repository>, start: int): (r: seq<Repository>)
    ensures |s| - 1 <= |r| <= |s|
  {
    var from := if start < 0 then (if |s| + start < 0 then 0 else |s| + start)
                else if start < |s| then start else |s|;
    var count := if from < |s| then 1 else 0;
    s[..from] + s[from + count..]
  }

  /** On a present id, the splice the delete handler runs is exactly Removed. */
  lemma SpliceAtFoundIndexRemoves(s: seq<Repository>, id: Id)
    requires HasId(s, id)
    ensures Splice(s, FindIndex(s, id)) == Removed(s, id)
  {
  }

  /**
    Without the guard, deleting an absent id would splice at -1 and drop the
    last record of a non-empty collection; the guard makes it a no-op.
   */
  lemma UnguardedDeleteDropsLast(s: seq<Repository>, id: Id)
    requires !HasId(s, id) && s != []
    ensures Splice(s, FindIndex(s, id)) == s[..|s| - 1]
    ensures Splice(s, FindIndex(s, id)) != s
    ensures Removed(s, id) == s
  {
  }
}
