/**
 * The listing query of `getAllTasks`: keep the records whose owner is the
 * caller, then order them by creation stamp, newest first. Records with
 * equal stamps may come in any order, as the store does not promise one.
 */
module Listing {
  import opened Records

  /**
   * The records of `s` owned by `owner`. When every record sits under its
   * own id, the result holds the record of every key the owner owns, each
   * member is the record stored under its id, and no two members share an id.
   */
  function OwnedBy(s: Store, owner: UserId): (ts: set<Task>)
    ensures forall t :: t in ts <==> t in s.Values && t.userId == owner
    ensures WellKeyed(s) ==> forall k :: k in s && s[k].userId == owner ==> s[k] in ts
    ensures WellKeyed(s) ==> forall t :: t in ts ==> t.id in s && s[t.id] == t
    ensures WellKeyed(s) ==> forall t, u :: t in ts && u in ts && t.id == u.id ==> t == u
  {
    set t | t in s.Values && t.userId == owner
  }

  /** `r` lists newest first: stamps never increase along it. */
  ghost predicate NewestFirstOrder(r: seq<Task>)
  {
    forall i, j :: 0 <= i < j < |r| ==> r[i].createdAt >= r[j].createdAt
  }

  /** No record occurs twice in `r`. */
  ghost predicate Distinct(r: seq<Task>)
  {
    forall i, j :: 0 <= i < j < |r| ==> r[i] != r[j]
  }

  /** `t` has the largest stamp in `ts`. */
  ghost predicate IsNewest(t: Task, ts: set<Task>)
  {
    t in ts && forall u :: u in ts ==> u.createdAt <= t.createdAt
  }

  /** Every non-empty set of records has a newest one. */
  lemma {:induction false} NewestExists(ts: set<Task>)
    requires ts != {}
    ensures exists t :: IsNewest(t, ts)
  {
    var x :| x in ts;
    var rest := ts - {x};
    if rest == {} {
      assert ts == {x};
      assert IsNewest(x, ts);
    } else {
      NewestExists(rest);
      var y :| IsNewest(y, rest);
      if x.createdAt <= y.createdAt {
        assert IsNewest(y, ts);
      } else {
        assert IsNewest(x, ts);
      }
    }
  }

  /** The records of `ts`, each exactly once, newest first. */
  ghost function NewestFirst(ts: set<Task>): (r: seq<Task>)
    ensures |r| == |ts|
    ensures forall t :: t in r <==> t in ts
    ensures NewestFirstOrder(r)
    ensures Distinct(r)
    decreases ts
  {
    if ts == {} then []
    else
      NewestExists(ts);
      var t :| IsNewest(t, ts);
      [t] + NewestFirst(ts - {t})
  }
}
