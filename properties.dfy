/**
 * Properties of the task controller that relate several requests, or a
 * request and the listing that follows it.
 */
module ControllerProperties {
  import opened Records
  import opened Listing
  import opened TaskController

  /** A body that carries no field at all. */
  const EmptyBody := Body(None, None, None, None, None, None)

  // ---------------------------------------------------------------- guard

  /**
   * Ownership alone decides a record request: for a task owned by `owner`,
   * every other user gets 403 from all four record handlers and the
   * collection is untouched, while the owner gets through all four.
   */
  lemma OwnershipDecidesAccess(s: Store, id: TaskId, owner: UserId, other: UserId, b: Body)
    requires id in s && s[id].userId == owner && other != owner
    ensures GetTask(s, other, id) == Forbidden
    ensures UpdateTask(s, other, id, b) == Outcome(Forbidden, s)
    ensures DeleteTask(s, other, id) == Outcome(Forbidden, s)
    ensures MarkComplete(s, other, id) == Outcome(Forbidden, s)
    ensures GetTask(s, owner, id) == Ok(s[id])
    ensures UpdateTask(s, owner, id, b).response.Ok?
    ensures DeleteTask(s, owner, id).response == Deleted
    ensures MarkComplete(s, owner, id).response.Ok?
    ensures StatusCode(GetTask(s, other, id)) == 403
    ensures StatusCode(UpdateTask(s, other, id, b).response) == 403
    ensures StatusCode(DeleteTask(s, other, id).response) == 403
    ensures StatusCode(MarkComplete(s, other, id).response) == 403
    ensures StatusCode(GetTask(s, owner, id)) == 200
    ensures StatusCode(UpdateTask(s, owner, id, b).response) == 200
    ensures StatusCode(DeleteTask(s, owner, id).response) == 200
    ensures StatusCode(MarkComplete(s, owner, id).response) == 200
  {
  }

  /**
   * The existence check comes first: on a missing id all four record
   * handlers answer 404 whoever asks, and nothing changes.
   */
  lemma MissingIdIsNotFoundForEveryone(s: Store, id: TaskId, caller: UserId, b: Body)
    requires id !in s
    ensures GetTask(s, caller, id) == NotFound
    ensures UpdateTask(s, caller, id, b) == Outcome(NotFound, s)
    ensures DeleteTask(s, caller, id) == Outcome(NotFound, s)
    ensures MarkComplete(s, caller, id) == Outcome(NotFound, s)
    ensures StatusCode(GetTask(s, caller, id)) == 404
    ensures StatusCode(UpdateTask(s, caller, id, b).response) == 404
    ensures StatusCode(DeleteTask(s, caller, id).response) == 404
    ensures StatusCode(MarkComplete(s, caller, id).response) == 404
  {
  }

  // --------------------------------------------------------------- update

  /** An update overwrites exactly the fields present in the body. */
  lemma PatchAppliesPresentFields(t: Task, b: Body)
    ensures var u := Patched(t, b);
      (b.title.Some? ==> u.title == b.title) && (b.title.None? ==> u.title == t.title) &&
      (b.description.Some? ==> u.description == b.description) &&
      (b.description.None? ==> u.description == t.description) &&
      (b.dueDate.Some? ==> u.dueDate == b.dueDate) && (b.dueDate.None? ==> u.dueDate == t.dueDate) &&
      (b.priority.Some? ==> u.priority == b.priority) && (b.priority.None? ==> u.priority == t.priority) &&
      (b.status.Some? ==> u.status == b.status.value) && (b.status.None? ==> u.status == t.status) &&
      (b.userId.Some? ==> u.userId == b.userId.value) && (b.userId.None? ==> u.userId == t.userId)
  {
  }

  /** An empty body changes nothing; applying the same body twice is applying it once. */
  lemma PatchEmptyAndIdempotent(t: Task, b: Body)
    ensures Patched(t, EmptyBody) == t
    ensures Patched(Patched(t, b), b) == Patched(t, b)
  {
  }

  /**
   * The owner is NOT immutable: an owner's update whose body names another
   * user hands the task over. Afterwards the new owner may read it and the
   * previous owner is refused with 403.
   */
  lemma UpdateCanReassignOwner(s: Store, id: TaskId, owner: UserId, other: UserId, b: Body)
    requires id in s && s[id].userId == owner && other != owner
    requires b.userId == Some(other)
    ensures var s' := UpdateTask(s, owner, id, b).store;
      GetTask(s', other, id).Ok? && GetTask(s', owner, id) == Forbidden
  {
  }

  // ------------------------------------------------------------- complete

  /**
   * Completing changes the status and nothing else, and completing twice
   * answers and stores the same as completing once.
   */
  lemma MarkCompleteIdempotent(s: Store, caller: UserId, id: TaskId)
    requires id in s && s[id].userId == caller
    ensures var o := MarkComplete(s, caller, id);
      o.response.task.status == "completed" &&
      o.response.task == s[id].(status := "completed") &&
      MarkComplete(o.store, caller, id) == o
  {
    var o := MarkComplete(s, caller, id);
    assert o.store[id] == Completed(s[id]);
    assert Completed(Completed(s[id])) == Completed(s[id]);
    assert o.store[id := Completed(o.store[id])] == o.store;
  }

  // --------------------------------------------------------------- delete

  /** After the owner deletes a task, a get on that id answers 404, for anyone. */
  lemma DeleteThenGetIsNotFound(s: Store, caller: UserId, id: TaskId, anyone: UserId)
    requires id in s && s[id].userId == caller
    ensures GetTask(DeleteTask(s, caller, id).store, anyone, id) == NotFound
  {
  }

  // -------------------------------------------------------------- listing

  /** The listing depends only on the set of records the caller owns. */
  lemma {:induction false} ListingDeterminedByOwned(s1: Store, s2: Store, u: UserId)
    requires forall t :: t in s1.Values && t.userId == u <==> t in s2.Values && t.userId == u
    ensures GetAllTasks(s1, u) == GetAllTasks(s2, u)
  {
    assert OwnedBy(s1, u) == OwnedBy(s2, u);
  }

  /** A stored record other than the one under `id` sits under some other id. */
  lemma {:induction false} ValueOutside(s: Store, id: TaskId, t: Task)
    requires t in s.Values && (id in s ==> s[id] != t)
    ensures exists k :: k in s && k != id && s[k] == t
  {
    var k :| k in s && s[k] == t;
    assert k != id;
  }

  /**
   * A delete by the owner leaves every other user's listing as it was.
   */
  lemma {:induction false} DeleteKeepsOtherListings(s: Store, caller: UserId, id: TaskId, other: UserId)
    requires other != caller
    ensures GetAllTasks(DeleteTask(s, caller, id).store, other) == GetAllTasks(s, other)
  {
    var s' := DeleteTask(s, caller, id).store;
    forall t | t in s.Values && t.userId == other
      ensures t in s'.Values
    {
      if id in s && s[id].userId == caller {
        ValueOutside(s, id, t);
        var k :| k in s && k != id && s[k] == t;
        assert s'[k] == t;
      }
    }
    ListingDeterminedByOwned(s', s, other);
  }

  /**
   * Completing a task leaves every other user's listing as it was: the
   * owner does not change.
   */
  lemma {:induction false} MarkCompleteKeepsOtherListings(s: Store, caller: UserId, id: TaskId, other: UserId)
    requires other != caller
    ensures GetAllTasks(MarkComplete(s, caller, id).store, other) == GetAllTasks(s, other)
  {
    var s' := MarkComplete(s, caller, id).store;
    if id in s && s[id].userId == caller {
      forall t | t in s.Values && t.userId == other
        ensures t in s'.Values
      {
        ValueOutside(s, id, t);
        var k :| k in s && k != id && s[k] == t;
        assert s'[k] == t;
      }
      forall t | t in s'.Values && t.userId == other
        ensures t in s.Values
      {
        var k :| k in s' && s'[k] == t;
        assert k != id;
      }
    }
    ListingDeterminedByOwned(s', s, other);
  }

  /**
   * An update leaves the listing of every user other than the caller as it
   * was, unless its body hands the task to that very user (see
   * UpdateCanReassignOwner).
   */
  lemma {:induction false} UpdateKeepsOtherListings(s: Store, caller: UserId, id: TaskId, b: Body, other: UserId)
    requires other != caller
    requires b.userId != Some(other)
    ensures GetAllTasks(UpdateTask(s, caller, id, b).store, other) == GetAllTasks(s, other)
  {
    var s' := UpdateTask(s, caller, id, b).store;
    if id in s && s[id].userId == caller {
      forall t | t in s.Values && t.userId == other
        ensures t in s'.Values
      {
        ValueOutside(s, id, t);
        var k :| k in s && k != id && s[k] == t;
        assert s'[k] == t;
      }
      forall t | t in s'.Values && t.userId == other
        ensures t in s.Values
      {
        var k :| k in s' && s'[k] == t;
        assert k != id;
      }
    }
    ListingDeterminedByOwned(s', s, other);
  }

  /**
   * A create adds to the caller's listing only: every other user's listing
   * is as it was.
   */
  lemma {:induction false} CreateKeepsOtherListings(s: Store, caller: UserId, b: Body, id: TaskId, stamp: Stamp, other: UserId)
    requires id !in s && other != caller
    ensures GetAllTasks(CreateTask(s, caller, b, id, stamp).store, other) == GetAllTasks(s, other)
  {
    var s' := CreateTask(s, caller, b, id, stamp).store;
    forall t | t in s.Values && t.userId == other
      ensures t in s'.Values
    {
      var k :| k in s && s[k] == t;
      assert s'[k] == t;
    }
    forall t | t in s'.Values && t.userId == other
      ensures t in s.Values
    {
      var k :| k in s' && s'[k] == t;
      assert k != id;
    }
    ListingDeterminedByOwned(s', s, other);
  }

  /**
   * In a newest-first listing without repeats, a record strictly newer
   * than all others comes first and the rest are the others.
   */
  lemma {:induction false} StrictlyNewestHeadsListing(r: seq<Task>, t0: Task)
    requires NewestFirstOrder(r) && Distinct(r) && t0 in r
    requires forall t :: t in r && t != t0 ==> t.createdAt < t0.createdAt
    ensures r[0] == t0
    ensures forall t :: t in r[1..] <==> t in r && t != t0
  {
    var i :| 0 <= i < |r| && r[i] == t0;
    assert r[0] in r && r[0].createdAt >= r[i].createdAt;
    forall t ensures t in r[1..] <==> t in r && t != t0 {
      if t in r[1..] {
        var j :| 1 <= j < |r| && r[j] == t;
        assert r[0] != r[j];
      }
      if t in r && t != t0 {
        var j :| 0 <= j < |r| && r[j] == t;
        assert r[1..][j - 1] == t;
      }
    }
  }

  /** A create adds exactly the new record to the creator's owned records. */
  lemma {:induction false} CreateAddsToOwned(s: Store, caller: UserId, b: Body, id: TaskId, stamp: Stamp)
    requires id !in s
    ensures var o := CreateTask(s, caller, b, id, stamp);
      OwnedBy(o.store, caller) == OwnedBy(s, caller) + {o.response.task}
  {
    var o := CreateTask(s, caller, b, id, stamp);
    var s' := o.store;
    forall t | t in OwnedBy(s, caller) ensures t in OwnedBy(s', caller) {
      var k :| k in s && s[k] == t;
      assert s'[k] == t;
    }
    assert s'[id] == o.response.task;
  }

  /**
   * A task created with a stamp later than every stored one heads the
   * creator's listing, and the listing grows by exactly that record.
   */
  lemma {:induction false} CreatedTaskListedFirst(s: Store, caller: UserId, b: Body, id: TaskId, stamp: Stamp)
    requires id !in s
    requires forall k :: k in s ==> s[k].createdAt < stamp
    ensures var o := CreateTask(s, caller, b, id, stamp);
      var before := GetAllTasks(s, caller).tasks;
      var after := GetAllTasks(o.store, caller).tasks;
      |after| == |before| + 1 && after[0] == o.response.task &&
      forall t :: t in after[1..] <==> t in before
  {
    var o := CreateTask(s, caller, b, id, stamp);
    var t0 := o.response.task;
    var after := GetAllTasks(o.store, caller).tasks;
    CreateAddsToOwned(s, caller, b, id, stamp);
    assert t0 !in s.Values by {
      forall k | k in s ensures s[k] != t0 { }
    }
    forall t | t in after && t != t0 ensures t.createdAt < t0.createdAt {
      var k :| k in s && s[k] == t;
    }
    StrictlyNewestHeadsListing(after, t0);
  }

  /**
   * The owner's delete takes exactly that record out of their own listing:
   * it is one shorter and holds every other record it held before.
   */
  lemma {:induction false} DeleteShrinksOwnListing(s: Store, caller: UserId, id: TaskId)
    requires WellKeyed(s) && id in s && s[id].userId == caller
    ensures var before := GetAllTasks(s, caller).tasks;
      var after := GetAllTasks(DeleteTask(s, caller, id).store, caller).tasks;
      |after| == |before| - 1 &&
      (forall t :: t in after <==> t in before && t.id != id)
  {
    var s' := DeleteTask(s, caller, id).store;
    var gone := s[id];
    assert OwnedBy(s', caller) == OwnedBy(s, caller) - {gone} by {
      forall t | t in OwnedBy(s, caller) && t != gone ensures t in OwnedBy(s', caller) {
        ValueOutside(s, id, t);
        var k :| k in s && k != id && s[k] == t;
        assert s'[k] == t;
      }
      forall t | t in OwnedBy(s', caller) ensures t != gone {
        var k :| k in s' && s'[k] == t;
        assert t.id == k;
      }
    }
    assert gone in OwnedBy(s, caller) by { assert s[id] == gone; }
    forall t | t in OwnedBy(s, caller)
      ensures t.id == id <==> t == gone
    {
      var k :| k in s && s[k] == t;
      assert t.id == k;
    }
  }

  // ------------------------------------------------------------- scenario

  /**
   * Ann creates a task titled "HW" in an empty collection: it is owned by
   * Ann's id and has status "pending"; another user who asks for it gets
   * 403 while Ann gets it back.
   */
  lemma CreateThenStrangerForbidden(ann: UserId, bob: UserId, id: TaskId, stamp: Stamp)
    requires ann != bob
    ensures var o := CreateTask(map[], ann, EmptyBody.(title := Some("HW")), id, stamp);
      o.response.Created? && StatusCode(o.response) == 201 && o.response.task.userId == ann &&
      o.response.task.status == "pending" &&
      GetTask(o.store, bob, id) == Forbidden &&
      GetTask(o.store, ann, id) == Ok(o.response.task)
  {
  }
}
