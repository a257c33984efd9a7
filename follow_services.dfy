/** The follow graph: one user following another, and undoing a follow by
    the id of its row. Neither runs in a transaction; each is one
    statement on the follow table. */
module FollowServices {
  import opened Wrappers
  import opened Store
  import opened Responses
  import opened DataRepos
  import opened Integrity
  import opened UserServices

  /** The body of a follow request: `userId` follows `userBeingFollowedId`. */
  datatype FollowRequest = FollowRequest(userId: int, userBeingFollowedId: int)

  // ---------------------------------------------------------------------------
  // Follow
  // ---------------------------------------------------------------------------

  /** ValidateFollow, checked in order: a falsy id, either account missing,
      then a user following themself. */
  function ValidateFollow(t: Tables, req: FollowRequest): (err: Option<Error>)
    ensures err == Some(MissingContent) <==> req.userId == 0 || req.userBeingFollowedId == 0
    ensures err == Some(NotFound) <==>
      && req.userId != 0 && req.userBeingFollowedId != 0
      && (req.userId !in t.users || req.userBeingFollowedId !in t.users)
    ensures err.None? <==>
      && req.userId != 0 && req.userBeingFollowedId != 0
      && req.userId in t.users && req.userBeingFollowedId in t.users
      && req.userId != req.userBeingFollowedId
    ensures err == Some(BadRequest) <==>
      && req.userId != 0 && req.userBeingFollowedId != 0
      && req.userId in t.users && req.userBeingFollowedId in t.users
      && req.userId == req.userBeingFollowedId
  {
    if req.userId == 0 || req.userBeingFollowedId == 0 then Some(MissingContent)
    else if !IsUserExistsById(t, req.userId) || !IsUserExistsById(t, req.userBeingFollowedId) then Some(NotFound)
    else if req.userId == req.userBeingFollowedId then Some(BadRequest)
    else None
  }

  /** The row a follow inserts. */
  function FollowRowOf(req: FollowRequest): FollowRow {
    FollowRow(req.userId, req.userBeingFollowedId)
  }

  /** The tables after a successful follow. */
  function FollowResult(t: Tables, req: FollowRequest): Tables {
    InsertFollow(t, FollowRowOf(req)).0
  }

  /** Follow. A rejected request and an insert that raises leave the
      database as it was. */
  method Follow(db: Database, req: FollowRequest, fault: Option<nat>) returns (o: Outcome<FollowInfo>)
    requires db.Valid()
    modifies db
    ensures db.Valid()
    ensures ValidateFollow(old(db.Snapshot()), req).Some? ==>
      o == Failed(ValidateFollow(old(db.Snapshot()), req).value) && db.Snapshot() == old(db.Snapshot())
    ensures ValidateFollow(old(db.Snapshot()), req).None? ==>
      if Raises(fault, 1) then o == Failed(ServerError) && db.Snapshot() == old(db.Snapshot())
      else o == Created && db.Snapshot() == FollowResult(old(db.Snapshot()), req)
  {
    var t := db.Snapshot();
    var errors := ValidateFollow(t, req);
    if errors.Some? {
      return Failed(errors.value);
    }
    if fault == Some(0) {
      return Failed(ServerError);
    }
    var inserted := InsertFollow(t, FollowRow(req.userId, req.userBeingFollowedId));
    db.Commit(inserted.0);
    return Created;
  }

  /** A follow adds exactly one row, under a fresh id, and keeps every other
      row and every other table. */
  lemma FollowAddsOneRow(t: Tables, req: FollowRequest)
    requires WellFormed(t)
    ensures
      var t' := FollowResult(t, req);
      var id := t.nextFollowId;
      && id !in t.follows && t'.follows == t.follows[id := FollowRowOf(req)]
      && |t'.follows| == |t.follows| + 1
      && t'.users == t.users && t'.photos == t.photos && t'.projects == t.projects
      && t'.collaborators == t.collaborators
  {
  }

  /** There is no duplicate check: a follow leaves the validator's answer to
      the same request as it was, and following the same user twice stores
      two rows with the same ends under different ids. */
  lemma FollowTwiceStoresTwoRows(t: Tables, req: FollowRequest)
    requires WellFormed(t)
    ensures ValidateFollow(FollowResult(t, req), req) == ValidateFollow(t, req)
    ensures
      var t2 := FollowResult(FollowResult(t, req), req);
      && t2.follows[t.nextFollowId] == FollowRowOf(req) && t2.follows[t.nextFollowId + 1] == FollowRowOf(req)
      && |t2.follows| == |t.follows| + 2
  {
    FollowAddsOneRow(t, req);
    FollowAddsOneRow(FollowResult(t, req), req);
  }

  /** An accepted follow keeps the tables consistent. */
  lemma FollowPreservesConsistency(t: Tables, req: FollowRequest)
    requires Consistent(t) && ValidateFollow(t, req).None?
    ensures Consistent(FollowResult(t, req))
  {
    var t' := FollowResult(t, req);
    assert TypesMatch(t') by {
      forall q | q in t'.projects ensures t'.projects[q].projectType == GP <==> HasCollaborator(t', q) {
        assert HasCollaborator(t', q) <==> HasCollaborator(t, q);
      }
    }
  }

  /** After a follow the followed user's profile gains the new row among its
      followers and the follower's profile gains it among its followings;
      no other user gains a follower. */
  lemma FollowUpdatesProfiles(t: Tables, req: FollowRequest)
    requires WellFormed(t)
    ensures
      var t' := FollowResult(t, req);
      var info := FollowInfo(t.nextFollowId, req.userId, req.userBeingFollowedId);
      && Followers(t', req.userBeingFollowedId) == Followers(t, req.userBeingFollowedId) + {info}
      && Followings(t', req.userId) == Followings(t, req.userId) + {info}
      && (forall u :: u != req.userBeingFollowedId ==> Followers(t', u) == Followers(t, u))
  {
    var t' := FollowResult(t, req);
    var id := t.nextFollowId;
    FollowListsMembers(t, req.userBeingFollowedId);
    FollowListsMembers(t', req.userBeingFollowedId);
    FollowListsMembers(t, req.userId);
    FollowListsMembers(t', req.userId);
    forall u | u != req.userBeingFollowedId ensures Followers(t', u) == Followers(t, u) {
      FollowListsMembers(t, u);
      FollowListsMembers(t', u);
    }
  }

  // ---------------------------------------------------------------------------
  // Unfollow
  // ---------------------------------------------------------------------------

  /** ValidateUnfollow. For a missing id `.first()` gives undefined, and the
      guard `!followRecord && followRecord.length === 0` reads `length` of
      undefined, which raises; the catch answers 503. The 404 branch is
      therefore never taken. */
  function ValidateUnfollow(t: Tables, followId: int): (err: Option<Error>)
    ensures err.None? <==> followId in t.follows
    ensures err != Some(NotFound)
  {
    var followRecord := if followId in t.follows then Some(t.follows[followId]) else None;
    if followRecord.None? then Some(ServerError) else None
  }

  /** The tables after a successful unfollow. */
  function UnfollowResult(t: Tables, followId: int): Tables {
    DeleteFollow(t, followId)
  }

  /** Unfollow. A missing id and a delete that raises leave the database as
      it was. */
  method Unfollow(db: Database, followId: int, fault: Option<nat>) returns (o: Outcome<FollowInfo>)
    requires db.Valid()
    modifies db
    ensures db.Valid()
    ensures ValidateUnfollow(old(db.Snapshot()), followId).Some? ==>
      o == Failed(ServerError) && db.Snapshot() == old(db.Snapshot())
    ensures ValidateUnfollow(old(db.Snapshot()), followId).None? ==>
      if Raises(fault, 1) then o == Failed(ServerError) && db.Snapshot() == old(db.Snapshot())
      else o == Deleted && db.Snapshot() == UnfollowResult(old(db.Snapshot()), followId)
  {
    var t := db.Snapshot();
    var errors := ValidateUnfollow(t, followId);
    if errors.Some? {
      return Failed(errors.value);
    }
    if fault == Some(0) {
      return Failed(ServerError);
    }
    db.Commit(DeleteFollow(t, followId));
    return Deleted;
  }

  /** An unfollow deletes exactly the named row and keeps every other row
      and every other table. */
  lemma UnfollowRemovesOneRow(t: Tables, followId: int)
    requires followId in t.follows
    ensures
      var t' := UnfollowResult(t, followId);
      && followId !in t'.follows && |t'.follows| == |t.follows| - 1
      && (forall id :: id in t.follows && id != followId ==> id in t'.follows && t'.follows[id] == t.follows[id])
      && t'.follows.Keys <= t.follows.Keys
      && t'.users == t.users && t'.photos == t.photos && t'.projects == t.projects
      && t'.collaborators == t.collaborators
  {
  }

  /** Unfollowing the row a follow just inserted gives the follow table back. */
  lemma FollowThenUnfollow(t: Tables, req: FollowRequest)
    requires WellFormed(t)
    ensures UnfollowResult(FollowResult(t, req), t.nextFollowId).follows == t.follows
    ensures ValidateUnfollow(FollowResult(t, req), t.nextFollowId).None?
  {
    FollowAddsOneRow(t, req);
  }

  /** An unfollow keeps the tables consistent. */
  lemma UnfollowPreservesConsistency(t: Tables, followId: int)
    requires Consistent(t)
    ensures Consistent(UnfollowResult(t, followId))
  {
    var t' := UnfollowResult(t, followId);
    assert TypesMatch(t') by {
      forall q | q in t'.projects ensures t'.projects[q].projectType == GP <==> HasCollaborator(t', q) {
        assert HasCollaborator(t', q) <==> HasCollaborator(t, q);
      }
    }
  }

  /** After an unfollow the row is gone from the followed user's followers
      and from the follower's followings, and nothing else changes there. */
  lemma UnfollowUpdatesProfiles(t: Tables, followId: int)
    requires followId in t.follows
    ensures
      var t' := UnfollowResult(t, followId);
      var row := t.follows[followId];
      var info := FollowInfoOf(t, followId);
      && Followers(t', row.followedUserId) == Followers(t, row.followedUserId) - {info}
      && Followings(t', row.userId) == Followings(t, row.userId) - {info}
  {
    var t' := UnfollowResult(t, followId);
    var row := t.follows[followId];
    FollowListsMembers(t, row.followedUserId);
    FollowListsMembers(t', row.followedUserId);
    FollowListsMembers(t, row.userId);
    FollowListsMembers(t', row.userId);
  }
}
