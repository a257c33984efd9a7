/** The project lifecycle: posting, editing and deleting a project, each a
    validator followed by an all-or-nothing transaction over the photo,
    project and project_collaborator tables, and reading a project back. */
module ProjectServices {
  import opened Wrappers
  import opened Store
  import opened Responses
  import opened DataRepos
  import opened Helpers
  import opened Integrity

  // ---------------------------------------------------------------------------
  // Requests
  // ---------------------------------------------------------------------------

  /** The `projectCollaborators` field of a request body: absent or falsy, a
      truthy value that is not an array, or an array of user ids. */
  datatype CollaboratorsField = Missing | NotArray | Ids(ids: seq<int>)

  /** The body of a post request. Empty strings and 0 are the falsy values. */
  datatype PostProjectRequest = PostProjectRequest(
    projectTitle: string, projectOwnerId: int, encodePhoto: string,
    photoOGWidth: int, photoOGHeight: int,
    projectCollaborators: CollaboratorsField, projectDescription: string)

  /** The body of an edit request; `idUserEdit` is the user making the edit. */
  datatype EditProjectRequest = EditProjectRequest(
    projectTitle: string, encodePhoto: string, photoOGHeight: int, photoOGWidth: int,
    idUserEdit: int, projectCollaborators: CollaboratorsField, projectDescription: string)

  /** Projects titles longer than this are refused. */
  const MaxTitleLength := 40

  // ---------------------------------------------------------------------------
  // Collaborator reconciliation
  // ---------------------------------------------------------------------------

  /** The elements of `xs` that do not occur in `ys`, in the order of `xs`. */
  function Without(xs: seq<int>, ys: seq<int>): seq<int> {
    if xs == [] then []
    else Without(xs[..|xs| - 1], ys) + (if xs[|xs| - 1] in ys then [] else [xs[|xs| - 1]])
  }

  /** GetAddCollaborator: the requested ids that are not current collaborators. */
  method GetAddCollaborator(current: seq<int>, requested: seq<int>) returns (result: seq<int>)
    ensures result == Without(requested, current)
  {
    result := [];
    for i := 0 to |requested|
      invariant result == Without(requested[..i], current)
    {
      assert requested[..i + 1][..i] == requested[..i];
      if requested[i] !in current {
        result := result + [requested[i]];
      }
    }
    assert requested[..|requested|] == requested;
  }

  /** GetRemoveCollaborator: the current collaborators that are not requested. */
  method GetRemoveCollaborator(current: seq<int>, requested: seq<int>) returns (result: seq<int>)
    ensures result == Without(current, requested)
  {
    result := [];
    for i := 0 to |current|
      invariant result == Without(current[..i], requested)
    {
      assert current[..i + 1][..i] == current[..i];
      if current[i] !in requested {
        result := result + [current[i]];
      }
    }
    assert current[..|current|] == current;
  }

  /** An element is kept exactly when it is in `xs` and not in `ys`, and it is
      kept as many times as it occurs in `xs`. */
  lemma {:induction false} WithoutMembers(xs: seq<int>, ys: seq<int>)
    ensures forall x :: x in Without(xs, ys) <==> x in xs && x !in ys
    ensures forall x :: multiset(Without(xs, ys))[x] == if x in ys then 0 else multiset(xs)[x]
  {
    if xs != [] {
      WithoutMembers(xs[..|xs| - 1], ys);
      assert xs == xs[..|xs| - 1] + [xs[|xs| - 1]];
    }
  }

  /** The difference keeps order: it distributes over concatenation. */
  lemma {:induction false} WithoutAppend(xs: seq<int>, zs: seq<int>, ys: seq<int>)
    ensures Without(xs + zs, ys) == Without(xs, ys) + Without(zs, ys)
    decreases |zs|
  {
    if zs == [] {
      assert xs + zs == xs;
    } else {
      var zs' := zs[..|zs| - 1];
      assert (xs + zs)[..|xs + zs| - 1] == xs + zs';
      WithoutAppend(xs, zs', ys);
    }
  }

  /** When every element of `xs` is in `ys` the difference is empty; in
      particular both differences are empty when the lists have the same
      members. */
  lemma {:induction false} WithoutCovered(xs: seq<int>, ys: seq<int>)
    requires forall x :: x in xs ==> x in ys
    ensures Without(xs, ys) == []
  {
    if xs != [] {
      var init := xs[..|xs| - 1];
      assert forall x :: x in init ==> x in xs;
      WithoutCovered(init, ys);
      var last := xs[|xs| - 1];
      assert last in xs;
      assert last in ys;
    }
  }

  /** A difference of a duplicate-free list is duplicate-free. */
  lemma {:induction false} WithoutDistinct(xs: seq<int>, ys: seq<int>)
    requires Distinct(xs)
    ensures Distinct(Without(xs, ys))
  {
    if xs != [] {
      var init := xs[..|xs| - 1];
      assert Distinct(init) by {
        forall i, j | 0 <= i < j < |init| ensures init[i] != init[j] {
          assert init[i] == xs[i] && init[j] == xs[j];
        }
      }
      WithoutDistinct(init, ys);
      WithoutMembers(init, ys);
      var last := xs[|xs| - 1];
      assert last !in init;
      var r := Without(xs, ys);
      var r' := Without(init, ys);
      if last !in ys {
        forall i, j | 0 <= i < j < |r| ensures r[i] != r[j] {
          if j == |r| - 1 {
            assert r[i] in r';
          } else {
            assert r[i] == r'[i] && r[j] == r'[j];
          }
        }
      }
    }
  }

  /** No id occurs twice. */
  predicate Distinct(xs: seq<int>) {
    forall i, j :: 0 <= i < j < |xs| ==> xs[i] != xs[j]
  }

  // ---------------------------------------------------------------------------
  // The collaborator list check shared by post and edit
  // ---------------------------------------------------------------------------

  /** The objection to the collaborator at position k, if any: no such user
      (404), the project owner (400), or a repeat of an earlier entry (400). */
  function CollaboratorOffence(t: Tables, ids: seq<int>, owner: int, k: nat): Option<Error>
    requires k < |ids|
  {
    if !IsUserExistsById(t, ids[k]) then Some(NotFound)
    else if ids[k] == owner then Some(BadRequest)
    else if ids[k] in ids[..k] then Some(BadRequest)
    else None
  }

  /** The objection to the first offending collaborator at or after position k. */
  function CollaboratorsRejection(t: Tables, ids: seq<int>, owner: int, k: nat): Option<Error>
    requires k <= |ids|
    decreases |ids| - k
  {
    if k == |ids| then None
    else if CollaboratorOffence(t, ids, owner, k).Some? then CollaboratorOffence(t, ids, owner, k)
    else CollaboratorsRejection(t, ids, owner, k + 1)
  }

  /** The list loop of both validators: each id is checked in order against
      the accounts, the owner and the ids seen so far. */
  method CheckCollaborators(t: Tables, ids: seq<int>, owner: int) returns (err: Option<Error>)
    ensures err == CollaboratorsRejection(t, ids, owner, 0)
  {
    var uniqueUserIds: set<int> := {};
    for i := 0 to |ids|
      invariant forall x :: x in uniqueUserIds <==> x in ids[..i]
      invariant CollaboratorsRejection(t, ids, owner, 0) == CollaboratorsRejection(t, ids, owner, i)
    {
      var userId := ids[i];
      if !IsUserExistsById(t, userId) {
        return Some(NotFound);
      }
      if userId == owner {
        return Some(BadRequest);
      }
      if userId in uniqueUserIds {
        return Some(BadRequest);
      }
      uniqueUserIds := uniqueUserIds + {userId};
      assert ids[..i + 1] == ids[..i] + [userId];
    }
    return None;
  }

  /** The list passes exactly when every listed user exists, none is the
      owner and none is listed twice. */
  lemma CollaboratorsAccepted(t: Tables, ids: seq<int>, owner: int)
    ensures CollaboratorsRejection(t, ids, owner, 0).None? <==>
      (forall i :: 0 <= i < |ids| ==> ids[i] in t.users && ids[i] != owner) && Distinct(ids)
  {
    CollaboratorsRejectionNone(t, ids, owner, 0);
    if CollaboratorsRejection(t, ids, owner, 0).None? {
      forall i | 0 <= i < |ids| ensures ids[i] in t.users && ids[i] != owner {
        assert CollaboratorOffence(t, ids, owner, i).None?;
      }
      forall i, j | 0 <= i < j < |ids| ensures ids[i] != ids[j] {
        assert CollaboratorOffence(t, ids, owner, j).None?;
        assert ids[i] == ids[..j][i];
      }
    } else {
      var k :| 0 <= k < |ids| && CollaboratorOffence(t, ids, owner, k).Some?;
      if ids[k] in t.users && ids[k] != owner {
        assert ids[k] in ids[..k];
        var i :| 0 <= i < k && ids[..k][i] == ids[k];
        assert ids[i] == ids[k];
      }
    }
  }

  /** The check from position k passes exactly when no entry from k on offends. */
  lemma {:induction false} CollaboratorsRejectionNone(t: Tables, ids: seq<int>, owner: int, k: nat)
    requires k <= |ids|
    ensures CollaboratorsRejection(t, ids, owner, k).None? <==>
      forall j :: k <= j < |ids| ==> CollaboratorOffence(t, ids, owner, j).None?
    decreases |ids| - k
  {
    if k < |ids| {
      CollaboratorsRejectionNone(t, ids, owner, k + 1);
    }
  }

  /** A rejection reports the objection to the first offending entry. */
  lemma {:induction false} CollaboratorsRejectionFirst(t: Tables, ids: seq<int>, owner: int, k: nat)
    requires k <= |ids|
    requires CollaboratorsRejection(t, ids, owner, k).Some?
    ensures exists j :: (k <= j < |ids| && CollaboratorsRejection(t, ids, owner, k) == CollaboratorOffence(t, ids, owner, j)
      && forall i :: k <= i < j ==> CollaboratorOffence(t, ids, owner, i).None?)
    decreases |ids| - k
  {
    if CollaboratorOffence(t, ids, owner, k).None? {
      CollaboratorsRejectionFirst(t, ids, owner, k + 1);
      var j :| k + 1 <= j < |ids| && CollaboratorsRejection(t, ids, owner, k + 1) == CollaboratorOffence(t, ids, owner, j)
        && forall i :: k + 1 <= i < j ==> CollaboratorOffence(t, ids, owner, i).None?;
      assert forall i :: k <= i < j ==> CollaboratorOffence(t, ids, owner, i).None?;
    }
  }

  // ---------------------------------------------------------------------------
  // Post
  // ---------------------------------------------------------------------------

  /** No required field of a post request is falsy. */
  predicate PostFieldsPresent(req: PostProjectRequest) {
    && req.projectTitle != [] && req.encodePhoto != [] && req.photoOGWidth != 0
    && req.photoOGHeight != 0 && !req.projectCollaborators.Missing? && req.projectOwnerId != 0
  }

  /** What ValidatePostProjectBody objects to, checked in order: a missing
      field, a long title, an unknown owner, a non-array list, then the list. */
  function PostProjectRejection(t: Tables, req: PostProjectRequest): Option<Error> {
    if !PostFieldsPresent(req) then Some(MissingContent)
    else if |req.projectTitle| > MaxTitleLength then Some(BadRequest)
    else if !IsUserExistsById(t, req.projectOwnerId) then Some(NotFound)
    else if !req.projectCollaborators.Ids? then Some(BadRequest)
    else CollaboratorsRejection(t, req.projectCollaborators.ids, req.projectOwnerId, 0)
  }

  /** ValidatePostProjectBody; `None` is the source's `null` (passed). */
  method ValidatePostProjectBody(t: Tables, req: PostProjectRequest) returns (err: Option<Error>)
    ensures err == PostProjectRejection(t, req)
  {
    if !PostFieldsPresent(req) {
      return Some(MissingContent);
    }
    if |req.projectTitle| > MaxTitleLength {
      return Some(BadRequest);
    }
    if !IsUserExistsById(t, req.projectOwnerId) {
      return Some(NotFound);
    }
    if !req.projectCollaborators.Ids? {
      return Some(BadRequest);
    }
    err := CheckCollaborators(t, req.projectCollaborators.ids, req.projectOwnerId);
  }

  /** A post request passes validation exactly when its fields are present,
      the title fits, the owner exists, and the collaborators are a list of
      distinct existing users other than the owner. */
  lemma PostProjectAccepted(t: Tables, req: PostProjectRequest)
    ensures PostProjectRejection(t, req).None? <==>
      && PostFieldsPresent(req)
      && |req.projectTitle| <= MaxTitleLength
      && req.projectOwnerId in t.users
      && req.projectCollaborators.Ids?
      && (forall i :: 0 <= i < |req.projectCollaborators.ids| ==>
            req.projectCollaborators.ids[i] in t.users && req.projectCollaborators.ids[i] != req.projectOwnerId)
      && Distinct(req.projectCollaborators.ids)
  {
    if req.projectCollaborators.Ids? {
      CollaboratorsAccepted(t, req.projectCollaborators.ids, req.projectOwnerId);
    }
  }

  /** The collaborator rows of project `pid`, one per id, in order. */
  function RowsFor(pid: int, ids: seq<int>): (rows: seq<CollaboratorRow>)
    ensures |rows| == |ids|
    ensures forall k :: 0 <= k < |ids| ==> rows[k] == CollaboratorRow(pid, ids[k])
  {
    seq(|ids|, k requires 0 <= k < |ids| => CollaboratorRow(pid, ids[k]))
  }

  /** "GP" when the project lists at least one collaborator, "SL" otherwise. */
  function TypeFor(ids: seq<int>): ProjectType {
    if |ids| > 0 then GP else SL
  }

  /** The transactional statements of a post: photo insert, project insert,
      the collaborator batch for a group project, and the commit. */
  function PostStatementCount(req: PostProjectRequest): nat
    requires req.projectCollaborators.Ids?
  {
    if |req.projectCollaborators.ids| > 0 then 4 else 3
  }

  /** The tables after a successful post. */
  function PostResult(t: Tables, req: PostProjectRequest): Tables
    requires req.projectCollaborators.Ids?
  {
    PostRows(t, req, Normalised(req.projectTitle))
  }

  /** The rows a post writes once its title has been normalised to `title`. */
  function PostRows(t: Tables, req: PostProjectRequest, title: string): Tables
    requires req.projectCollaborators.Ids?
  {
    var ids := req.projectCollaborators.ids;
    var photo := InsertPhoto(t, PhotoRow(Some(req.encodePhoto), req.photoOGWidth, req.photoOGHeight));
    var project := InsertProject(photo.0, ProjectRow(
      req.projectOwnerId, title, req.projectDescription, TypeFor(ids), photo.1, 0));
    if TypeFor(ids) == GP then InsertCollaborators(project.0, RowsFor(project.1, ids)) else project.0
  }

  /** The statements of a post's transaction, up to and including the
      commit, computed on a copy of the committed state. */
  method PostTransaction(t: Tables, req: PostProjectRequest, fault: Option<nat>) returns (tx: Tables, raised: bool)
    requires req.projectCollaborators.Ids?
    ensures raised <==> Raises(fault, PostStatementCount(req))
    ensures !raised ==> tx == PostResult(t, req)
  {
    var title := CapitalizeFirstLetter(Lower(Trim(req.projectTitle)));
    tx, raised := PostStatements(t, req, title, fault);
  }

  /** The inserts of a post, numbered from 0, with the title already
      normalised. */
  method PostStatements(t: Tables, req: PostProjectRequest, title: string, fault: Option<nat>)
    returns (tx: Tables, raised: bool)
    requires req.projectCollaborators.Ids?
    ensures raised <==> Raises(fault, PostStatementCount(req))
    ensures !raised ==> tx == PostRows(t, req, title)
  {
    var ids := req.projectCollaborators.ids;
    tx := t;
    if fault == Some(0) {
      return tx, true;
    }
    var newImage := InsertPhoto(tx, PhotoRow(Some(req.encodePhoto), req.photoOGWidth, req.photoOGHeight));
    tx := newImage.0;
    var projectType := if |ids| > 0 then GP else SL;
    if fault == Some(1) {
      return tx, true;
    }
    var newProject := InsertProject(tx, ProjectRow(
      req.projectOwnerId, title, req.projectDescription, projectType, newImage.1, 0));
    tx := newProject.0;
    var step := 2;
    if projectType == GP {
      if fault == Some(2) {
        return tx, true;
      }
      tx := InsertCollaborators(tx, RowsFor(newProject.1, ids));
      step := 3;
    }
    raised := fault == Some(step);
  }

  /** PostProject. A rejected request and a transaction that raises at any of
      its statements leave the database as it was. */
  method PostProject(db: Database, req: PostProjectRequest, fault: Option<nat>) returns (o: Outcome<ProjectInfo>)
    requires db.Valid()
    modifies db
    ensures db.Valid()
    ensures PostProjectRejection(old(db.Snapshot()), req).Some? ==>
      o == Failed(PostProjectRejection(old(db.Snapshot()), req).value) && db.Snapshot() == old(db.Snapshot())
    ensures PostProjectRejection(old(db.Snapshot()), req).None? ==>
      if Raises(fault, PostStatementCount(req)) then o == Failed(ServerError) && db.Snapshot() == old(db.Snapshot())
      else o == Created && db.Snapshot() == PostResult(old(db.Snapshot()), req)
  {
    var t := db.Snapshot();
    var errors := ValidatePostProjectBody(t, req);
    if errors.Some? {
      return Failed(errors.value);
    }
    var tx, raised := PostTransaction(t, req, fault);
    if raised {
      return Failed(ServerError);
    }
    PostResultWellFormed(t, req);
    db.Commit(tx);
    return Created;
  }

  /** A post keeps the ids below their counters. */
  lemma PostResultWellFormed(t: Tables, req: PostProjectRequest)
    requires WellFormed(t) && req.projectCollaborators.Ids?
    ensures WellFormed(PostResult(t, req))
  {
  }

  /** A successful post adds exactly one photo row (the posted payload and
      size, under a fresh id) and one project row (under a fresh id, pointing
      at that photo, with the normalised title and no likes), typed "GP"
      exactly when collaborators are listed, with one collaborator row per
      listed id; users and follows are untouched. */
  lemma PostCreatesProject(t: Tables, req: PostProjectRequest)
    requires WellFormed(t) && req.projectCollaborators.Ids?
    ensures
      var t' := PostResult(t, req);
      var ids := req.projectCollaborators.ids;
      var pid := t.nextProjectId;
      var ph := t.nextPhotoId;
      && pid !in t.projects && ph !in t.photos
      && t'.photos == t.photos[ph := PhotoRow(Some(req.encodePhoto), req.photoOGWidth, req.photoOGHeight)]
      && t'.projects == t.projects[pid := ProjectRow(req.projectOwnerId, Normalised(req.projectTitle),
                                                      req.projectDescription, TypeFor(ids), ph, 0)]
      && (t'.projects[pid].projectType == GP <==> |ids| > 0)
      && t'.collaborators == t.collaborators + (if |ids| > 0 then RowsFor(pid, ids) else [])
      && (forall r :: r in t'.collaborators <==> r in t.collaborators || (r.projectId == pid && r.userId in ids))
      && t'.users == t.users && t'.follows == t.follows
  {
    RowsForMembers(t.nextProjectId, req.projectCollaborators.ids);
  }

  /** The rows for distinct ids are distinct. */
  lemma RowsForDistinct(pid: int, ids: seq<int>)
    requires Distinct(ids)
    ensures DistinctRows(RowsFor(pid, ids))
  {
    var rows := RowsFor(pid, ids);
    forall i, j | 0 <= i < j < |rows| ensures rows[i] != rows[j] {
      assert rows[i].userId == ids[i] && rows[j].userId == ids[j];
    }
  }

  /** A successful post keeps the tables consistent. */
  lemma PostPreservesConsistency(t: Tables, req: PostProjectRequest)
    requires Consistent(t) && PostProjectRejection(t, req).None?
    ensures Consistent(PostResult(t, req))
  {
    PostCreatesProject(t, req);
    var t' := PostResult(t, req);
    var ph := t.nextPhotoId;
    assert PhotosUnshared(t') by {
      forall p | p in t.projects ensures t.projects[p].photoId != ph {
        assert t.projects[p].photoId in t.photos;
      }
      forall u | u in t.users ensures t.users[u].photoId != ph {
        assert t.users[u].photoId == 0 || t.users[u].photoId in t.photos;
      }
    }
    PostKeepsCollaborators(t, req);
    PostKeepsTypes(t, req);
  }

  /** The collaborator rows of an accepted post name the new project and
      existing users other than its owner, none twice. */
  lemma PostKeepsCollaborators(t: Tables, req: PostProjectRequest)
    requires Consistent(t) && PostProjectRejection(t, req).None?
    ensures CollaboratorsValid(PostResult(t, req))
  {
    PostCreatesProject(t, req);
    PostProjectAccepted(t, req);
    var t' := PostResult(t, req);
    var ids := req.projectCollaborators.ids;
    var pid := t.nextProjectId;
    forall r | r in t'.collaborators
      ensures r.projectId in t'.projects && r.userId in t'.users && r.userId != t'.projects[r.projectId].ownerId
    {
      if r !in t.collaborators {
        var i :| 0 <= i < |ids| && ids[i] == r.userId;
      }
    }
    if |ids| > 0 {
      RowsForDistinct(pid, ids);
      RowsForMembers(pid, ids);
      AppendDistinct(t.collaborators, RowsFor(pid, ids));
    }
  }

  /** After a post every project is still "GP" exactly when it has a
      collaborator row. */
  lemma PostKeepsTypes(t: Tables, req: PostProjectRequest)
    requires Consistent(t) && req.projectCollaborators.Ids?
    ensures TypesMatch(PostResult(t, req))
  {
    PostCreatesProject(t, req);
    var t' := PostResult(t, req);
    var ids := req.projectCollaborators.ids;
    var pid := t.nextProjectId;
    forall q | q in t'.projects ensures t'.projects[q].projectType == GP <==> HasCollaborator(t', q) {
      if q == pid {
        if |ids| > 0 {
          assert CollaboratorRow(pid, ids[0]) in t'.collaborators;
        }
      } else {
        assert HasCollaborator(t', q) <==> HasCollaborator(t, q);
      }
    }
  }

  // ---------------------------------------------------------------------------
  // Edit
  // ---------------------------------------------------------------------------

  /** The user ids of a list of user records, in order (`map(c => c.userId)`). */
  function UserIdsOf(infos: seq<UserInfo>): (ids: seq<int>)
    ensures |ids| == |infos|
    ensures forall k :: 0 <= k < |infos| ==> ids[k] == infos[k].userId
  {
    seq(|infos|, k requires 0 <= k < |infos| => infos[k].userId)
  }

  /** The ids of a project's current collaborators, as both the validator and
      the edit read them. */
  function CurrentCollaboratorIds(t: Tables, pid: int): seq<int> {
    UserIdsOf(ProjectCollaborators(t, pid))
  }

  /** A user is a current collaborator exactly when the account exists and
      has a collaborator row for the project. */
  lemma CurrentCollaboratorIdsMembers(t: Tables, pid: int)
    ensures forall u :: u in CurrentCollaboratorIds(t, pid) <==>
      u in t.users && CollaboratorRow(pid, u) in t.collaborators
  {
    var infos := ProjectCollaborators(t, pid);
    ProjectCollaboratorsMembers(t, pid);
    forall u ensures u in CurrentCollaboratorIds(t, pid) <==> u in t.users && CollaboratorRow(pid, u) in t.collaborators {
      if u in CurrentCollaboratorIds(t, pid) {
        var k :| 0 <= k < |infos| && CurrentCollaboratorIds(t, pid)[k] == u;
        assert infos[k] in infos;
      }
      if u in t.users && CollaboratorRow(pid, u) in t.collaborators {
        var info := GetUserInfoByID(t, u).value;
        assert info in infos;
        var k :| 0 <= k < |infos| && infos[k] == info;
        assert CurrentCollaboratorIds(t, pid)[k] == u;
      }
    }
  }

  /** No required field of an edit request is falsy. */
  predicate EditFieldsPresent(req: EditProjectRequest) {
    && req.projectTitle != [] && req.encodePhoto != [] && req.photoOGHeight != 0
    && req.photoOGWidth != 0 && !req.projectCollaborators.Missing? && req.idUserEdit != 0
  }

  /** What ValidateEditProjectBody objects to, checked in order: an unknown
      project, a missing field, a long title, an unknown editor, an editor who
      is neither owner nor collaborator, a non-array list, a non-owner who
      changes the membership at all, then the list itself. */
  function EditProjectRejection(t: Tables, pid: int, req: EditProjectRequest): Option<Error> {
    if !IsProjectExists(t, pid) then Some(NotFound)
    else if !EditFieldsPresent(req) then Some(MissingContent)
    else if |req.projectTitle| > MaxTitleLength then Some(BadRequest)
    else if !IsUserExistsById(t, req.idUserEdit) then Some(NotFound)
    else
      var owner := t.projects[pid].ownerId;
      var current := CurrentCollaboratorIds(t, pid);
      if req.idUserEdit !in current && req.idUserEdit != owner then Some(BadRequest)
      else if !req.projectCollaborators.Ids? then Some(BadRequest)
      else
        var ids := req.projectCollaborators.ids;
        if req.idUserEdit != owner && (Without(current, ids) != [] || Without(ids, current) != []) then Some(BadRequest)
        else CollaboratorsRejection(t, ids, owner, 0)
  }

  /** ValidateEditProjectBody. For a non-owner the removal check compares the
      editor with `collaboratorsToRemove[0].FK_KEY_USR_ID`, a property read
      on a plain id, which is `undefined`: any removal is refused. */
  method ValidateEditProjectBody(t: Tables, req: EditProjectRequest, projectId: int) returns (err: Option<Error>)
    ensures err == EditProjectRejection(t, projectId, req)
  {
    if !IsProjectExists(t, projectId) {
      return Some(NotFound);
    }
    if !EditFieldsPresent(req) {
      return Some(MissingContent);
    }
    if |req.projectTitle| > MaxTitleLength {
      return Some(BadRequest);
    }
    if !IsUserExistsById(t, req.idUserEdit) {
      return Some(NotFound);
    }
    var currentCollaborators := GetProjectCollaborators(t, projectId);
    var currentCollaboratorsId := UserIdsOf(currentCollaborators);
    var projectOwnerId := t.projects[projectId].ownerId;
    if req.idUserEdit !in currentCollaboratorsId && projectOwnerId != req.idUserEdit {
      return Some(BadRequest);
    }
    if !req.projectCollaborators.Ids? {
      return Some(BadRequest);
    }
    var ids := req.projectCollaborators.ids;
    if req.idUserEdit != projectOwnerId {
      var collaboratorsToAdd := GetAddCollaborator(currentCollaboratorsId, ids);
      var collaboratorsToRemove := GetRemoveCollaborator(currentCollaboratorsId, ids);
      var firstRemovedUserId: Option<int> := None;
      if |collaboratorsToRemove| > 1 || (|collaboratorsToRemove| == 1 && firstRemovedUserId != Some(req.idUserEdit)) {
        return Some(BadRequest);
      } else if |collaboratorsToAdd| > 0 {
        return Some(BadRequest);
      }
    }
    err := CheckCollaborators(t, ids, projectOwnerId);
  }

  /** Two lists have the same members exactly when neither difference has
      an element. */
  lemma SameMembers(xs: seq<int>, ys: seq<int>)
    ensures (Without(xs, ys) == [] && Without(ys, xs) == []) <==> (forall x :: x in xs <==> x in ys)
  {
    WithoutMembers(xs, ys);
    WithoutMembers(ys, xs);
    if forall x :: x in xs <==> x in ys {
      WithoutCovered(xs, ys);
      WithoutCovered(ys, xs);
    } else {
      var x :| !(x in xs <==> x in ys);
      assert x in Without(xs, ys) || x in Without(ys, xs);
    }
  }

  /** An edit request passes validation exactly when the project exists, the
      fields are present, the title fits, the editor exists and is the owner
      or a collaborator, a non-owner asks for the current members, and the
      list holds distinct existing users other than the owner. */
  lemma EditProjectAccepted(t: Tables, pid: int, req: EditProjectRequest)
    ensures EditProjectRejection(t, pid, req).None? <==>
      && pid in t.projects
      && EditFieldsPresent(req)
      && |req.projectTitle| <= MaxTitleLength
      && req.idUserEdit in t.users
      && (req.idUserEdit == t.projects[pid].ownerId || CollaboratorRow(pid, req.idUserEdit) in t.collaborators)
      && req.projectCollaborators.Ids?
      && (req.idUserEdit != t.projects[pid].ownerId ==>
            forall u :: u in req.projectCollaborators.ids <==> u in CurrentCollaboratorIds(t, pid))
      && (forall i :: 0 <= i < |req.projectCollaborators.ids| ==>
            req.projectCollaborators.ids[i] in t.users && req.projectCollaborators.ids[i] != t.projects[pid].ownerId)
      && Distinct(req.projectCollaborators.ids)
  {
    if pid in t.projects {
      CurrentCollaboratorIdsMembers(t, pid);
      if req.projectCollaborators.Ids? {
        SameMembers(CurrentCollaboratorIds(t, pid), req.projectCollaborators.ids);
        CollaboratorsAccepted(t, req.projectCollaborators.ids, t.projects[pid].ownerId);
      }
    }
  }

  /** A collaborator who is not the owner cannot take themselves off the
      project: leaving themselves out of the list is refused with 400. */
  lemma NonOwnerCannotLeave(t: Tables, pid: int, req: EditProjectRequest)
    requires pid in t.projects && EditFieldsPresent(req) && |req.projectTitle| <= MaxTitleLength
    requires req.idUserEdit in t.users && req.idUserEdit != t.projects[pid].ownerId
    requires CollaboratorRow(pid, req.idUserEdit) in t.collaborators
    requires req.projectCollaborators.Ids? && req.idUserEdit !in req.projectCollaborators.ids
    ensures EditProjectRejection(t, pid, req) == Some(BadRequest)
  {
    CurrentCollaboratorIdsMembers(t, pid);
    WithoutMembers(CurrentCollaboratorIds(t, pid), req.projectCollaborators.ids);
    assert req.idUserEdit in Without(CurrentCollaboratorIds(t, pid), req.projectCollaborators.ids);
  }

  /** The tables after inserting one collaborator row of project `pid` per
      id, one statement at a time. */
  function AddRows(t: Tables, pid: int, ids: seq<int>): (r: Tables)
    ensures r == t.(collaborators := r.collaborators)
  {
    if ids == [] then t
    else InsertCollaborators(AddRows(t, pid, ids[..|ids| - 1]), [CollaboratorRow(pid, ids[|ids| - 1])])
  }

  /** The tables after deleting the collaborator rows of project `pid` for
      each id, one statement at a time. */
  function RemoveRows(t: Tables, pid: int, ids: seq<int>): (r: Tables)
    ensures r == t.(collaborators := r.collaborators)
  {
    if ids == [] then t
    else DeleteCollaborator(RemoveRows(t, pid, ids[..|ids| - 1]), pid, ids[|ids| - 1])
  }

  /** The rows of project `pid` for the given ids. */
  lemma RowsForMembers(pid: int, ids: seq<int>)
    ensures forall r :: r in RowsFor(pid, ids) <==> r.projectId == pid && r.userId in ids
  {
    forall r: CollaboratorRow | r.projectId == pid && r.userId in ids ensures r in RowsFor(pid, ids) {
      var k :| 0 <= k < |ids| && ids[k] == r.userId;
      assert RowsFor(pid, ids)[k] == r;
    }
  }

  /** Inserting row by row appends the rows in order and changes nothing else. */
  lemma {:induction false} AddRowsEffect(t: Tables, pid: int, ids: seq<int>)
    ensures AddRows(t, pid, ids) == t.(collaborators := t.collaborators + RowsFor(pid, ids))
  {
    if ids != [] {
      var init := ids[..|ids| - 1];
      AddRowsEffect(t, pid, init);
      assert RowsFor(pid, ids) == RowsFor(pid, init) + [CollaboratorRow(pid, ids[|ids| - 1])];
    }
  }

  /** Deleting row by row removes exactly the project's rows for those ids
      and changes nothing else. */
  lemma {:induction false} RemoveRowsEffect(t: Tables, pid: int, ids: seq<int>)
    ensures forall r :: r in RemoveRows(t, pid, ids).collaborators <==>
      r in t.collaborators && !(r.projectId == pid && r.userId in ids)
  {
    if ids != [] {
      RemoveRowsEffect(t, pid, ids[..|ids| - 1]);
      assert ids == ids[..|ids| - 1] + [ids[|ids| - 1]];
    }
  }

  /** One more insert extends AddRows by the next id. */
  lemma AddRowsStep(t: Tables, pid: int, ids: seq<int>, i: nat)
    requires i < |ids|
    ensures AddRows(t, pid, ids[..i + 1]) ==
      InsertCollaborators(AddRows(t, pid, ids[..i]), [CollaboratorRow(pid, ids[i])])
  {
    assert ids[..i + 1][..i] == ids[..i];
  }

  /** One more delete extends RemoveRows by the next id. */
  lemma RemoveRowsStep(t: Tables, pid: int, ids: seq<int>, i: nat)
    requires i < |ids|
    ensures RemoveRows(t, pid, ids[..i + 1]) == DeleteCollaborator(RemoveRows(t, pid, ids[..i]), pid, ids[i])
  {
    assert ids[..i + 1][..i] == ids[..i];
  }

  /** The loop inserting the collaborators to add, statement `first` onwards. */
  method InsertCollaboratorRows(tx: Tables, projectId: int, ids: seq<int>, fault: Option<nat>, first: nat)
    returns (r: Tables, raised: bool)
    ensures raised <==> fault.Some? && first <= fault.value < first + |ids|
    ensures !raised ==> r == AddRows(tx, projectId, ids)
  {
    r := tx;
    for i := 0 to |ids|
      invariant r == AddRows(tx, projectId, ids[..i])
      invariant !(fault.Some? && first <= fault.value < first + i)
    {
      if fault == Some(first + i) {
        return r, true;
      }
      AddRowsStep(tx, projectId, ids, i);
      r := InsertCollaborators(r, [CollaboratorRow(projectId, ids[i])]);
    }
    assert ids[..|ids|] == ids;
    raised := false;
  }

  /** The loop deleting the collaborators to remove, statement `first` onwards. */
  method DeleteCollaboratorRows(tx: Tables, projectId: int, ids: seq<int>, fault: Option<nat>, first: nat)
    returns (r: Tables, raised: bool)
    ensures raised <==> fault.Some? && first <= fault.value < first + |ids|
    ensures !raised ==> r == RemoveRows(tx, projectId, ids)
  {
    r := tx;
    for i := 0 to |ids|
      invariant r == RemoveRows(tx, projectId, ids[..i])
      invariant !(fault.Some? && first <= fault.value < first + i)
    {
      if fault == Some(first + i) {
        return r, true;
      }
      RemoveRowsStep(tx, projectId, ids, i);
      r := DeleteCollaborator(r, projectId, ids[i]);
    }
    assert ids[..|ids|] == ids;
    raised := false;
  }

  /** The photo record GetProjectInformation reports for an existing project. */
  function ProjectPhoto(t: Tables, pid: int): Option<PhotoInfo>
    requires pid in t.projects
  {
    DataRepos.GetProjectInformation(t, pid).value.projectPhoto
  }

  /** The photo is replaced unless the stored payload is the one sent. */
  predicate PhotoChanged(stored: PhotoInfo, encodePhoto: string) {
    stored.photoEncode64 != Some(encodePhoto)
  }

  /** The transactional statements of an edit: photo insert (when the photo
      changes), project update, old photo delete (when it changes), one insert
      per added and one delete per removed collaborator, and the commit. */
  function EditStatementCount(t: Tables, pid: int, req: EditProjectRequest): nat
    requires pid in t.projects && req.projectCollaborators.Ids? && ProjectPhoto(t, pid).Some?
  {
    var ids := req.projectCollaborators.ids;
    var current := CurrentCollaboratorIds(t, pid);
    RowStatementCount(t, pid, req) + |Without(ids, current)| + |Without(current, ids)| + 1
  }

  /** The number of statements that rewrite the project row and its photo. */
  function RowStatementCount(t: Tables, pid: int, req: EditProjectRequest): nat
    requires pid in t.projects && ProjectPhoto(t, pid).Some?
  {
    if PhotoChanged(ProjectPhoto(t, pid).value, req.encodePhoto) then 3 else 1
  }

  /** The tables after the project row and its photo are rewritten: a new
      photo row and the old one deleted when the payload changed, and the row
      updated with the title and description as sent. */
  function EditRowResult(t: Tables, pid: int, req: EditProjectRequest): (r: Tables)
    requires pid in t.projects && req.projectCollaborators.Ids? && ProjectPhoto(t, pid).Some?
    ensures r.users == t.users && r.collaborators == t.collaborators && r.follows == t.follows
  {
    var stored := ProjectPhoto(t, pid).value;
    var changed := PhotoChanged(stored, req.encodePhoto);
    var inserted := InsertPhoto(t, PhotoRow(Some(req.encodePhoto), req.photoOGWidth, req.photoOGHeight));
    var t1 := if changed then inserted.0 else t;
    var photoId := if changed then inserted.1 else stored.photoId;
    var t2 := UpdateProject(t1, pid, req.projectTitle, req.projectDescription, TypeFor(req.projectCollaborators.ids), photoId);
    if changed then DeletePhoto(t2, stored.photoId) else t2
  }

  /** The tables after a successful edit. */
  function EditResult(t: Tables, pid: int, req: EditProjectRequest): Tables
    requires pid in t.projects && req.projectCollaborators.Ids? && ProjectPhoto(t, pid).Some?
  {
    var ids := req.projectCollaborators.ids;
    var current := CurrentCollaboratorIds(t, pid);
    RemoveRows(AddRows(EditRowResult(t, pid, req), pid, Without(ids, current)), pid, Without(current, ids))
  }

  /** The statements of an edit that rewrite the project row and its photo. */
  method EditProjectRow(t: Tables, projectId: int, req: EditProjectRequest, stored: PhotoInfo, fault: Option<nat>)
    returns (tx: Tables, raised: bool)
    requires projectId in t.projects && req.projectCollaborators.Ids? && ProjectPhoto(t, projectId) == Some(stored)
    ensures raised <==> Raises(fault, RowStatementCount(t, projectId, req))
    ensures !raised ==> tx == EditRowResult(t, projectId, req)
  {
    var ids := req.projectCollaborators.ids;
    var projectType := if |ids| > 0 then GP else SL;
    var isUpdateImage := stored.photoEncode64 != Some(req.encodePhoto);
    tx := t;
    var step := 0;
    var photoId := stored.photoId;
    if isUpdateImage {
      if fault == Some(step) {
        return tx, true;
      }
      var newImage := InsertPhoto(tx, PhotoRow(Some(req.encodePhoto), req.photoOGWidth, req.photoOGHeight));
      tx, photoId, step := newImage.0, newImage.1, step + 1;
    }
    if fault == Some(step) {
      return tx, true;
    }
    tx := UpdateProject(tx, projectId, req.projectTitle, req.projectDescription, projectType, photoId);
    step := step + 1;
    if isUpdateImage {
      if fault == Some(step) {
        return tx, true;
      }
      tx := DeletePhoto(tx, stored.photoId);
    }
    raised := false;
  }

  /** The statements of an edit that bring the collaborator rows in line
      with the request: the current collaborators are read from the committed
      state, the additions are inserted, then the removals deleted. */
  method ReconcileCollaborators(t: Tables, tx: Tables, projectId: int, ids: seq<int>, fault: Option<nat>, first: nat)
    returns (r: Tables, raised: bool)
    ensures
      var current := CurrentCollaboratorIds(t, projectId);
      raised <==> fault.Some? && first <= fault.value < first + |Without(ids, current)| + |Without(current, ids)|
    ensures
      var current := CurrentCollaboratorIds(t, projectId);
      !raised ==> r == RemoveRows(AddRows(tx, projectId, Without(ids, current)), projectId, Without(current, ids))
  {
    var currentCollaborators := GetProjectCollaborators(t, projectId);
    var currentCollaboratorsId := UserIdsOf(currentCollaborators);
    var collaboratorsToAdd := GetAddCollaborator(currentCollaboratorsId, ids);
    var collaboratorsToRemove := GetRemoveCollaborator(currentCollaboratorsId, ids);
    r, raised := InsertCollaboratorRows(tx, projectId, collaboratorsToAdd, fault, first);
    if raised {
      return;
    }
    r, raised := DeleteCollaboratorRows(r, projectId, collaboratorsToRemove, fault, first + |collaboratorsToAdd|);
  }

  /** The statements of an edit's transaction, up to and including the
      commit, computed on a copy of the committed state. */
  method EditTransaction(t: Tables, projectId: int, req: EditProjectRequest, stored: PhotoInfo, fault: Option<nat>)
    returns (tx: Tables, raised: bool)
    requires projectId in t.projects && req.projectCollaborators.Ids? && ProjectPhoto(t, projectId) == Some(stored)
    ensures raised <==> Raises(fault, EditStatementCount(t, projectId, req))
    ensures !raised ==> tx == EditResult(t, projectId, req)
  {
    var ids := req.projectCollaborators.ids;
    tx, raised := EditProjectRow(t, projectId, req, stored, fault);
    if raised {
      return;
    }
    var step := RowStatementCount(t, projectId, req);
    tx, raised := ReconcileCollaborators(t, tx, projectId, ids, fault, step);
    if raised {
      return;
    }
    raised := fault == Some(EditStatementCount(t, projectId, req) - 1);
  }

  /** EditProject. A rejected request, a project whose photo record is
      missing (reading its payload raises), and a transaction that raises at
      any statement all leave the database as it was; a successful edit
      answers with the project as it now reads. */
  method EditProject(db: Database, req: EditProjectRequest, projectId: int, fault: Option<nat>)
    returns (o: Outcome<ProjectInfo>)
    requires db.Valid()
    modifies db
    ensures db.Valid()
    ensures EditProjectRejection(old(db.Snapshot()), projectId, req).Some? ==>
      o == Failed(EditProjectRejection(old(db.Snapshot()), projectId, req).value) && db.Snapshot() == old(db.Snapshot())
    ensures EditProjectRejection(old(db.Snapshot()), projectId, req).None? ==>
      if ProjectPhoto(old(db.Snapshot()), projectId).None?
         || Raises(fault, EditStatementCount(old(db.Snapshot()), projectId, req))
      then o == Failed(ServerError) && db.Snapshot() == old(db.Snapshot())
      else (db.Snapshot() == EditResult(old(db.Snapshot()), projectId, req)
        && o == Updated(DataRepos.GetProjectInformation(db.Snapshot(), projectId)))
  {
    var t := db.Snapshot();
    var errors := ValidateEditProjectBody(t, req, projectId);
    if errors.Some? {
      return Failed(errors.value);
    }
    var ids := req.projectCollaborators.ids;
    var projectInformation := DataRepos.GetProjectInformation(t, projectId);
    var currentImageInformation := projectInformation.value.projectPhoto;
    if currentImageInformation.None? {
      return Failed(ServerError);
    }
    var tx, raised := EditTransaction(t, projectId, req, currentImageInformation.value, fault);
    if raised {
      return Failed(ServerError);
    }
    db.Commit(tx);
    o := Updated(DataRepos.GetProjectInformation(db.Snapshot(), projectId));
  }

  /** The photo rule of an edit: an unchanged payload keeps the photo row and
      the reference (new width and height are not stored); a changed one adds
      exactly one row, points the project at it and deletes the old row. The
      title and description are stored as sent, the type follows the list,
      and the owner, the like count and every other row stay as they were. */
  lemma EditPhotoRule(t: Tables, pid: int, req: EditProjectRequest)
    requires WellFormed(t) && pid in t.projects && req.projectCollaborators.Ids? && ProjectPhoto(t, pid).Some?
    ensures
      var t' := EditRowResult(t, pid, req);
      var p := t.projects[pid];
      var row := PhotoRow(Some(req.encodePhoto), req.photoOGWidth, req.photoOGHeight);
      && t'.users == t.users && t'.collaborators == t.collaborators && t'.follows == t.follows
      && t'.projects.Keys == t.projects.Keys
      && (forall q :: q in t.projects && q != pid ==> t'.projects[q] == t.projects[q])
      && t'.projects[pid] == p.(title := req.projectTitle, description := req.projectDescription,
                                projectType := TypeFor(req.projectCollaborators.ids),
                                photoId := t'.projects[pid].photoId)
      && (if PhotoChanged(ProjectPhoto(t, pid).value, req.encodePhoto) then
            && t.nextPhotoId !in t.photos && p.photoId in t.photos
            && t'.projects[pid].photoId == t.nextPhotoId
            && t'.photos == t.photos[t.nextPhotoId := row] - {p.photoId}
            && p.photoId !in t'.photos
          else
            t'.photos == t.photos && t'.projects[pid].photoId == p.photoId)
  {
  }

  /** After an edit, the existing users with a collaborator row for the
      project are exactly the requested ones, the project's current
      collaborators are exactly the requested ids, and no other project's
      rows change. */
  lemma EditCollaboratorSet(t: Tables, pid: int, req: EditProjectRequest)
    requires WellFormed(t) && EditProjectRejection(t, pid, req).None? && ProjectPhoto(t, pid).Some?
    ensures
      var t' := EditResult(t, pid, req);
      var ids := req.projectCollaborators.ids;
      && (forall u :: u in t.users ==> (CollaboratorRow(pid, u) in t'.collaborators <==> u in ids))
      && (forall r: CollaboratorRow :: r.projectId != pid ==> (r in t'.collaborators <==> r in t.collaborators))
      && (forall u :: u in CurrentCollaboratorIds(t', pid) <==> u in ids)
  {
    var ids := req.projectCollaborators.ids;
    var current := CurrentCollaboratorIds(t, pid);
    var t3 := EditRowResult(t, pid, req);
    var toAdd := Without(ids, current);
    var toRemove := Without(current, ids);
    var t4 := AddRows(t3, pid, toAdd);
    var t' := EditResult(t, pid, req);
    EditPhotoRule(t, pid, req);
    EditProjectAccepted(t, pid, req);
    CurrentCollaboratorIdsMembers(t, pid);
    WithoutMembers(ids, current);
    WithoutMembers(current, ids);
    AddRowsEffect(t3, pid, toAdd);
    RowsForMembers(pid, toAdd);
    RemoveRowsEffect(t4, pid, toRemove);
    assert forall r :: r in t'.collaborators <==>
      (r in t.collaborators || (r.projectId == pid && r.userId in toAdd)) && !(r.projectId == pid && r.userId in toRemove);
    CurrentCollaboratorIdsMembers(t', pid);
    forall u | u in ids ensures u in t.users {
      var i :| 0 <= i < |ids| && ids[i] == u;
    }
  }

  /** Deleting rows one id at a time keeps a duplicate-free table
      duplicate-free. */
  lemma {:induction false} RemoveRowsDistinct(t: Tables, pid: int, ids: seq<int>)
    requires DistinctRows(t.collaborators)
    ensures DistinctRows(RemoveRows(t, pid, ids).collaborators)
  {
    if ids != [] {
      var init := ids[..|ids| - 1];
      RemoveRowsDistinct(t, pid, init);
      KeepDistinct(RemoveRows(t, pid, init).collaborators, pid, Some(ids[|ids| - 1]));
    }
  }

  /** The collaborator steps of an edit change only the collaborator rows:
      the existing rows and the added ones, less the removed ones. */
  lemma EditRowsFrame(t: Tables, pid: int, req: EditProjectRequest)
    requires WellFormed(t) && pid in t.projects && req.projectCollaborators.Ids? && ProjectPhoto(t, pid).Some?
    ensures
      var t' := EditResult(t, pid, req);
      var ids := req.projectCollaborators.ids;
      var current := CurrentCollaboratorIds(t, pid);
      && t' == EditRowResult(t, pid, req).(collaborators := t'.collaborators)
      && forall r :: r in t'.collaborators <==>
           && (r in t.collaborators || (r.projectId == pid && r.userId in Without(ids, current)))
           && !(r.projectId == pid && r.userId in Without(current, ids))
  {
    var ids := req.projectCollaborators.ids;
    var current := CurrentCollaboratorIds(t, pid);
    var t3 := EditRowResult(t, pid, req);
    var toAdd := Without(ids, current);
    EditPhotoRule(t, pid, req);
    AddRowsEffect(t3, pid, toAdd);
    RowsForMembers(pid, toAdd);
    RemoveRowsEffect(AddRows(t3, pid, toAdd), pid, Without(current, ids));
  }

  /** Rewriting the project row and its photo keeps every photo reference
      valid and unshared. */
  lemma EditKeepsPhotos(t: Tables, pid: int, req: EditProjectRequest)
    requires Consistent(t) && pid in t.projects && req.projectCollaborators.Ids? && ProjectPhoto(t, pid).Some?
    ensures
      var t3 := EditRowResult(t, pid, req);
      WellFormed(t3) && ProjectRefsValid(t3) && UserPhotosValid(t3) && PhotosUnshared(t3)
  {
    var t3 := EditRowResult(t, pid, req);
    EditPhotoRule(t, pid, req);
    if PhotoChanged(ProjectPhoto(t, pid).value, req.encodePhoto) {
      EditNewPhotoKeepsRefs(t, t3, pid, PhotoRow(Some(req.encodePhoto), req.photoOGWidth, req.photoOGHeight));
    } else {
      assert forall q :: q in t.projects ==> q in t3.projects && t3.projects[q].photoId == t.projects[q].photoId;
    }
  }

  /** Pointing one project at a fresh photo row and deleting its old one
      keeps every photo reference valid and unshared. */
  lemma EditNewPhotoKeepsRefs(t: Tables, t': Tables, pid: int, row: PhotoRow)
    requires Consistent(t) && pid in t.projects
    requires t'.users == t.users && t'.projects.Keys == t.projects.Keys
    requires forall q :: q in t.projects && q != pid ==> t'.projects[q] == t.projects[q]
    requires t'.projects[pid].ownerId == t.projects[pid].ownerId
    requires t.nextPhotoId !in t.photos && t'.projects[pid].photoId == t.nextPhotoId
    requires t'.photos == t.photos[t.nextPhotoId := row] - {t.projects[pid].photoId}
    ensures ProjectRefsValid(t') && UserPhotosValid(t') && PhotosUnshared(t')
  {
    var old_ := t.projects[pid].photoId;
    forall q | q in t.projects && q != pid ensures t.projects[q].photoId != old_ {}
    forall u | u in t.users ensures t.users[u].photoId != old_ {}
    forall q | q in t.projects ensures t.projects[q].photoId != t.nextPhotoId {
      assert t.projects[q].photoId in t.photos;
    }
    forall u | u in t.users ensures t.users[u].photoId != t.nextPhotoId {
      assert t.users[u].photoId == 0 || t.users[u].photoId in t.photos;
    }
  }

  /** An edit keeps the collaborator rows valid and duplicate-free. */
  lemma EditKeepsCollaborators(t: Tables, pid: int, req: EditProjectRequest)
    requires Consistent(t) && EditProjectRejection(t, pid, req).None? && ProjectPhoto(t, pid).Some?
    ensures CollaboratorsValid(EditResult(t, pid, req))
  {
    var ids := req.projectCollaborators.ids;
    var current := CurrentCollaboratorIds(t, pid);
    var t3 := EditRowResult(t, pid, req);
    var toAdd := Without(ids, current);
    var t' := EditResult(t, pid, req);
    EditRowsFrame(t, pid, req);
    EditPhotoRule(t, pid, req);
    EditProjectAccepted(t, pid, req);
    CurrentCollaboratorIdsMembers(t, pid);
    WithoutMembers(ids, current);
    forall r | r in t'.collaborators
      ensures r.projectId in t'.projects && r.userId in t'.users && r.userId != t'.projects[r.projectId].ownerId
    {
      if r !in t.collaborators {
        var i :| 0 <= i < |ids| && ids[i] == r.userId;
      }
    }
    WithoutDistinct(ids, current);
    RowsForDistinct(pid, toAdd);
    RowsForMembers(pid, toAdd);
    forall r | r in t.collaborators && r.projectId == pid ensures r.userId !in toAdd {
      assert r.userId in current;
    }
    AppendDistinct(t.collaborators, RowsFor(pid, toAdd));
    AddRowsEffect(t3, pid, toAdd);
    RemoveRowsDistinct(AddRows(t3, pid, toAdd), pid, Without(current, ids));
  }

  /** After an edit every project's type still matches its collaborator rows. */
  lemma EditKeepsTypes(t: Tables, pid: int, req: EditProjectRequest)
    requires Consistent(t) && EditProjectRejection(t, pid, req).None? && ProjectPhoto(t, pid).Some?
    ensures TypesMatch(EditResult(t, pid, req))
  {
    var ids := req.projectCollaborators.ids;
    var t' := EditResult(t, pid, req);
    EditRowsFrame(t, pid, req);
    EditPhotoRule(t, pid, req);
    EditProjectAccepted(t, pid, req);
    EditCollaboratorSet(t, pid, req);
    EditKeepsCollaborators(t, pid, req);
    forall q | q in t'.projects ensures t'.projects[q].projectType == GP <==> HasCollaborator(t', q) {
      if q == pid {
        if |ids| > 0 {
          assert ids[0] in t.users;
          assert CollaboratorRow(pid, ids[0]) in t'.collaborators;
        }
        if HasCollaborator(t', pid) {
          var r :| r in t'.collaborators && r.projectId == pid;
          assert r == CollaboratorRow(pid, r.userId);
        }
      } else {
        assert HasCollaborator(t', q) <==> HasCollaborator(t, q);
      }
    }
  }

  /** A successful edit keeps the tables consistent. */
  lemma EditPreservesConsistency(t: Tables, pid: int, req: EditProjectRequest)
    requires Consistent(t) && EditProjectRejection(t, pid, req).None? && ProjectPhoto(t, pid).Some?
    ensures Consistent(EditResult(t, pid, req))
  {
    EditKeepsPhotos(t, pid, req);
    EditKeepsCollaborators(t, pid, req);
    EditKeepsTypes(t, pid, req);
    EditRowsFrame(t, pid, req);
  }

  // ---------------------------------------------------------------------------
  // Delete
  // ---------------------------------------------------------------------------

  /** ValidateDeleteProject, checked in order: no such project (404), no such
      user (404), a project whose owner has no account (reading the owner
      record raises: 503), a user who is not the owner (400). */
  function ValidateDeleteProject(t: Tables, projectId: int, projectOwnerId: int): (err: Option<Error>)
    ensures err.None? <==>
      projectId in t.projects && projectOwnerId in t.users && t.projects[projectId].ownerId == projectOwnerId
    ensures err == Some(ServerError) <==>
      projectId in t.projects && projectOwnerId in t.users && t.projects[projectId].ownerId !in t.users
    ensures !IsProjectExists(t, projectId) ==> err == Some(NotFound)
    ensures IsProjectExists(t, projectId) && !IsUserExistsById(t, projectOwnerId) ==> err == Some(NotFound)
    ensures err == Some(BadRequest) <==>
      && projectId in t.projects && projectOwnerId in t.users
      && t.projects[projectId].ownerId in t.users && t.projects[projectId].ownerId != projectOwnerId
  {
    if !IsProjectExists(t, projectId) then Some(NotFound)
    else if !IsUserExistsById(t, projectOwnerId) then Some(NotFound)
    else
      var projectOwner := DataRepos.GetProjectInformation(t, projectId).value.projectOwner;
      if projectOwner.None? then Some(ServerError)
      else if projectOwnerId != projectOwner.value.userId then Some(BadRequest)
      else None
  }

  /** The transactional statements of a delete: the collaborator rows, the
      project row, the photo row, and the commit. */
  const DeleteStatementCount := 4

  /** The tables after a successful delete. */
  function DeleteResult(t: Tables, pid: int): Tables
    requires pid in t.projects && ProjectPhoto(t, pid).Some?
  {
    var photoId := ProjectPhoto(t, pid).value.photoId;
    DeletePhoto(DeleteProjectRow(DeleteProjectCollaborators(t, pid), pid), photoId)
  }

  /** DeleteProject. A rejected request, a project whose photo record is
      missing (reading its id raises) and a transaction that raises leave the
      database as it was. */
  method DeleteProject(db: Database, projectId: int, projectOwnerId: int, fault: Option<nat>)
    returns (o: Outcome<ProjectInfo>)
    requires db.Valid()
    modifies db
    ensures db.Valid()
    ensures ValidateDeleteProject(old(db.Snapshot()), projectId, projectOwnerId).Some? ==>
      o == Failed(ValidateDeleteProject(old(db.Snapshot()), projectId, projectOwnerId).value)
      && db.Snapshot() == old(db.Snapshot())
    ensures ValidateDeleteProject(old(db.Snapshot()), projectId, projectOwnerId).None? ==>
      if ProjectPhoto(old(db.Snapshot()), projectId).None? || Raises(fault, DeleteStatementCount)
      then o == Failed(ServerError) && db.Snapshot() == old(db.Snapshot())
      else o == Deleted && db.Snapshot() == DeleteResult(old(db.Snapshot()), projectId)
  {
    var t := db.Snapshot();
    var errors := ValidateDeleteProject(t, projectId, projectOwnerId);
    if errors.Some? {
      return Failed(errors.value);
    }
    var projectInformation := DataRepos.GetProjectInformation(t, projectId);
    if projectInformation.value.projectPhoto.None? {
      return Failed(ServerError);
    }
    var projectPhotoId := projectInformation.value.projectPhoto.value.photoId;
    if fault == Some(0) {
      return Failed(ServerError);
    }
    var tx := DeleteProjectCollaborators(t, projectId);
    if fault == Some(1) {
      return Failed(ServerError);
    }
    tx := DeleteProjectRow(tx, projectId);
    if fault == Some(2) {
      return Failed(ServerError);
    }
    tx := DeletePhoto(tx, projectPhotoId);
    if fault == Some(3) {
      return Failed(ServerError);
    }
    db.Commit(tx);
    return Deleted;
  }

  /** A delete removes the project row, its photo row and every collaborator
      row of the project, and nothing else; the project then reads as absent. */
  lemma DeleteRemovesProject(t: Tables, pid: int)
    requires pid in t.projects && ProjectPhoto(t, pid).Some?
    ensures
      var t' := DeleteResult(t, pid);
      && t'.projects == t.projects - {pid}
      && t'.photos == t.photos - {t.projects[pid].photoId}
      && (forall r :: r in t'.collaborators <==> r in t.collaborators && r.projectId != pid)
      && t'.users == t.users && t'.follows == t.follows
      && t'.nextPhotoId == t.nextPhotoId && t'.nextProjectId == t.nextProjectId
      && t'.nextFollowId == t.nextFollowId
      && DataRepos.GetProjectInformation(t', pid).None?
  {
  }

  /** In consistent tables a project's photo record is always there, so the
      server errors an edit or a delete raises on a missing photo cannot
      happen. */
  lemma ConsistentProjectHasPhoto(t: Tables, pid: int)
    requires Consistent(t) && pid in t.projects
    ensures ProjectPhoto(t, pid).Some?
  {
    assert t.projects[pid].photoId in t.photos;
  }

  /** A successful delete keeps the tables consistent. */
  lemma DeletePreservesConsistency(t: Tables, pid: int)
    requires Consistent(t) && pid in t.projects
    ensures ProjectPhoto(t, pid).Some? && Consistent(DeleteResult(t, pid))
  {
    ConsistentProjectHasPhoto(t, pid);
    var t' := DeleteResult(t, pid);
    var ph := t.projects[pid].photoId;
    DeleteRemovesProject(t, pid);
    forall q | q in t'.projects ensures t.projects[q].photoId != ph {}
    forall u | u in t.users ensures t.users[u].photoId != ph {}
    KeepDistinct(t.collaborators, pid, None);
    assert TypesMatch(t') by {
      forall q | q in t'.projects ensures t'.projects[q].projectType == GP <==> HasCollaborator(t', q) {
        assert HasCollaborator(t', q) <==> HasCollaborator(t, q);
      }
    }
  }

  // ---------------------------------------------------------------------------
  // Read
  // ---------------------------------------------------------------------------

  /** GetProjectInformation: the project record, or 404 when there is none. */
  function GetProjectInformation(t: Tables, projectId: int): (o: Outcome<ProjectInfo>)
    ensures o.Failed? <==> !IsProjectExists(t, projectId)
    ensures o.Failed? ==> o.error == NotFound
    ensures !o.Failed? ==>
      o.Retrieved? && o.body.projectId == projectId && o.body.projectTitle == t.projects[projectId].title
  {
    var responseObject := DataRepos.GetProjectInformation(t, projectId);
    if responseObject.None? then Failed(NotFound) else Retrieved(responseObject.value)
  }
}
