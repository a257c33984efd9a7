/** The in-memory stand-in for the MySQL schema the services use: the five
    tables and their rows, the auto-increment counters, the write statements
    the services issue through Knex (as functions on a snapshot of the tables),
    and the database object whose state a committed transaction replaces. */
module Store {
  import opened Wrappers

  /** A `photo` row: TXT_PHOTO_BASE64 (NULL when a request left the payload
      out), PHOTO_OG_WIDTH, PHOTO_OG_HEIGHT. */
  datatype PhotoRow = PhotoRow(encoded: Option<string>, width: int, height: int)

  /** A `user_account` row. FK_KEY_PHOTO_ID is 0 when the user has no image. */
  datatype UserRow = UserRow(
    username: string, email: string, fullname: string, major: string, school: string,
    photoId: int)

  /** PROJECT_TYPE: "SL" (solo) or "GP" (group). */
  datatype ProjectType = SL | GP

  /** A `project` row: FK_KEY_USR_ID (the owner), TXT_PROJECT_TITLE,
      TXT_PROJECT_DESCRIPTION, PROJECT_TYPE, FK_KEY_PHOTO_ID, NUMBER_OF_LIKES. */
  datatype ProjectRow = ProjectRow(
    ownerId: int, title: string, description: string, projectType: ProjectType,
    photoId: int, likes: int)

  /** A `project_collaborator` row: FK_KEY_PROJECT_ID, FK_KEY_USR_ID. */
  datatype CollaboratorRow = CollaboratorRow(projectId: int, userId: int)

  /** A `follow` row: user FK_KEY_USR_ID follows user FK_KEY_FOLLOW_USR_ID. */
  datatype FollowRow = FollowRow(userId: int, followedUserId: int)

  /** The whole database as a value. Tables with an auto-increment key carry
      the next id the database hands out. */
  datatype Tables = Tables(
    users: map<int, UserRow>,
    photos: map<int, PhotoRow>, nextPhotoId: int,
    projects: map<int, ProjectRow>, nextProjectId: int,
    collaborators: seq<CollaboratorRow>,
    follows: map<int, FollowRow>, nextFollowId: int)

  /** Auto-increment ids start at 1 and every key lies below its counter, so
      the counter is always a fresh, non-zero id. */
  predicate WellFormed(t: Tables) {
    && 1 <= t.nextPhotoId && (forall id :: id in t.photos ==> 1 <= id < t.nextPhotoId)
    && 1 <= t.nextProjectId && (forall id :: id in t.projects ==> 1 <= id < t.nextProjectId)
    && 1 <= t.nextFollowId && (forall id :: id in t.follows ==> 1 <= id < t.nextFollowId)
  }

  // ---------------------------------------------------------------------------
  // Write statements
  // ---------------------------------------------------------------------------

  /** `insert` into `photo`; returns the new table state and the new id. */
  function InsertPhoto(t: Tables, row: PhotoRow): (res: (Tables, int))
    ensures WellFormed(t) ==> WellFormed(res.0) && res.1 !in t.photos && res.1 >= 1
  {
    var id := t.nextPhotoId;
    (t.(photos := t.photos[id := row], nextPhotoId := id + 1), id)
  }

  /** `delete` from `photo` where PK_KEY_PHOTO_ID = id. */
  function DeletePhoto(t: Tables, id: int): (t': Tables)
    ensures WellFormed(t) ==> WellFormed(t')
  {
    t.(photos := t.photos - {id})
  }

  /** `insert` into `project`; returns the new table state and the new id. */
  function InsertProject(t: Tables, row: ProjectRow): (res: (Tables, int))
    ensures WellFormed(t) ==> WellFormed(res.0) && res.1 !in t.projects && res.1 >= 1
  {
    var id := t.nextProjectId;
    (t.(projects := t.projects[id := row], nextProjectId := id + 1), id)
  }

  /** `update` of `project` where PK_KEY_PROJECT_ID = id: title, description,
      type and photo reference; no row changes when there is no such project. */
  function UpdateProject(
    t: Tables, id: int, title: string, description: string, ty: ProjectType, photoId: int
  ): (t': Tables)
    ensures WellFormed(t) ==> WellFormed(t')
  {
    if id in t.projects then
      t.(projects := t.projects[id := t.projects[id].(
        title := title, description := description, projectType := ty, photoId := photoId)])
    else t
  }

  /** `delete` from `project` where PK_KEY_PROJECT_ID = id. */
  function DeleteProjectRow(t: Tables, id: int): (t': Tables)
    ensures WellFormed(t) ==> WellFormed(t')
  {
    t.(projects := t.projects - {id})
  }

  /** `insert` of a batch of `project_collaborator` rows. */
  function InsertCollaborators(t: Tables, rows: seq<CollaboratorRow>): (t': Tables)
    ensures WellFormed(t) ==> WellFormed(t')
  {
    t.(collaborators := t.collaborators + rows)
  }

  /** A row a `delete ... where FK_KEY_PROJECT_ID = projectId [and
      FK_KEY_USR_ID = userId]` statement matches. */
  predicate Matches(r: CollaboratorRow, projectId: int, userId: Option<int>) {
    r.projectId == projectId && (userId.None? || r.userId == userId.value)
  }

  /** The rows that such a statement leaves, in their order. */
  function Keep(rows: seq<CollaboratorRow>, projectId: int, userId: Option<int>): (r: seq<CollaboratorRow>)
    ensures forall x :: x in r <==> x in rows && !Matches(x, projectId, userId)
  {
    if rows == [] then []
    else
      var last := rows[|rows| - 1];
      Keep(rows[..|rows| - 1], projectId, userId) + (if Matches(last, projectId, userId) then [] else [last])
  }

  /** `delete` from `project_collaborator` where FK_KEY_PROJECT_ID = projectId
      and FK_KEY_USR_ID = userId: every matching row goes. */
  function DeleteCollaborator(t: Tables, projectId: int, userId: int): (t': Tables)
    ensures WellFormed(t) ==> WellFormed(t')
  {
    t.(collaborators := Keep(t.collaborators, projectId, Some(userId)))
  }

  /** `delete` from `project_collaborator` where FK_KEY_PROJECT_ID = projectId. */
  function DeleteProjectCollaborators(t: Tables, projectId: int): (t': Tables)
    ensures WellFormed(t) ==> WellFormed(t')
  {
    t.(collaborators := Keep(t.collaborators, projectId, None))
  }

  /** `update` of `user_account` where PK_KEY_USR_ID = id. */
  function UpdateUser(
    t: Tables, id: int, fullname: string, major: string, school: string, email: string, photoId: int
  ): (t': Tables)
    ensures WellFormed(t) ==> WellFormed(t')
  {
    if id in t.users then
      t.(users := t.users[id := t.users[id].(
        fullname := fullname, major := major, school := school, email := email, photoId := photoId)])
    else t
  }

  /** `insert` into `follow`; returns the new table state and the new id. */
  function InsertFollow(t: Tables, row: FollowRow): (res: (Tables, int))
    ensures WellFormed(t) ==> WellFormed(res.0) && res.1 !in t.follows && res.1 >= 1
  {
    var id := t.nextFollowId;
    (t.(follows := t.follows[id := row], nextFollowId := id + 1), id)
  }

  /** `delete` from `follow` where PK_KEY_FOLLOW_ID = id. */
  function DeleteFollow(t: Tables, id: int): (t': Tables)
    ensures WellFormed(t) ==> WellFormed(t')
  {
    t.(follows := t.follows - {id})
  }

  /** A transaction of `statements` statements, numbered from 0, raises when
      the driver fails at one of them: `fault` names the failing statement. */
  predicate Raises(fault: Option<nat>, statements: nat) {
    fault.Some? && fault.value < statements
  }

  // ---------------------------------------------------------------------------
  // The database
  // ---------------------------------------------------------------------------

  /** The database the services share. A service reads its committed state,
      computes the writes of a transaction on a copy, and installs the copy
      with Commit; a transaction that raises never reaches Commit. */
  class Database {
    var users: map<int, UserRow>
    var photos: map<int, PhotoRow>
    var nextPhotoId: int
    var projects: map<int, ProjectRow>
    var nextProjectId: int
    var collaborators: seq<CollaboratorRow>
    var follows: map<int, FollowRow>
    var nextFollowId: int

    /** The committed state. */
    function Snapshot(): Tables
      reads this
    {
      Tables(users, photos, nextPhotoId, projects, nextProjectId, collaborators, follows, nextFollowId)
    }

    ghost predicate Valid()
      reads this
    {
      WellFormed(Snapshot())
    }

    constructor (init: Tables)
      requires WellFormed(init)
      ensures Valid() && Snapshot() == init
    {
      users, photos, nextPhotoId := init.users, init.photos, init.nextPhotoId;
      projects, nextProjectId := init.projects, init.nextProjectId;
      collaborators := init.collaborators;
      follows, nextFollowId := init.follows, init.nextFollowId;
    }

    /** `trx.commit()`: the transaction's copy becomes the committed state. */
    method Commit(t: Tables)
      requires WellFormed(t)
      modifies this
      ensures Valid() && Snapshot() == t
    {
      users, photos, nextPhotoId := t.users, t.photos, t.nextPhotoId;
      projects, nextProjectId := t.projects, t.nextProjectId;
      collaborators := t.collaborators;
      follows, nextFollowId := t.follows, t.nextFollowId;
    }
  }
}
