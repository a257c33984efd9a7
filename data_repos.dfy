/** The read helpers the services share: existence checks, the user, photo and
    project aggregates, and the collaborator listing. Each is a query of the
    committed tables; none of them writes. */
module DataRepos {
  import opened Wrappers
  import opened Store
  import Helpers

  /** The photo record: photoId, photoEncode64, photoOGWidth, photoOGHeight. */
  datatype PhotoInfo = PhotoInfo(photoId: int, photoEncode64: Option<string>, photoOGWidth: int, photoOGHeight: int)

  /** The user record: userId, fullname, major, school, userImage, email, username. */
  datatype UserInfo = UserInfo(
    userId: int, fullname: string, major: string, school: string,
    userImage: Option<PhotoInfo>, email: string, username: string)

  /** The project record (the creation date is not modelled). */
  datatype ProjectInfo = ProjectInfo(
    projectId: int, projectOwner: Option<UserInfo>, projectTitle: string,
    projectDescription: string, projectType: ProjectType, projectPhoto: Option<PhotoInfo>,
    projectLikeCount: int, projectCollaborators: seq<UserInfo>)

  /** Lookups of a username or an email compare the stored value with the
      input lower-cased and then trimmed. */
  function LookupKey(s: string): string {
    Helpers.Trim(Helpers.Lower(s))
  }

  /** IsUsernameExists: some account's username is the normalised input. */
  function IsUsernameExists(t: Tables, username: string): bool {
    exists id | id in t.users :: t.users[id].username == LookupKey(username)
  }

  /** IsEmailExists: some account's email is the normalised input. */
  function IsEmailExists(t: Tables, email: string): bool {
    exists id | id in t.users :: t.users[id].email == LookupKey(email)
  }

  /** IsUserExistsById. */
  function IsUserExistsById(t: Tables, userId: int): bool {
    userId in t.users
  }

  /** IsProjectExists. */
  function IsProjectExists(t: Tables, projectId: int): bool {
    projectId in t.projects
  }

  /** GetPhotoInformation: null for the id 0 (no photo) and for a missing row. */
  function GetPhotoInformation(t: Tables, photoId: int): (r: Option<PhotoInfo>)
    ensures r.None? <==> photoId == 0 || photoId !in t.photos
    ensures r.Some? ==>
      && r.value.photoId == photoId
      && t.photos[photoId] == PhotoRow(r.value.photoEncode64, r.value.photoOGWidth, r.value.photoOGHeight)
  {
    if photoId == 0 then None
    else if photoId in t.photos then
      var row := t.photos[photoId];
      Some(PhotoInfo(photoId, row.encoded, row.width, row.height))
    else None
  }

  /** GetUserInfoByID: null when no account has the id (reading a field of the
      missing row raises, and the catch returns null). */
  function GetUserInfoByID(t: Tables, userId: int): (r: Option<UserInfo>)
    ensures r.None? <==> !IsUserExistsById(t, userId)
    ensures r.Some? ==>
      var row := t.users[userId];
      && r.value.userId == userId
      && r.value.fullname == row.fullname && r.value.major == row.major
      && r.value.school == row.school && r.value.email == row.email
      && r.value.username == row.username
      && r.value.userImage == GetPhotoInformation(t, row.photoId)
  {
    if userId !in t.users then None
    else
      var row := t.users[userId];
      Some(UserInfo(userId, row.fullname, row.major, row.school,
                    GetPhotoInformation(t, row.photoId), row.email, row.username))
  }

  /** The `select FK_KEY_USR_ID from project_collaborator where
      FK_KEY_PROJECT_ID = projectId`, in row order. */
  function CollaboratorUserIds(rows: seq<CollaboratorRow>, projectId: int): (ids: seq<int>)
    ensures forall u :: u in ids <==> CollaboratorRow(projectId, u) in rows
  {
    if rows == [] then []
    else
      var last := rows[|rows| - 1];
      CollaboratorUserIds(rows[..|rows| - 1], projectId) + (if last.projectId == projectId then [last.userId] else [])
  }

  /** The user records for `ids`, in order, skipping the ids with no account. */
  function UserInfos(t: Tables, ids: seq<int>): seq<UserInfo>
  {
    if ids == [] then []
    else
      var last := GetUserInfoByID(t, ids[|ids| - 1]);
      UserInfos(t, ids[..|ids| - 1]) + (if last.Some? then [last.value] else [])
  }

  /** What GetProjectCollaborators returns. */
  function ProjectCollaborators(t: Tables, projectId: int): seq<UserInfo> {
    UserInfos(t, CollaboratorUserIds(t.collaborators, projectId))
  }

  /** GetProjectCollaborators: fetch the user record of each collaborator row
      of the project and keep those that exist. */
  method GetProjectCollaborators(t: Tables, projectId: int) returns (infos: seq<UserInfo>)
    ensures infos == ProjectCollaborators(t, projectId)
  {
    var ids := CollaboratorUserIds(t.collaborators, projectId);
    infos := [];
    for i := 0 to |ids|
      invariant infos == UserInfos(t, ids[..i])
    {
      assert ids[..i + 1][..i] == ids[..i];
      var info := GetUserInfoByID(t, ids[i]);
      if info.Some? {
        infos := infos + [info.value];
      }
    }
    assert ids[..|ids|] == ids;
  }

  /** GetProjectInformation: null iff there is no such project; a solo project
      lists no collaborators without reading the collaborator table. */
  function GetProjectInformation(t: Tables, projectId: int): (r: Option<ProjectInfo>)
    ensures r.None? <==> !IsProjectExists(t, projectId)
    ensures r.Some? ==>
      var p := t.projects[projectId];
      && r.value.projectId == projectId
      && r.value.projectTitle == p.title
      && r.value.projectDescription == p.description
      && r.value.projectType == p.projectType
      && r.value.projectLikeCount == p.likes
      && r.value.projectOwner == GetUserInfoByID(t, p.ownerId)
      && r.value.projectPhoto == GetPhotoInformation(t, p.photoId)
      && r.value.projectCollaborators == (if p.projectType == SL then [] else ProjectCollaborators(t, projectId))
  {
    if projectId !in t.projects then None
    else
      var p := t.projects[projectId];
      var collaborators := if p.projectType == SL then [] else ProjectCollaborators(t, projectId);
      Some(ProjectInfo(projectId, GetUserInfoByID(t, p.ownerId), p.title, p.description,
                       p.projectType, GetPhotoInformation(t, p.photoId), p.likes, collaborators))
  }

  // ---------------------------------------------------------------------------
  // Properties of the queries
  // ---------------------------------------------------------------------------

  /** The records listed for `ids` are exactly the accounts among `ids`, each
      the account's own record. */
  lemma {:induction false} UserInfosMembers(t: Tables, ids: seq<int>)
    ensures forall u :: u in UserInfos(t, ids) <==> u.userId in ids && GetUserInfoByID(t, u.userId) == Some(u)
    ensures |UserInfos(t, ids)| <= |ids|
  {
    if ids != [] {
      UserInfosMembers(t, ids[..|ids| - 1]);
      assert ids == ids[..|ids| - 1] + [ids[|ids| - 1]];
    }
  }

  /** Every id with an account is listed exactly as often as it occurs in
      `ids`; ids without one are dropped. */
  lemma {:induction false} UserInfosCount(t: Tables, ids: seq<int>, u: int)
    requires u in t.users
    ensures multiset(UserInfos(t, ids))[GetUserInfoByID(t, u).value] == multiset(ids)[u]
  {
    if ids != [] {
      UserInfosCount(t, ids[..|ids| - 1], u);
      assert ids == ids[..|ids| - 1] + [ids[|ids| - 1]];
    }
  }

  /** The collaborators GetProjectCollaborators lists are exactly the existing
      accounts that have a collaborator row for the project. */
  lemma ProjectCollaboratorsMembers(t: Tables, projectId: int)
    ensures forall u :: u in ProjectCollaborators(t, projectId) <==>
      && GetUserInfoByID(t, u.userId) == Some(u)
      && CollaboratorRow(projectId, u.userId) in t.collaborators
  {
    UserInfosMembers(t, CollaboratorUserIds(t.collaborators, projectId));
  }

  /** The lookup key of a lookup key is itself. */
  lemma LookupKeyIdempotent(s: string)
    ensures LookupKey(LookupKey(s)) == LookupKey(s)
  {
    Helpers.LowerOfTrimmedLower(s);
    Helpers.TrimIdempotent(Helpers.Lower(s));
  }

  /** The username and email lookups ignore letter case and surrounding
      whitespace: asking with the input's key, with the input lower-cased, or
      with a space in front gives the same answer as asking with the input. */
  lemma LookupsIgnoreCaseAndPadding(t: Tables, s: string)
    ensures IsUsernameExists(t, LookupKey(s)) == IsUsernameExists(t, s)
    ensures IsEmailExists(t, LookupKey(s)) == IsEmailExists(t, s)
    ensures IsUsernameExists(t, Helpers.Lower(s)) == IsUsernameExists(t, s)
    ensures IsEmailExists(t, Helpers.Lower(s)) == IsEmailExists(t, s)
    ensures IsUsernameExists(t, " " + s) == IsUsernameExists(t, s)
    ensures IsEmailExists(t, " " + s) == IsEmailExists(t, s)
  {
    LookupKeyIdempotent(s);
    Helpers.LowerIdempotent(s);
    assert Helpers.Lower(" " + s) == " " + Helpers.Lower(s);
    Helpers.TrimLeadingSpace(Helpers.Lower(s));
  }

  /** Every record GetUserInfoByID returns describes the requested id, and the
      query agrees with IsUserExistsById. */
  lemma UserInfoAgreesWithExistence(t: Tables, userId: int)
    ensures IsUserExistsById(t, userId) <==> GetUserInfoByID(t, userId).Some?
    ensures GetUserInfoByID(t, userId).Some? ==> GetUserInfoByID(t, userId).value.userId == userId
  {
  }
}
