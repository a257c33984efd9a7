/** A user's own profile: validating and applying an update of the user's
    information and image, and the read aggregate behind a profile page
    (the user record, the user's solo projects, the projects the user
    collaborates on, and both directions of the follow relation). */
module UserServices {
  import opened Wrappers
  import opened Store
  import opened Responses
  import opened DataRepos
  import opened Helpers
  import opened Integrity

  // ---------------------------------------------------------------------------
  // Requests and records
  // ---------------------------------------------------------------------------

  /** The `encodePhoto` field of an update: `null`, left out (`undefined`),
      or a string. */
  datatype PhotoField = Null | Absent | Encoded(payload: string)

  /** The body of an update; empty strings and 0 are the falsy values (a
      size left out reads as 0). */
  datatype UpdateUserRequest = UpdateUserRequest(
    userId: int, fullname: string, major: string, school: string, email: string,
    encodePhoto: PhotoField, photoOGWidth: int, photoOGHeight: int)

  /** A follow row as the profile lists it: followId, userId (the follower),
      userFollowerId (the user followed). */
  datatype FollowInfo = FollowInfo(followId: int, userId: int, userFollowerId: int)

  /** A project as the profile lists it. The collaboration listing left-joins
      the project table, so a row whose project is gone gives a null id. */
  datatype ProjectCard = ProjectCard(projectId: Option<int>, projectPhoto: Option<PhotoInfo>)

  /** The profile record. `username` is read from a property the selected row
      does not have, so it is always undefined, modelled as `None`. */
  datatype UserProfile = UserProfile(
    userId: int, fullname: string, major: string, school: string,
    userImage: Option<PhotoInfo>, email: string, username: Option<string>,
    personalProjects: set<ProjectCard>, collaborateProjects: seq<ProjectCard>,
    userFollowers: set<FollowInfo>, userFollowings: set<FollowInfo>)

  // ---------------------------------------------------------------------------
  // Validation
  // ---------------------------------------------------------------------------

  /** No required field of an update is falsy. */
  predicate UpdateFieldsPresent(req: UpdateUserRequest) {
    && req.userId != 0 && req.fullname != [] && req.major != []
    && req.school != [] && req.email != []
  }

  /** A truthy photo payload sent with a falsy height or width. */
  predicate PhotoSizeMissing(req: UpdateUserRequest) {
    req.encodePhoto.Encoded? && req.encodePhoto.payload != [] && (req.photoOGHeight == 0 || req.photoOGWidth == 0)
  }

  /** Account `id` stores the address `key`. */
  predicate HoldsEmail(t: Tables, id: int, key: string) {
    id in t.users && t.users[id].email == key
  }

  /** `id` is the row `.first()` returns for the address: the holder with the
      least primary key. */
  ghost predicate FirstHolder(t: Tables, key: string, id: int) {
    HoldsEmail(t, id, key) && forall h :: HoldsEmail(t, h, key) ==> id <= h
  }

  /** The email check decided without naming the first holder: an account
      other than `userId` holds the address, and either `userId` does not
      hold it or that account's id is the smaller. */
  predicate EmailInUseByOther(t: Tables, userId: int, key: string) {
    exists h | h in t.users :: HoldsEmail(t, h, key) && h != userId && (!HoldsEmail(t, userId, key) || h < userId)
  }

  /** ValidateUpdateUserInformation, checked in order: a missing field, an
      unknown user, a photo without its size, then an address whose first
      holder is another account. */
  function ValidateUpdateUserInformation(t: Tables, req: UpdateUserRequest): (err: Option<Error>)
    ensures err == Some(MissingContent) <==> !UpdateFieldsPresent(req)
    ensures err == Some(NotFound) <==> UpdateFieldsPresent(req) && !IsUserExistsById(t, req.userId)
    ensures err.None? <==>
      && UpdateFieldsPresent(req) && IsUserExistsById(t, req.userId) && !PhotoSizeMissing(req)
      && !EmailInUseByOther(t, req.userId, LookupKey(req.email))
    ensures err == Some(BadRequest) <==>
      && UpdateFieldsPresent(req) && IsUserExistsById(t, req.userId)
      && (PhotoSizeMissing(req) || EmailInUseByOther(t, req.userId, LookupKey(req.email)))
  {
    if !UpdateFieldsPresent(req) then Some(MissingContent)
    else if !IsUserExistsById(t, req.userId) then Some(NotFound)
    else if PhotoSizeMissing(req) then Some(BadRequest)
    else if EmailInUseByOther(t, req.userId, LookupKey(req.email)) then Some(BadRequest)
    else None
  }

  /** A set of ids with an element `w` has a least element. */
  lemma LeastElement(s: set<int>, w: int) returns (m: int)
    requires w in s
    ensures m in s && forall y :: y in s ==> m <= y
  {
    if forall y :: y in s ==> w <= y {
      m := w;
    } else {
      var y :| y in s && y < w;
      m := LeastElement(s - {w}, y);
      assert forall z :: z in s ==> z == w || z in s - {w};
    }
  }

  /** Every address that some account holds has a first holder. */
  lemma FirstHolderExists(t: Tables, key: string, h: int)
    requires HoldsEmail(t, h, key)
    ensures exists m :: FirstHolder(t, key, m)
  {
    var holders := set g | g in t.users && HoldsEmail(t, g, key);
    var m := LeastElement(holders, h);
    forall g | HoldsEmail(t, g, key) ensures m <= g {
      assert g in holders;
    }
    assert FirstHolder(t, key, m);
  }

  /** The check rejects exactly when the first holder of the address is an
      account other than the user. */
  lemma EmailCheckIsFirstHolder(t: Tables, userId: int, key: string)
    ensures EmailInUseByOther(t, userId, key) <==> exists m :: FirstHolder(t, key, m) && m != userId
  {
    if EmailInUseByOther(t, userId, key) {
      var h :| h in t.users && HoldsEmail(t, h, key) && h != userId && (!HoldsEmail(t, userId, key) || h < userId);
      FirstHolderExists(t, key, h);
      var m :| FirstHolder(t, key, m);
      assert m <= h;
      assert m != userId;
    }
  }

  /** No two accounts share an address. */
  predicate UniqueEmails(t: Tables) {
    forall u, v :: u in t.users && v in t.users && u != v ==> t.users[u].email != t.users[v].email
  }

  /** Where addresses are unique the check simply asks whether another
      account holds the address. */
  lemma EmailCheckWhenUnique(t: Tables, userId: int, key: string)
    requires UniqueEmails(t)
    ensures EmailInUseByOther(t, userId, key) <==> exists h :: HoldsEmail(t, h, key) && h != userId
  {
    if h :| HoldsEmail(t, h, key) && h != userId {
      assert !HoldsEmail(t, userId, key);
    }
  }

  // ---------------------------------------------------------------------------
  // Update
  // ---------------------------------------------------------------------------

  /** The `user_account` columns every image branch writes besides the
      photo reference: TXT_FULL_NAME, TXT_MAJOR, TXT_SCHOOL, USR_EMAIL. */
  datatype ProfileUpdate = ProfileUpdate(fullname: string, major: string, school: string, email: string)

  /** The columns an update writes for a request: the name, major and school
      normalised, the address lower-cased and trimmed. */
  function RequestedProfile(req: UpdateUserRequest): ProfileUpdate {
    ProfileUpdate(Normalised(req.fullname), Normalised(req.major), Normalised(req.school), LookupKey(req.email))
  }

  /** `update user_account ... where PK_KEY_USR_ID = userId`. */
  function ApplyProfile(t: Tables, userId: int, p: ProfileUpdate, photoId: int): (t': Tables)
    ensures WellFormed(t) ==> WellFormed(t')
    ensures t' == t.(users := t'.users)
    ensures userId in t.users ==> t'.users == t.users[userId := t.users[userId].(
      fullname := p.fullname, major := p.major, school := p.school, email := p.email, photoId := photoId)]
  {
    UpdateUser(t, userId, p.fullname, p.major, p.school, p.email, photoId)
  }

  /** TXT_PHOTO_BASE64 as inserted: a payload left out is stored as NULL. */
  function PayloadOf(p: PhotoField): Option<string>
    requires !p.Null?
  {
    if p.Encoded? then Some(p.payload) else None
  }

  /** The photo row an update inserts. */
  function NewPhotoRow(req: UpdateUserRequest): PhotoRow
    requires !req.encodePhoto.Null?
  {
    PhotoRow(PayloadOf(req.encodePhoto), req.photoOGWidth, req.photoOGHeight)
  }

  /** `encodePhoto === userImage.photoEncode64`: only a string equal to the
      stored payload; a payload left out never equals a stored NULL. */
  predicate SamePayload(p: PhotoField, stored: PhotoInfo) {
    p.Encoded? && stored.photoEncode64 == Some(p.payload)
  }

  /** The user's current image, as GetUserInfoByID reports it. */
  function CurrentImage(t: Tables, userId: int): (image: Option<PhotoInfo>)
    requires userId in t.users
    ensures image.Some? ==> image.value.photoId == t.users[userId].photoId && image.value.photoId in t.photos
  {
    GetUserInfoByID(t, userId).value.userImage
  }

  /** The update keeps the stored image: the user has one and the payload is
      the same. */
  predicate KeepsImage(t: Tables, req: UpdateUserRequest)
    requires req.userId in t.users
  {
    CurrentImage(t, req.userId).Some? && SamePayload(req.encodePhoto, CurrentImage(t, req.userId).value)
  }

  /** The update replaces a stored image by a new one. */
  predicate ReplacesImage(t: Tables, req: UpdateUserRequest)
    requires req.userId in t.users
  {
    CurrentImage(t, req.userId).Some? && !SamePayload(req.encodePhoto, CurrentImage(t, req.userId).value)
  }

  /** The transactional statements of an update: a first image is one insert
      and the user update; a kept image is the user update alone; a replaced
      image is the insert, the update and the delete of the old row; each
      then commits. */
  function UserStatementCount(t: Tables, req: UpdateUserRequest): nat
    requires req.userId in t.users
  {
    if KeepsImage(t, req) then 2 else if ReplacesImage(t, req) then 4 else 3
  }

  /** The photo part of an update before the user row is written: nothing
      for a kept image, else the insert of the new row; with the photo
      reference the user row then gets. */
  function ImageStep(t: Tables, req: UpdateUserRequest): (res: (Tables, int))
    requires req.userId in t.users && !req.encodePhoto.Null?
  {
    if KeepsImage(t, req) then (t, t.users[req.userId].photoId) else InsertPhoto(t, NewPhotoRow(req))
  }

  /** The tables after a successful update with an image field. */
  function UpdateResult(t: Tables, req: UpdateUserRequest): Tables
    requires req.userId in t.users && !req.encodePhoto.Null?
  {
    var step := ImageStep(t, req);
    var written := ApplyProfile(step.0, req.userId, RequestedProfile(req), step.1);
    if ReplacesImage(t, req) then DeletePhoto(written, t.users[req.userId].photoId) else written
  }

  /** The transaction for a user without an image: insert the photo, point
      the user row at it, commit. */
  method FirstImageTransaction(t: Tables, userId: int, image: PhotoRow, profile: ProfileUpdate, fault: Option<nat>)
    returns (tx: Tables, raised: bool)
    ensures raised <==> Raises(fault, 3)
    ensures !raised ==> tx == ApplyProfile(InsertPhoto(t, image).0, userId, profile, InsertPhoto(t, image).1)
  {
    tx := t;
    if fault == Some(0) {
      return tx, true;
    }
    var newPhoto := InsertPhoto(tx, image);
    tx := newPhoto.0;
    if fault == Some(1) {
      return tx, true;
    }
    tx := ApplyProfile(tx, userId, profile, newPhoto.1);
    raised := fault == Some(2);
  }

  /** The transaction for a user with an image: when the payload differs,
      insert the new photo, point the user row at it and delete the old row;
      otherwise only write the user row; then commit. */
  method ExistingImageTransaction(
    t: Tables, userId: int, image: PhotoRow, profile: ProfileUpdate, stored: PhotoInfo,
    isUpdateImage: bool, fault: Option<nat>
  ) returns (tx: Tables, raised: bool)
    ensures raised <==> Raises(fault, if isUpdateImage then 4 else 2)
    ensures !raised ==>
      tx == if isUpdateImage
      then DeletePhoto(ApplyProfile(InsertPhoto(t, image).0, userId, profile, InsertPhoto(t, image).1), stored.photoId)
      else ApplyProfile(t, userId, profile, stored.photoId)
  {
    tx := t;
    var newPhotoId := stored.photoId;
    var step := 0;
    if isUpdateImage {
      if fault == Some(0) {
        return tx, true;
      }
      var newPhoto := InsertPhoto(tx, image);
      tx, newPhotoId, step := newPhoto.0, newPhoto.1, 1;
    }
    if fault == Some(step) {
      return tx, true;
    }
    tx := ApplyProfile(tx, userId, profile, newPhotoId);
    step := step + 1;
    if isUpdateImage {
      if fault == Some(step) {
        return tx, true;
      }
      tx := DeletePhoto(tx, stored.photoId);
      step := step + 1;
    }
    raised := fault == Some(step);
  }

  /** The statements of an update's transaction, up to and including the
      commit, computed on a copy of the committed state. */
  method UpdateTransaction(t: Tables, req: UpdateUserRequest, fault: Option<nat>) returns (tx: Tables, raised: bool)
    requires req.userId in t.users && !req.encodePhoto.Null?
    ensures raised <==> Raises(fault, UserStatementCount(t, req))
    ensures !raised ==> tx == UpdateResult(t, req)
  {
    var currentUserInformation := GetUserInfoByID(t, req.userId).value;
    var updatedUserImageData := PhotoRow(PayloadOf(req.encodePhoto), req.photoOGWidth, req.photoOGHeight);
    var fullname := CapitalizeFirstLetter(Lower(Trim(req.fullname)));
    var major := CapitalizeFirstLetter(Lower(Trim(req.major)));
    var school := CapitalizeFirstLetter(Lower(Trim(req.school)));
    var updateUserInformation := ProfileUpdate(fullname, major, school, Trim(Lower(req.email)));
    if currentUserInformation.userImage.None? {
      tx, raised := FirstImageTransaction(t, req.userId, updatedUserImageData, updateUserInformation, fault);
    } else {
      var stored := currentUserInformation.userImage.value;
      var isUpdateImage := !SamePayload(req.encodePhoto, stored);
      tx, raised := ExistingImageTransaction(
        t, req.userId, updatedUserImageData, updateUserInformation, stored, isUpdateImage, fault);
    }
  }

  /** UpdateUserInformation. A rejected request leaves the database as it
      was; so does a `null` photo, whose branch reads an undefined variable
      and raises before any write, and a transaction that raises. */
  method UpdateUserInformation(db: Database, req: UpdateUserRequest, fault: Option<nat>)
    returns (o: Outcome<UserProfile>)
    requires db.Valid()
    modifies db
    ensures db.Valid()
    ensures ValidateUpdateUserInformation(old(db.Snapshot()), req).Some? ==>
      o == Failed(ValidateUpdateUserInformation(old(db.Snapshot()), req).value)
      && db.Snapshot() == old(db.Snapshot())
    ensures ValidateUpdateUserInformation(old(db.Snapshot()), req).None? ==>
      if req.encodePhoto.Null? || Raises(fault, UserStatementCount(old(db.Snapshot()), req))
      then o == Failed(ServerError) && db.Snapshot() == old(db.Snapshot())
      else o == Updated(None) && db.Snapshot() == UpdateResult(old(db.Snapshot()), req)
  {
    var t := db.Snapshot();
    var errors := ValidateUpdateUserInformation(t, req);
    if errors.Some? {
      return Failed(errors.value);
    }
    if req.encodePhoto.Null? {
      return Failed(ServerError);
    }
    var tx, raised := UpdateTransaction(t, req, fault);
    if raised {
      return Failed(ServerError);
    }
    UpdateResultShape(t, req);
    db.Commit(tx);
    return Updated(None);
  }

  /** What an update writes: the user row gets the requested columns and
      the image step's photo reference; the photo table gets the image
      step's insert and, for a replaced image, loses the old row; no other
      table and no other counter changes. */
  lemma UpdateResultShape(t: Tables, req: UpdateUserRequest)
    requires req.userId in t.users && !req.encodePhoto.Null?
    ensures
      var t' := UpdateResult(t, req);
      var step := ImageStep(t, req);
      var p := RequestedProfile(req);
      && t'.users == t.users[req.userId := t.users[req.userId].(
           fullname := p.fullname, major := p.major, school := p.school, email := p.email,
           photoId := step.1)]
      && t'.photos == (if ReplacesImage(t, req) then step.0.photos - {t.users[req.userId].photoId} else step.0.photos)
      && t'.nextPhotoId == step.0.nextPhotoId
      && t'.projects == t.projects && t'.nextProjectId == t.nextProjectId
      && t'.collaborators == t.collaborators
      && t'.follows == t.follows && t'.nextFollowId == t.nextFollowId
      && (WellFormed(t) ==> WellFormed(t'))
  {
    var step := ImageStep(t, req);
    assert step.0 == t.(photos := step.0.photos, nextPhotoId := step.0.nextPhotoId);
  }

  /** The stored name, major and school are the normalised inputs and the
      stored address is the lower-cased, trimmed input, which the email
      lookup then finds; the username, every other account, the projects,
      the collaborator rows and the follow rows stay as they were. */
  lemma UpdateUserFields(t: Tables, req: UpdateUserRequest)
    requires req.userId in t.users && !req.encodePhoto.Null?
    ensures
      var t' := UpdateResult(t, req);
      && t'.users.Keys == t.users.Keys
      && t'.users[req.userId] == t.users[req.userId].(
           fullname := Normalised(req.fullname), major := Normalised(req.major),
           school := Normalised(req.school), email := LookupKey(req.email),
           photoId := t'.users[req.userId].photoId)
      && (forall u :: u in t.users && u != req.userId ==> t'.users[u] == t.users[u])
      && t'.projects == t.projects && t'.collaborators == t.collaborators && t'.follows == t.follows
      && IsEmailExists(t', req.email)
  {
    UpdateResultShape(t, req);
    var t' := UpdateResult(t, req);
    assert HoldsEmail(t', req.userId, LookupKey(req.email));
  }

  /** The image rule: a user without an image gets one new photo row and
      points at it; an identical payload changes no photo row and keeps the
      reference (and the stored size); any other payload adds one new row,
      points at it, and deletes the old row. Either way the user's image
      then reads back as the request's payload and size, or as before. */
  lemma UpdateUserPhotoRule(t: Tables, req: UpdateUserRequest)
    requires WellFormed(t) && req.userId in t.users && !req.encodePhoto.Null?
    ensures
      var t' := UpdateResult(t, req);
      var image := CurrentImage(t, req.userId);
      var newId := t.nextPhotoId;
      && (image.None? ==>
            && t'.users[req.userId].photoId == newId && newId !in t.photos
            && t'.photos == t.photos[newId := NewPhotoRow(req)])
      && (image.Some? && SamePayload(req.encodePhoto, image.value) ==>
            && t'.users[req.userId].photoId == t.users[req.userId].photoId
            && t'.photos == t.photos)
      && (image.Some? && !SamePayload(req.encodePhoto, image.value) ==>
            && t'.users[req.userId].photoId == newId && newId !in t.photos
            && t'.photos == t.photos[newId := NewPhotoRow(req)] - {t.users[req.userId].photoId})
      && CurrentImage(t', req.userId) ==
           if image.Some? && SamePayload(req.encodePhoto, image.value) then image
           else Some(PhotoInfo(newId, PayloadOf(req.encodePhoto), req.photoOGWidth, req.photoOGHeight))
  {
    UpdateResultShape(t, req);
    var t' := UpdateResult(t, req);
    var image := CurrentImage(t, req.userId);
    if image.Some? && !SamePayload(req.encodePhoto, image.value) {
      assert t.nextPhotoId != t.users[req.userId].photoId;
    }
  }

  /** The photo rows an update leaves that a project refers to: only the
      user's own one might be touched. */
  lemma UpdateKeepsProjectPhotos(t: Tables, req: UpdateUserRequest)
    requires Consistent(t) && req.userId in t.users && !req.encodePhoto.Null?
    ensures forall p :: p in t.projects ==>
      var t' := UpdateResult(t, req);
      t.projects[p].photoId in t'.photos && t'.photos[t.projects[p].photoId] == t.photos[t.projects[p].photoId]
  {
    var t' := UpdateResult(t, req);
    UpdateUserPhotoRule(t, req);
    forall p | p in t.projects
      ensures t.projects[p].photoId in t'.photos && t'.photos[t.projects[p].photoId] == t.photos[t.projects[p].photoId]
    {
      assert t.projects[p].photoId != t.users[req.userId].photoId;
      assert t.projects[p].photoId < t.nextPhotoId;
    }
  }

  /** The image references an update leaves: every other user's image is
      still there, and the user's own reference is either the old one or the
      freshly inserted row. */
  lemma UpdateKeepsUserPhotos(t: Tables, req: UpdateUserRequest)
    requires Consistent(t) && req.userId in t.users && !req.encodePhoto.Null?
    ensures
      var t' := UpdateResult(t, req);
      var np := t'.users[req.userId].photoId;
      && (np == t.users[req.userId].photoId || np == t.nextPhotoId)
      && np in t'.photos
      && forall u :: u in t.users && u != req.userId && t.users[u].photoId != 0 ==> t.users[u].photoId in t'.photos
  {
    var t' := UpdateResult(t, req);
    UpdateUserPhotoRule(t, req);
    forall u | u in t.users && u != req.userId && t.users[u].photoId != 0 ensures t.users[u].photoId in t'.photos {
      assert t.users[u].photoId != t.users[req.userId].photoId;
      assert t.users[u].photoId < t.nextPhotoId;
    }
  }

  /** After an update no photo row is shared: the user's reference is the
      old, unshared one or a fresh row. */
  lemma UpdateKeepsPhotosUnshared(t: Tables, req: UpdateUserRequest)
    requires Consistent(t) && req.userId in t.users && !req.encodePhoto.Null?
    ensures PhotosUnshared(UpdateResult(t, req))
  {
    var t' := UpdateResult(t, req);
    var uid := req.userId;
    UpdateUserFields(t, req);
    UpdateKeepsUserPhotos(t, req);
    var np := t'.users[uid].photoId;
    forall p | p in t'.projects ensures t'.projects[p].photoId != np {
      assert t.projects[p].photoId < t.nextPhotoId;
    }
    forall v | v in t'.users && v != uid && t'.users[v].photoId != 0 ensures t'.users[v].photoId != np {
      assert t.users[v].photoId < t.nextPhotoId;
    }
  }

  /** A successful update keeps the tables consistent. */
  lemma UpdatePreservesConsistency(t: Tables, req: UpdateUserRequest)
    requires Consistent(t) && req.userId in t.users && !req.encodePhoto.Null?
    ensures Consistent(UpdateResult(t, req))
  {
    var t' := UpdateResult(t, req);
    UpdateUserFields(t, req);
    UpdateResultShape(t, req);
    UpdateKeepsProjectPhotos(t, req);
    UpdateKeepsUserPhotos(t, req);
    UpdateKeepsPhotosUnshared(t, req);
    assert TypesMatch(t') by {
      forall q | q in t'.projects ensures t'.projects[q].projectType == GP <==> HasCollaborator(t', q) {
        assert HasCollaborator(t', q) <==> HasCollaborator(t, q);
      }
    }
  }

  /** When addresses are unique before an accepted update they stay unique:
      the check let the address through only if no other account holds it. */
  lemma UpdateKeepsEmailsUnique(t: Tables, req: UpdateUserRequest)
    requires UniqueEmails(t) && !req.encodePhoto.Null?
    requires ValidateUpdateUserInformation(t, req).None?
    ensures UniqueEmails(UpdateResult(t, req))
  {
    var key := LookupKey(req.email);
    EmailCheckWhenUnique(t, req.userId, key);
    UpdateUserFields(t, req);
    var t' := UpdateResult(t, req);
    forall u, v | u in t'.users && v in t'.users && u != v ensures t'.users[u].email != t'.users[v].email {
      if u == req.userId {
        assert !HoldsEmail(t, v, key);
      } else if v == req.userId {
        assert !HoldsEmail(t, u, key);
      }
    }
  }
  // ---------------------------------------------------------------------------
  // Profile
  // ---------------------------------------------------------------------------

  /** The profile entry of follow row `id`. */
  function FollowInfoOf(t: Tables, id: int): FollowInfo
    requires id in t.follows
  {
    FollowInfo(id, t.follows[id].userId, t.follows[id].followedUserId)
  }

  /** `select from follow where FK_KEY_FOLLOW_USR_ID = userId`. */
  function Followers(t: Tables, userId: int): set<FollowInfo> {
    set id | id in t.follows && t.follows[id].followedUserId == userId :: FollowInfoOf(t, id)
  }

  /** `select from follow where FK_KEY_USR_ID = userId`. */
  function Followings(t: Tables, userId: int): set<FollowInfo> {
    set id | id in t.follows && t.follows[id].userId == userId :: FollowInfoOf(t, id)
  }

  /** The profile entry of project `projectId`, or of a joined row with no
      project (the photo lookup of a null reference finds nothing). */
  function CardOf(t: Tables, projectId: int): ProjectCard {
    if projectId in t.projects then ProjectCard(Some(projectId), GetPhotoInformation(t, t.projects[projectId].photoId))
    else ProjectCard(None, None)
  }

  /** The user's own projects of type "SL". */
  function PersonalProjects(t: Tables, userId: int): set<ProjectCard> {
    set pid | pid in t.projects && t.projects[pid].ownerId == userId && t.projects[pid].projectType == SL :: CardOf(t, pid)
  }

  /** The entries of the collaborator rows of `userId`, in row order. */
  function CollaborationCards(t: Tables, rows: seq<CollaboratorRow>, userId: int): (cards: seq<ProjectCard>)
    ensures |cards| <= |rows|
  {
    if rows == [] then []
    else
      var last := rows[|rows| - 1];
      CollaborationCards(t, rows[..|rows| - 1], userId) + (if last.userId == userId then [CardOf(t, last.projectId)] else [])
  }

  /** GetUserInformation: 404 when the account is missing, else the profile. */
  function GetUserInformation(t: Tables, userId: int): (o: Outcome<UserProfile>)
    ensures o.Failed? <==> !IsUserExistsById(t, userId)
    ensures o.Failed? ==> o.error == NotFound
    ensures !o.Failed? ==>
      var row := t.users[userId];
      && o.Retrieved? && o.body.userId == userId
      && o.body.fullname == row.fullname && o.body.major == row.major && o.body.school == row.school
      && o.body.email == row.email && o.body.userImage == GetPhotoInformation(t, row.photoId)
      && o.body.username.None?
  {
    if userId !in t.users then Failed(NotFound)
    else
      var user := t.users[userId];
      var photoInformation := if user.photoId == 0 then None else GetPhotoInformation(t, user.photoId);
      Retrieved(UserProfile(
        userId, user.fullname, user.major, user.school, photoInformation, user.email, None,
        PersonalProjects(t, userId), CollaborationCards(t, t.collaborators, userId),
        Followers(t, userId), Followings(t, userId)))
  }

  /** The followers are exactly the follow rows pointing at the user and the
      followings exactly the rows starting from the user, each listed with
      its own id and ends. */
  lemma FollowListsMembers(t: Tables, userId: int)
    ensures forall f :: f in Followers(t, userId) <==>
      f.followId in t.follows && f.userFollowerId == userId && t.follows[f.followId] == FollowRow(f.userId, userId)
    ensures forall f :: f in Followings(t, userId) <==>
      f.followId in t.follows && f.userId == userId && t.follows[f.followId] == FollowRow(userId, f.userFollowerId)
  {
    forall f: FollowInfo | f.followId in t.follows && f.userFollowerId == userId && t.follows[f.followId] == FollowRow(f.userId, userId)
      ensures f in Followers(t, userId)
    {
      assert f == FollowInfoOf(t, f.followId);
    }
    forall f: FollowInfo | f.followId in t.follows && f.userId == userId && t.follows[f.followId] == FollowRow(userId, f.userFollowerId)
      ensures f in Followings(t, userId)
    {
      assert f == FollowInfoOf(t, f.followId);
    }
  }

  /** The collaboration entries are exactly the entries of the user's
      collaborator rows. */
  lemma {:induction false} CollaborationCardsMembers(t: Tables, rows: seq<CollaboratorRow>, userId: int)
    ensures forall c :: c in CollaborationCards(t, rows, userId) <==>
      exists r :: r in rows && r.userId == userId && c == CardOf(t, r.projectId)
  {
    if rows != [] {
      var init := rows[..|rows| - 1];
      var last := rows[|rows| - 1];
      CollaborationCardsMembers(t, init, userId);
      assert rows == init + [last];
    }
  }

  /** In consistent tables the profile's two project lists partition the
      user's projects: a personal entry is an owned solo project, a
      collaboration entry is a group project the user does not own, and no
      project is listed in both. */
  lemma ProfileProjectsPartition(t: Tables, userId: int)
    requires Consistent(t) && userId in t.users
    ensures forall c :: c in PersonalProjects(t, userId) <==>
      && c.projectId.Some? && c.projectId.value in t.projects
      && t.projects[c.projectId.value].ownerId == userId && t.projects[c.projectId.value].projectType == SL
      && c == CardOf(t, c.projectId.value)
    ensures forall c :: c in CollaborationCards(t, t.collaborators, userId) ==>
      && c.projectId.Some? && c.projectId.value in t.projects
      && t.projects[c.projectId.value].projectType == GP && t.projects[c.projectId.value].ownerId != userId
      && CollaboratorRow(c.projectId.value, userId) in t.collaborators
    ensures forall c :: c in PersonalProjects(t, userId) ==> c !in CollaborationCards(t, t.collaborators, userId)
  {
    CollaborationCardsMembers(t, t.collaborators, userId);
    forall c | c in CollaborationCards(t, t.collaborators, userId)
      ensures && c.projectId.Some? && c.projectId.value in t.projects
              && t.projects[c.projectId.value].projectType == GP && t.projects[c.projectId.value].ownerId != userId
              && CollaboratorRow(c.projectId.value, userId) in t.collaborators
    {
      var r :| r in t.collaborators && r.userId == userId && c == CardOf(t, r.projectId);
      assert r == CollaboratorRow(r.projectId, userId);
      assert HasCollaborator(t, r.projectId);
    }
  }
}
