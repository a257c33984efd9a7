/** The referential facts the services keep about the tables: what a row's
    foreign keys point to, which photo belongs to whom, and the link between a
    project's type and its collaborator rows. */
module Integrity {
  import opened Wrappers
  import opened Store

  /** Every project's photo row exists and its owner has an account. */
  predicate ProjectRefsValid(t: Tables) {
    forall pid :: pid in t.projects ==>
      t.projects[pid].photoId in t.photos && t.projects[pid].ownerId in t.users
  }

  /** Every user image exists; 0 means the user has none. */
  predicate UserPhotosValid(t: Tables) {
    forall uid :: uid in t.users ==> t.users[uid].photoId == 0 || t.users[uid].photoId in t.photos
  }

  /** No photo row belongs to two projects, to two users, or to a project and a user. */
  predicate PhotosUnshared(t: Tables) {
    && (forall p, q :: p in t.projects && q in t.projects && p != q ==>
          t.projects[p].photoId != t.projects[q].photoId)
    && (forall u, v :: u in t.users && v in t.users && u != v && t.users[u].photoId != 0 ==>
          t.users[u].photoId != t.users[v].photoId)
    && (forall p, u :: p in t.projects && u in t.users ==> t.projects[p].photoId != t.users[u].photoId)
  }

  /** Each collaborator row names an existing project and an existing user who
      does not own it, and no row is listed twice. */
  predicate CollaboratorsValid(t: Tables) {
    && (forall r :: r in t.collaborators ==>
          r.projectId in t.projects && r.userId in t.users && r.userId != t.projects[r.projectId].ownerId)
    && DistinctRows(t.collaborators)
  }

  /** No row occurs twice. */
  predicate DistinctRows(rows: seq<CollaboratorRow>) {
    forall i, j :: 0 <= i < j < |rows| ==> rows[i] != rows[j]
  }

  /** A project has at least one collaborator row. */
  predicate HasCollaborator(t: Tables, pid: int) {
    exists r :: r in t.collaborators && r.projectId == pid
  }

  /** A project is a group project exactly when it has a collaborator. */
  predicate TypesMatch(t: Tables) {
    forall pid :: pid in t.projects ==> (t.projects[pid].projectType == GP <==> HasCollaborator(t, pid))
  }

  /** Both ends of every follow row have an account. */
  predicate FollowsValid(t: Tables) {
    forall id :: id in t.follows ==>
      t.follows[id].userId in t.users && t.follows[id].followedUserId in t.users
  }

  /** The invariant every successful service call preserves. */
  predicate Consistent(t: Tables) {
    && WellFormed(t)
    && ProjectRefsValid(t)
    && UserPhotosValid(t)
    && PhotosUnshared(t)
    && CollaboratorsValid(t)
    && TypesMatch(t)
    && FollowsValid(t)
  }

  /** Filtering rows out keeps a duplicate-free list duplicate-free. */
  lemma {:induction false} KeepDistinct(rows: seq<CollaboratorRow>, projectId: int, userId: Option<int>)
    requires DistinctRows(rows)
    ensures DistinctRows(Keep(rows, projectId, userId))
  {
    if rows != [] {
      var init := rows[..|rows| - 1];
      var last := rows[|rows| - 1];
      assert DistinctRows(init) by {
        forall i, j | 0 <= i < j < |init| ensures init[i] != init[j] {
          assert init[i] == rows[i] && init[j] == rows[j];
        }
      }
      KeepDistinct(init, projectId, userId);
      assert last !in init;
      AppendDistinct(Keep(init, projectId, userId), if Matches(last, projectId, userId) then [] else [last]);
    }
  }

  /** Two duplicate-free lists with no row in common concatenate to a
      duplicate-free list. */
  lemma AppendDistinct(a: seq<CollaboratorRow>, b: seq<CollaboratorRow>)
    requires DistinctRows(a) && DistinctRows(b)
    requires forall r :: r in a ==> r !in b
    ensures DistinctRows(a + b)
  {
    var c := a + b;
    forall i, j | 0 <= i < j < |c| ensures c[i] != c[j] {
      if j < |a| {
        assert c[i] == a[i] && c[j] == a[j];
      } else if i >= |a| {
        assert c[i] == b[i - |a|] && c[j] == b[j - |a|];
      } else {
        assert c[i] == a[i] && c[j] == b[j - |a|];
        assert a[i] in a;
      }
    }
  }
}
