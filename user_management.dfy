/**
 * The admin user management page: the users the live subscription delivers,
 * the name, e-mail and approval filter, and approving or removing a user.
 */
module UserManagement {
  import opened Wrappers
  import opened Js
  import opened Lists
  import opened Repository
  import opened UserModel

  /** A user as the table reads it. */
  datatype User = User(id: Option<string>, name: string, email: string, approved: bool)

  /** The approval part of the filter: All admits everyone, the other two exactly the approved or the unapproved users. */
  predicate StatusAdmits(status: ApprovalStatus, approved: bool) {
    status == All || (approved && status == Approved) || (!approved && status == NotApproved)
  }

  lemma StatusAdmitsIff(status: ApprovalStatus, approved: bool)
    ensures status == All ==> StatusAdmits(status, approved)
    ensures status == Approved ==> (StatusAdmits(status, approved) <==> approved)
    ensures status == NotApproved ==> (StatusAdmits(status, approved) <==> !approved)
  {
  }

  predicate UserMatches(u: User, name: string, email: string, status: ApprovalStatus) {
    MatchesQuery(u.name, name) && MatchesQuery(u.email, email) && StatusAdmits(status, u.approved)
  }

  function Matching(name: string, email: string, status: ApprovalStatus): (f: User -> bool)
    ensures forall u :: f(u) <==> UserMatches(u, name, email, status)
  {
    (u: User) => UserMatches(u, name, email, status)
  }

  /** `filter`: the users whose name and e-mail contain the queries, ignoring case, and whose approval the status admits. */
  function FilterUsers(users: seq<User>, name: string, email: string, status: ApprovalStatus): (r: seq<User>)
    ensures |r| <= |users|
    ensures forall u :: u in r <==>
      (u in users && MatchesQuery(u.name, name) && MatchesQuery(u.email, email) && StatusAdmits(status, u.approved))
  {
    Filter(users, Matching(name, email, status))
  }

  /** The filter's result is always the unfiltered list with some users left out, the rest in order. */
  lemma FilterIsSubsequence(users: seq<User>, name: string, email: string, status: ApprovalStatus)
    ensures Subsequence(FilterUsers(users, name, email, status), users)
  {
    FilterSubsequence(users, Matching(name, email, status));
  }

  /** With empty queries and status All every user is shown. */
  lemma NoFilterShowsAll(users: seq<User>)
    ensures FilterUsers(users, "", "", All) == users
  {
    assert forall i :: 0 <= i < |users| ==> Matching("", "", All)(users[i]);
  }

  /** The page's state. */
  class UserManagementView {
    var usersLoaded: bool
    var users: seq<User>
    var unfilteredUsers: seq<User>
    var flaggedToDelete: Option<string>

    constructor ()
      ensures !usersLoaded && users == [] && unfilteredUsers == [] && flaggedToDelete.None?
    {
      usersLoaded := false;
      users := [];
      unfilteredUsers := [];
      flaggedToDelete := None;
    }

    /** A snapshot replaces both lists, which discards any active filter. */
    method OnSnapshot(docs: seq<User>)
      modifies this
      ensures usersLoaded && users == docs && unfilteredUsers == docs
      ensures flaggedToDelete == old(flaggedToDelete)
    {
      usersLoaded := true;
      users := docs;
      unfilteredUsers := docs;
    }

    /** `filter`: shows the matching users of the last snapshot. */
    method ApplyFilter(name: string, email: string, status: ApprovalStatus)
      modifies this
      ensures users == FilterUsers(unfilteredUsers, name, email, status)
      ensures Subsequence(users, unfilteredUsers)
      ensures usersLoaded == old(usersLoaded) && unfilteredUsers == old(unfilteredUsers)
      ensures flaggedToDelete == old(flaggedToDelete)
    {
      users := FilterUsers(unfilteredUsers, name, email, status);
      FilterIsSubsequence(unfilteredUsers, name, email, status);
    }

    /** `updateUserApproval`: nothing for a missing id; otherwise merges the approval into the user's document. */
    method UpdateUserApproval(store: Collection, id: Option<string>, approved: bool)
      requires store.Valid()
      modifies store
      ensures store.Valid()
      ensures !Given(id) ==> store.docs == old(store.docs)
      ensures Given(id) ==> store.docs == SetMerged(old(store.docs), id.value, map["approved" := Bool(approved)])
    {
      if !Given(id) {
        return;
      }
      SetApprovalStatus(store, id.value, approved);
    }

    /** `remove`: nothing for a missing id; otherwise deletes the user's document. */
    method Remove(store: Collection, id: Option<string>)
      requires store.Valid()
      modifies store
      ensures store.Valid()
      ensures !Given(id) ==> store.docs == old(store.docs)
      ensures Given(id) ==> store.docs == old(store.docs) - {id.value}
    {
      if !Given(id) {
        return;
      }
      store.Delete(id.value);
    }

    method FlagToDelete(id: Option<string>)
      modifies this
      ensures flaggedToDelete == id && users == old(users) && unfilteredUsers == old(unfilteredUsers)
      ensures usersLoaded == old(usersLoaded)
    {
      flaggedToDelete := id;
    }

    method CancelDelete()
      modifies this
      ensures flaggedToDelete.None? && users == old(users) && unfilteredUsers == old(unfilteredUsers)
      ensures usersLoaded == old(usersLoaded)
    {
      flaggedToDelete := None;
    }

    /** `confirmDelete`: removes the flagged user, if any, and clears the flag. */
    method ConfirmDelete(store: Collection)
      requires store.Valid()
      modifies this, store
      ensures store.Valid() && flaggedToDelete.None?
      ensures !Given(old(flaggedToDelete)) ==> store.docs == old(store.docs)
      ensures Given(old(flaggedToDelete)) ==> store.docs == old(store.docs) - {old(flaggedToDelete).value}
      ensures users == old(users) && unfilteredUsers == old(unfilteredUsers) && usersLoaded == old(usersLoaded)
    {
      Remove(store, flaggedToDelete);
      flaggedToDelete := None;
    }
  }
}
