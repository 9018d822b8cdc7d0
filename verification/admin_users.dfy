/** The user administration page (src/pages/admin/users/AdminUsers.tsx): the
    role list sent when a role checkbox changes, the local list updates that
    follow a successful request, and the role/blocked/email filter. The
    requests themselves are left out; each update models the state after the
    request succeeded. */
module AdminUsers {
  import opened Domain
  import opened Seqs
  import opened Text

  const AdminRole: string := "ADMIN"
  const UserRole: string := "USER"
  /** The filter value that lets every user through. */
  const All: string := "ALL"
  /** The blocked-filter value that keeps blocked users; any other non-ALL value keeps unblocked ones. */
  const BlockedTrue: string := "TRUE"

  /** The test "this is not the toggled role". */
  function NotRole(role: string): string -> bool
  {
    r => r != role
  }

  /** The role list after the checkbox step alone: checking appends a missing
      role, unchecking drops every copy of it. */
  function Toggled(roles: seq<string>, role: string, isChecked: bool): (base: seq<string>)
    ensures isChecked ==> |roles| <= |base| && base[..|roles|] == roles && role in base
    ensures isChecked && role in roles ==> base == roles
    ensures !isChecked ==> role !in base
    ensures forall x :: x != role ==> (x in base <==> x in roles)
    ensures NoDup(roles) ==> NoDup(base)
  {
    if isChecked then
      if role in roles then roles
      else
        NoDupSnoc(roles, role);
        roles + [role]
    else
      assert NoDup(roles) ==> NoDup(Filter(roles, NotRole(role))) by {
        if NoDup(roles) { FilterNoDup(roles, NotRole(role)); }
      }
      Filter(roles, NotRole(role))
  }

  /** USER is appended to a role list that lacks it. */
  function WithUser(roles: seq<string>): (r: seq<string>)
    ensures UserRole in r
    ensures |roles| <= |r| && r[..|roles|] == roles
    ensures forall x :: x in r <==> x in roles || x == UserRole
    ensures UserRole in roles ==> r == roles
    ensures NoDup(roles) ==> NoDup(r)
  {
    if UserRole in roles then roles
    else
      NoDupSnoc(roles, UserRole);
      roles + [UserRole]
  }

  /** The role list `handleRoleChange(user, roleToToggle, isChecked)` sends, or
      None when the change is refused (unchecking ADMIN). USER always ends up
      in the list and no role other than the toggled one and USER comes or goes. */
  function RoleChange(roles: seq<string>, role: string, isChecked: bool): (r: Option<seq<string>>)
    ensures r.None? <==> !isChecked && role == AdminRole
    ensures r.Some? ==> UserRole in r.value
    ensures isChecked ==> r.Some? && role in r.value && |roles| <= |r.value| && r.value[..|roles|] == roles
    ensures !isChecked && r.Some? ==> (role in r.value <==> role == UserRole)
    ensures r.Some? ==> forall x :: x != role && x != UserRole ==> (x in r.value <==> x in roles)
    ensures r.Some? && AdminRole in roles ==> AdminRole in r.value
    ensures r.Some? && NoDup(roles) ==> NoDup(r.value)
    ensures isChecked && role in roles && UserRole in roles ==> r == Some(roles)
  {
    if !isChecked && role == AdminRole then None
    else
      var base := Toggled(roles, role, isChecked);
      var r := WithUser(base);
      assert isChecked ==> r[..|roles|] == base[..|roles|];
      Some(r)
  }

  /** Repeating a role change is harmless: applied to its own result it yields that result again. */
  lemma RoleChangeIdempotent(roles: seq<string>, role: string, isChecked: bool)
    requires RoleChange(roles, role, isChecked).Some?
    ensures RoleChange(RoleChange(roles, role, isChecked).value, role, isChecked) == RoleChange(roles, role, isChecked)
  {
    if !isChecked {
      var once := RoleChange(roles, role, false).value;
      if role == UserRole {
        UncheckUserTwice(roles);
      } else {
        UncheckAbsent(once, role);
      }
    }
  }

  /** Unchecking a role that is absent from a list holding USER sends that list unchanged. */
  lemma UncheckAbsent(roles: seq<string>, role: string)
    requires role !in roles && UserRole in roles && role != AdminRole
    ensures RoleChange(roles, role, false) == Some(roles)
  {
    forall i | 0 <= i < |roles|
      ensures NotRole(role)(roles[i])
    {
      assert roles[i] in roles;
    }
    FilterAll(roles, NotRole(role));
  }

  /** Unchecking USER puts it back at the end; doing so twice gives the same list. */
  lemma UncheckUserTwice(roles: seq<string>)
    ensures RoleChange(roles, UserRole, false).Some?
    ensures RoleChange(RoleChange(roles, UserRole, false).value, UserRole, false) == RoleChange(roles, UserRole, false)
  {
    var base := Filter(roles, NotRole(UserRole));
    var once := base + [UserRole];
    assert RoleChange(roles, UserRole, false) == Some(once);
    FilterIdempotent(roles, NotRole(UserRole));
    FilterSnoc(base, UserRole, NotRole(UserRole));
    assert Toggled(once, UserRole, false) == base;
  }

  /** Checking a role the user lacks and unchecking it again restores the role list. */
  lemma CheckThenUncheck(roles: seq<string>, role: string)
    requires role !in roles && UserRole in roles && role != AdminRole
    ensures RoleChange(RoleChange(roles, role, true).value, role, false) == Some(roles)
  {
    assert role != UserRole;
    var checked := roles + [role];
    assert RoleChange(roles, role, true) == Some(checked);
    FilterSnoc(roles, role, NotRole(role));
    forall i | 0 <= i < |roles|
      ensures NotRole(role)(roles[i])
    {
      assert roles[i] in roles;
    }
    FilterAll(roles, NotRole(role));
    assert Toggled(checked, role, false) == roles;
  }

  /** Applies `change` to every user with the id and keeps the others: the
      shape of every local update of one user after a successful request. */
  function UpdateUser(users: seq<User>, id: int, change: User -> User): (r: seq<User>)
    ensures |r| == |users|
    ensures forall i :: 0 <= i < |users| && users[i].id != id ==> r[i] == users[i]
    ensures forall i :: 0 <= i < |users| && users[i].id == id ==> r[i] == change(users[i])
  {
    seq(|users|, i requires 0 <= i < |users| =>
      if users[i].id == id then change(users[i]) else users[i])
  }

  function WithRoles(roles: seq<string>): User -> User
  {
    (u: User) => u.(roles := roles)
  }

  /** The users with the id get the new role list. */
  function SetRoles(users: seq<User>, id: int, roles: seq<string>): (r: seq<User>)
    ensures |r| == |users|
    ensures forall i :: 0 <= i < |users| && users[i].id != id ==> r[i] == users[i]
    ensures forall i :: 0 <= i < |users| && users[i].id == id ==>
              r[i].roles == roles && r[i].(roles := users[i].roles) == users[i]
  {
    UpdateUser(users, id, WithRoles(roles))
  }

  /** `handleRoleChange` followed by the local update: a refused change leaves the list as it is. */
  function HandleRoleChange(users: seq<User>, user: User, role: string, isChecked: bool): (r: seq<User>)
    ensures !isChecked && role == AdminRole ==> r == users
    ensures |r| == |users|
    ensures forall i :: 0 <= i < |users| && users[i].id != user.id ==> r[i] == users[i]
    ensures forall i :: 0 <= i < |users| && users[i].id == user.id && !(!isChecked && role == AdminRole) ==>
              UserRole in r[i].roles
    ensures RoleChange(user.roles, role, isChecked).Some? ==>
              forall i :: 0 <= i < |users| && users[i].id == user.id ==>
                r[i] == users[i].(roles := RoleChange(user.roles, role, isChecked).value)
  {
    match RoleChange(user.roles, role, isChecked)
    case None => users
    case Some(roles) => SetRoles(users, user.id, roles)
  }

  function WithBlocked(blocked: bool): User -> User
  {
    (u: User) => u.(blocked := blocked)
  }

  /** The users with the id get the new blocked flag. */
  function SetBlocked(users: seq<User>, id: int, blocked: bool): (r: seq<User>)
    ensures |r| == |users|
    ensures forall i :: 0 <= i < |users| && users[i].id != id ==> r[i] == users[i]
    ensures forall i :: 0 <= i < |users| && users[i].id == id ==>
              r[i].blocked == blocked && r[i].(blocked := users[i].blocked) == users[i]
  {
    UpdateUser(users, id, WithBlocked(blocked))
  }

  /** Blocking then unblocking a user restores the list, provided the user was unblocked. */
  lemma BlockThenUnblock(users: seq<User>, id: int)
    requires forall i :: 0 <= i < |users| && users[i].id == id ==> !users[i].blocked
    ensures SetBlocked(SetBlocked(users, id, true), id, false) == users
  {
  }

  /** The test "this is not the deleted user". */
  function NotUser(id: int): User -> bool
  {
    (u: User) => u.id != id
  }

  /** The list after a successful delete: every user with the id is dropped. */
  function DeleteUser(users: seq<User>, id: int): (r: seq<User>)
    ensures forall u :: u in r <==> u in users && u.id != id
    ensures IsSubseq(r, users)
  {
    FilterIsSubseq(users, NotUser(id));
    Filter(users, NotUser(id))
  }

  /** Deleting a user no one has changes nothing. */
  lemma DeleteAbsentUser(users: seq<User>, id: int)
    requires forall i :: 0 <= i < |users| ==> users[i].id != id
    ensures DeleteUser(users, id) == users
  {
    FilterAll(users, NotUser(id));
  }

  /** The three filter controls of the page. */
  datatype UserFilter = UserFilter(role: string, blocked: string, email: string)

  /** The test inside `filteredUsers`. */
  function UserMatches(f: UserFilter): User -> bool
  {
    (u: User) =>
      && (f.role == All || f.role in u.roles)
      && (if f.blocked == All then true else if f.blocked == BlockedTrue then u.blocked else !u.blocked)
      && Includes(ToLower(u.email), ToLower(f.email))
  }

  /** `filteredUsers`: the users passing all three filters, in list order. A
      blocked filter other than ALL keeps exactly the users whose blocked flag
      agrees with "the filter is TRUE". */
  function FilteredUsers(users: seq<User>, f: UserFilter): (r: seq<User>)
    ensures IsSubseq(r, users)
    ensures forall u :: u in r <==>
              && u in users
              && (f.role == All || f.role in u.roles)
              && (f.blocked == All || (f.blocked == BlockedTrue <==> u.blocked))
              && Includes(ToLower(u.email), ToLower(f.email))
  {
    FilterIsSubseq(users, UserMatches(f));
    Filter(users, UserMatches(f))
  }

  /** With both selectors on ALL and no search text the whole list is shown. */
  lemma NoFilterShowsAll(users: seq<User>)
    ensures FilteredUsers(users, UserFilter(All, All, "")) == users
  {
    forall i | 0 <= i < |users|
      ensures UserMatches(UserFilter(All, All, ""))(users[i])
    {
      IncludesEmpty(ToLower(users[i].email));
    }
    FilterAll(users, UserMatches(UserFilter(All, All, "")));
  }

  /** The email search ignores case. */
  lemma EmailSearchIgnoresCase(users: seq<User>, f: UserFilter)
    ensures FilteredUsers(users, f.(email := ToUpper(f.email))) == FilteredUsers(users, f)
    ensures FilteredUsers(users, f.(email := ToLower(f.email))) == FilteredUsers(users, f)
  {
    LowerCaseStable(f.email);
    FilterCongruent(users, UserMatches(f.(email := ToUpper(f.email))), UserMatches(f));
    FilterCongruent(users, UserMatches(f.(email := ToLower(f.email))), UserMatches(f));
  }

  /** Filtering the shown list again with the same controls changes nothing. */
  lemma FilteredUsersIdempotent(users: seq<User>, f: UserFilter)
    ensures FilteredUsers(FilteredUsers(users, f), f) == FilteredUsers(users, f)
  {
    FilterIdempotent(users, UserMatches(f));
  }
}
