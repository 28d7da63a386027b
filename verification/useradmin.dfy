/** The admin user list: users sorted admins first, then guests, then the
    rest, each group by branch; the role labels; approving a guest and
    deleting a user, both re-sorting the list; and which buttons the detail
    card offers. `localeCompare` is a parameter `lc` (negative, zero or
    positive, like the real one), assumed to be a consistent comparator. */
module UserAdmin {
  import opened Common
  import opened Entities
  import opened Sorting
  import DocStore

  type UserDoc = DocStore.Doc<User>

  /** The group a role sorts into: admin 0, guest 1, any other role 2. */
  function Rank(role: string): (r: nat)
    ensures r <= 2
    ensures r == 0 <==> role == AdminRole
    ensures r == 1 <==> role == GuestRole
  {
    if role == AdminRole then 0 else if role == GuestRole then 1 else 2
  }

  /** The comparator of `sortUsers`, branch for branch. */
  function Compare(a: UserDoc, b: UserDoc, lc: (string, string) -> int): int
  {
    if a.data.role == AdminRole && b.data.role != AdminRole then -1
    else if a.data.role != AdminRole && b.data.role == AdminRole then 1
    else if a.data.role == GuestRole && b.data.role != GuestRole then -1
    else if a.data.role != GuestRole && b.data.role == GuestRole then 1
    else lc(a.data.branch, b.data.branch)
  }

  /** `a` may precede `b`: the comparator does not put `b` first. */
  function UserLe(lc: (string, string) -> int): (le: (UserDoc, UserDoc) -> bool)
  {
    (a: UserDoc, b: UserDoc) => Compare(a, b, lc) <= 0
  }

  function BranchLe(lc: (string, string) -> int): (string, string) -> bool
  {
    (x: string, y: string) => lc(x, y) <= 0
  }

  /** The comparator orders by group first and by branch within a group. */
  lemma UserLeByRank(lc: (string, string) -> int, a: UserDoc, b: UserDoc)
    ensures UserLe(lc)(a, b) <==>
              Rank(a.data.role) < Rank(b.data.role) ||
              (Rank(a.data.role) == Rank(b.data.role) && lc(a.data.branch, b.data.branch) <= 0)
  {
  }

  /** A consistent `localeCompare` makes the user comparator consistent. */
  lemma UserLeTotalPreorder(lc: (string, string) -> int)
    requires TotalPreorder(BranchLe(lc))
    ensures TotalPreorder(UserLe(lc))
  {
    var le := UserLe(lc);
    forall a, b
      ensures le(a, b) || le(b, a)
    {
      UserLeByRank(lc, a, b);
      UserLeByRank(lc, b, a);
      assert BranchLe(lc)(a.data.branch, b.data.branch) || BranchLe(lc)(b.data.branch, a.data.branch);
    }
    forall a, b, c | le(a, b) && le(b, c)
      ensures le(a, c)
    {
      UserLeByRank(lc, a, b);
      UserLeByRank(lc, b, c);
      UserLeByRank(lc, a, c);
      if Rank(a.data.role) == Rank(b.data.role) == Rank(c.data.role) {
        assert BranchLe(lc)(a.data.branch, b.data.branch) && BranchLe(lc)(b.data.branch, c.data.branch);
      }
    }
  }

  /** `sortUsers` (a stable sort, as `Array.prototype.sort` is). */
  function SortUsers(users: seq<UserDoc>, lc: (string, string) -> int): (r: seq<UserDoc>)
    ensures |r| == |users|
  {
    SortBy(users, UserLe(lc))
  }

  /** The users `sortUsers` ties with `u`: same group, and branches
      `localeCompare` puts neither before the other. */
  function TiedWith(lc: (string, string) -> int, u: UserDoc): UserDoc -> bool
  {
    (v: UserDoc) => Rank(v.data.role) == Rank(u.data.role) &&
                    lc(u.data.branch, v.data.branch) <= 0 && lc(v.data.branch, u.data.branch) <= 0
  }

  /** Users tied with one another are mutually "not after". */
  lemma TiedOrdered(lc: (string, string) -> int, u: UserDoc)
    requires TotalPreorder(BranchLe(lc))
    ensures forall a, b :: TiedWith(lc, u)(a) && TiedWith(lc, u)(b) ==> UserLe(lc)(a, b)
  {
    forall a, b | TiedWith(lc, u)(a) && TiedWith(lc, u)(b)
      ensures UserLe(lc)(a, b)
    {
      assert BranchLe(lc)(a.data.branch, u.data.branch) && BranchLe(lc)(u.data.branch, b.data.branch);
      UserLeByRank(lc, a, b);
    }
  }

  /** The sorted list is a permutation of the input in which every admin
      precedes every non-admin, every guest precedes every other non-admin,
      users of one group are in branch order, and users of one group and
      branch keep the order in which they were fetched. */
  lemma SortUsersSpec(users: seq<UserDoc>, lc: (string, string) -> int)
    requires TotalPreorder(BranchLe(lc))
    ensures multiset(SortUsers(users, lc)) == multiset(users)
    ensures var r := SortUsers(users, lc);
            forall i, j :: 0 <= i < j < |r| && r[j].data.role == AdminRole ==> r[i].data.role == AdminRole
    ensures var r := SortUsers(users, lc);
            forall i, j :: 0 <= i < j < |r| && r[j].data.role == GuestRole ==>
              r[i].data.role == AdminRole || r[i].data.role == GuestRole
    ensures var r := SortUsers(users, lc);
            forall i, j :: 0 <= i < j < |r| && Rank(r[i].data.role) == Rank(r[j].data.role) ==>
              lc(r[i].data.branch, r[j].data.branch) <= 0
    ensures forall u :: Filter(SortUsers(users, lc), TiedWith(lc, u)) == Filter(users, TiedWith(lc, u))
  {
    UserLeTotalPreorder(lc);
    SortBySpec(users, UserLe(lc));
    var r := SortUsers(users, lc);
    forall i, j | 0 <= i < j < |r|
      ensures Rank(r[i].data.role) <= Rank(r[j].data.role)
      ensures Rank(r[i].data.role) == Rank(r[j].data.role) ==> lc(r[i].data.branch, r[j].data.branch) <= 0
    {
      assert UserLe(lc)(r[i], r[j]);
      UserLeByRank(lc, r[i], r[j]);
    }
    forall u
      ensures Filter(SortUsers(users, lc), TiedWith(lc, u)) == Filter(users, TiedWith(lc, u))
    {
      TiedOrdered(lc, u);
      SortByStable(users, UserLe(lc), TiedWith(lc, u));
    }
  }

  /** `getRoleLabel`. */
  function RoleLabel(role: string): (shown: string)
    ensures role == AdminRole ==> shown == "\U{AD00}\U{B9AC}\U{C790}"               // 관리자
    ensures role == UserRole ==> shown == "\U{C720}\U{C800}"                         // 유저
    ensures role == GuestRole ==> shown == "\U{C2B9}\U{C778} \U{B300}\U{AE30}"       // 승인 대기
  {
    match role
    case "admin" => "\U{AD00}\U{B9AC}\U{C790}"
    case "user" => "\U{C720}\U{C800}"
    case "guest" => "\U{C2B9}\U{C778} \U{B300}\U{AE30}"
    case _ => role
  }

  /** A role is shown as itself exactly when it is none of the three known
      roles, and the three known roles get three different labels. */
  lemma RoleLabelSpec(role: string)
    ensures RoleLabel(role) == role <==> role != AdminRole && role != UserRole && role != GuestRole
    ensures RoleLabel(AdminRole) != RoleLabel(UserRole) && RoleLabel(UserRole) != RoleLabel(GuestRole)
    ensures RoleLabel(AdminRole) != RoleLabel(GuestRole)
  {
    assert "\U{AD00}\U{B9AC}\U{C790}"[0] != 'a';
  }

  /** Role `user` on every user with that id. */
  function Promote(users: seq<UserDoc>, id: DocStore.Id): (r: seq<UserDoc>)
    ensures |r| == |users|
    ensures forall i :: 0 <= i < |users| && users[i].id == id ==>
              r[i] == users[i].(data := users[i].data.(role := UserRole))
    ensures forall i :: 0 <= i < |users| && users[i].id != id ==> r[i] == users[i]
  {
    Map(users, (u: UserDoc) => if u.id == id then u.(data := u.data.(role := UserRole)) else u)
  }

  /** `approveUser(id)` on the list: the store write first (`ok` is whether
      it succeeded; a failure throws before the list is touched), then
      promote and re-sort. */
  function Approve(users: seq<UserDoc>, id: DocStore.Id, lc: (string, string) -> int, ok: bool)
    : seq<UserDoc>
  {
    if ok then SortUsers(Promote(users, id), lc) else users
  }

  /** After a successful write the list holds the same users with role
      `user` set on the matching id, every other field and every other user
      unchanged; after a failed write the list is as it was. */
  lemma ApproveSpec(users: seq<UserDoc>, id: DocStore.Id, lc: (string, string) -> int, ok: bool)
    requires TotalPreorder(BranchLe(lc))
    ensures !ok ==> Approve(users, id, lc, ok) == users
    ensures ok ==> multiset(Approve(users, id, lc, ok)) == multiset(Promote(users, id))
    ensures ok ==> forall i :: 0 <= i < |users| && users[i].id != id ==> users[i] in Approve(users, id, lc, ok)
    ensures ok ==> forall i :: 0 <= i < |users| && users[i].id == id ==>
              users[i].(data := users[i].data.(role := UserRole)) in Approve(users, id, lc, ok)
    ensures ok ==> forall x :: x in Approve(users, id, lc, ok) && x.id == id ==> x.data.role == UserRole
    ensures forall x :: x in Approve(users, id, lc, ok) && x.id != id ==> x in users
  {
    if ok {
      SortUsersSpec(Promote(users, id), lc);
      SameElements(Promote(users, id), Approve(users, id, lc, ok));
    }
  }

  /** Two permutations of each other hold the same elements. */
  lemma SameElements<T>(p: seq<T>, r: seq<T>)
    requires multiset(r) == multiset(p)
    ensures forall i :: 0 <= i < |p| ==> p[i] in r
    ensures forall x :: x in r ==> x in p
  {
    forall i | 0 <= i < |p|
      ensures p[i] in r
    {
      assert p[i] in multiset(p);
    }
    forall x | x in r
      ensures x in p
    {
      assert x in multiset(r);
    }
  }

  /** `approveUser`'s update of the open detail card, made only after a
      successful write. */
  function SelectedAfterApprove(selected: Option<UserDoc>, id: DocStore.Id, ok: bool): (r: Option<UserDoc>)
    ensures !ok ==> r == selected
    ensures selected.None? ==> r.None?
    ensures ok && selected.Some? && selected.value.id == id ==>
              r == Some(selected.value.(data := selected.value.data.(role := UserRole)))
    ensures selected.Some? && selected.value.id != id ==> r == selected
  {
    match selected
    case Some(u) => if ok && u.id == id then Some(u.(data := u.data.(role := UserRole))) else selected
    case None => None
  }

  /** `deleteUser(id)` on the list: the store write first (`ok` is whether
      it succeeded; a failure throws before the list is touched), then drop
      the id and re-sort. */
  function Remove(users: seq<UserDoc>, id: DocStore.Id, lc: (string, string) -> int, ok: bool)
    : seq<UserDoc>
  {
    if ok then SortUsers(Filter(users, (u: UserDoc) => u.id != id), lc) else users
  }

  /** After a successful write exactly the users with that id are gone and
      the others are all kept; after a failed write the list is as it
      was. */
  lemma RemoveSpec(users: seq<UserDoc>, id: DocStore.Id, lc: (string, string) -> int, ok: bool)
    requires TotalPreorder(BranchLe(lc))
    ensures !ok ==> Remove(users, id, lc, ok) == users
    ensures ok ==> forall x :: x in Remove(users, id, lc, ok) ==> x.id != id
    ensures forall x :: x in Remove(users, id, lc, ok) ==> x in users
    ensures forall i :: 0 <= i < |users| && users[i].id != id ==> users[i] in Remove(users, id, lc, ok)
  {
    if !ok {
      return;
    }
    var f := Filter(users, (u: UserDoc) => u.id != id);
    SortUsersSpec(f, lc);
    var r := Remove(users, id, lc, ok);
    forall x | x in r
      ensures x in f
    {
      assert x in multiset(r);
    }
    forall i | 0 <= i < |users| && users[i].id != id
      ensures users[i] in r
    {
      assert users[i] in multiset(f);
    }
  }

  /** The detail card offers approve only to a guest and delete only to a
      non-admin. */
  function ApproveOffered(u: UserDoc): bool
  {
    u.data.role == GuestRole
  }

  function DeleteOffered(u: UserDoc): bool
  {
    u.data.role != AdminRole
  }

  /** Approving the guest on the card takes the approve button away and
      keeps the delete button; an admin's card offers neither. */
  lemma ButtonsAfterApprove(u: UserDoc)
    requires ApproveOffered(u)
    ensures var v := SelectedAfterApprove(Some(u), u.id, true).value;
            !ApproveOffered(v) && DeleteOffered(v) && DeleteOffered(u)
    ensures forall w: UserDoc :: w.data.role == AdminRole ==> !ApproveOffered(w) && !DeleteOffered(w)
  {
  }
}
