/** `UserService` over the abstract user collection: registration, login by
    userId and password, role upgrade, profile update and deletion. */
module UserService {
  import opened Common
  import opened Entities
  import opened DocStore
  import opened DateText

  type Users = Store<User>

  /** The registration request body. A `role` it may carry is ignored. */
  datatype RegisterRequest = RegisterRequest(userId: string, password: string, name: string,
                                             phone: string, branch: string, role: Option<string>)

  /** `register(req)` at clock reading `now`: stores a new guest whose
      creation and update times are the same 12-digit stamp; returns the
      new store and the fresh id. No userId or branch is checked for
      uniqueness. */
  function Register(s: Users, req: RegisterRequest, now: Clock): (r: (Users, Id))
    requires Valid(s)
    ensures Valid(r.0) && r.1 !in s.docs && r.0.docs.Keys == s.docs.Keys + {r.1}
    ensures forall k :: k in s.docs ==> r.0.docs[k] == s.docs[k]
    ensures var u := r.0.docs[r.1];
            u.role == GuestRole && u.createdAt == u.updatedAt &&
            u.userId == req.userId && u.password == req.password && u.name == req.name &&
            u.phone == req.phone && u.branch == req.branch
  {
    var stamp := RegisterStamp(now);
    Create(s, User(req.userId, req.password, GuestRole, req.name, req.phone, req.branch, stamp, stamp))
  }

  /** `login({userId, password})`: the first user with that userId, if its
      stored password equals the one given. */
  function Login(s: Users, userId: string, password: string): (r: Option<Doc<User>>)
    requires Valid(s)
    ensures r.Some? ==> r.value.id in s.docs && r.value.data == s.docs[r.value.id] &&
                        r.value.data.userId == userId && r.value.data.password == password
  {
    match FindOneBy(s, (u: User) => u.userId == userId)
    case Some(d) => if d.data.password == password then Some(d) else None
    case None => None
  }

  /** Login succeeds exactly when the first user with that userId (lowest
      id) has that password. */
  lemma LoginSpec(s: Users, userId: string, password: string)
    requires Valid(s)
    ensures Login(s, userId, password).Some? <==>
              exists k :: k in s.docs && s.docs[k].userId == userId && s.docs[k].password == password &&
                          forall k' :: k' in s.docs && s.docs[k'].userId == userId ==> k <= k'
  {
    var f := FindOneBy(s, (u: User) => u.userId == userId);
    if f.Some? {
      var k := f.value.id;
      if s.docs[k].password == password {
        assert k in s.docs && s.docs[k].userId == userId && s.docs[k].password == password &&
               forall k' :: k' in s.docs && s.docs[k'].userId == userId ==> k <= k';
      }
    }
  }

  /** Registration does not check uniqueness, so several users may share a
      userId. Of those, only the one listed first can log in: a successful
      login returns it, and any other holder whose password differs from
      it is refused. */
  lemma DuplicateUserIdShadowed(s: Users, userId: string, password: string)
    requires Valid(s)
    ensures var holders := FindBy(s, (u: User) => u.userId == userId);
            Login(s, userId, password).Some? ==> |holders| > 0 && Login(s, userId, password).value == holders[0]
    ensures var holders := FindBy(s, (u: User) => u.userId == userId);
            forall i :: 0 < i < |holders| && holders[i].data.password != holders[0].data.password ==>
              Login(s, userId, holders[i].data.password).None?
  {
  }

  /** `upgradeRoleToUser(id)`: role `user` on that record only; a missing id
      fails. */
  function UpgradeRoleToUser(s: Users, id: Id): (r: Result<Users, StoreError>)
    ensures id !in s.docs <==> r.Err?
    ensures r.Ok? ==> r.value.docs.Keys == s.docs.Keys
    ensures r.Ok? ==> r.value.docs[id] == s.docs[id].(role := UserRole)
    ensures r.Ok? ==> forall k :: k in s.docs && k != id ==> r.value.docs[k] == s.docs[k]
  {
    Update(s, id, (u: User) => u.(role := UserRole))
  }

  /** `updateUser(id, fields)`: the supplied fields overwrite the record. */
  function UpdateUser(s: Users, id: Id, p: UserPatch): (r: Result<Users, StoreError>)
    ensures id !in s.docs <==> r.Err?
    ensures r.Ok? ==> r.value.docs.Keys == s.docs.Keys
    ensures r.Ok? ==> r.value.docs[id] == ApplyUserPatch(s.docs[id], p)
    ensures r.Ok? ==> forall k :: k in s.docs && k != id ==> r.value.docs[k] == s.docs[k]
  {
    Update(s, id, (u: User) => ApplyUserPatch(u, p))
  }

  /** The upgrade is the update with only the role supplied. */
  lemma UpgradeIsRolePatch(s: Users, id: Id)
    ensures UpgradeRoleToUser(s, id) == UpdateUser(s, id, EmptyUserPatch.(role := Some(UserRole)))
  {
  }

  /** `deleteUserById(id)`: removes that record only. */
  function DeleteUserById(s: Users, id: Id): (r: Users)
    ensures r.docs.Keys == s.docs.Keys - {id}
    ensures forall k :: k in r.docs ==> r.docs[k] == s.docs[k]
  {
    Delete(s, id)
  }

  /** A just-registered user's stamp shows on the admin page without
      seconds: `formatDate` of it ends with the colon. */
  lemma RegisteredStampDisplay(s: Users, req: RegisterRequest, now: Clock)
    requires Valid(s) && ValidClock(now) && 1000 <= now.year <= 9999
    ensures var r := Register(s, req, now);
            var t := FormatDate(r.0.docs[r.1].createdAt);
            |t| == 17 && t[16] == ':'
  {
    RegisterStampSpec(now);
    FormatDateNoSeconds(RegisterStamp(now));
  }
}
