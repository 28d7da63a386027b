/** The branch profile page: the edit form, its cancel, and the submit that
    validates the form, sends the profile update, and merges the change
    into the session. The formatted clock reading is an input. */
module MyPage {
  import opened Common
  import opened Entities
  import opened Validators
  import Session
  import DocStore

  datatype ProfileForm = ProfileForm(userId: string, password: string, confirmPassword: string,
                                     name: string, phone: string, branch: string)

  /** `handleCancel`: the form shows the stored user's fields again with both
      password fields empty (without a user the form is kept); editing
      ends. Returns the form and whether editing goes on. */
  function Cancel(f: ProfileForm, user: Option<Session.UserDoc>): (r: (ProfileForm, bool))
    ensures !r.1
    ensures user.None? ==> r.0 == f
    ensures user.Some? ==> (r.0.password == "" && r.0.confirmPassword == "" &&
              r.0.userId == user.value.data.userId && r.0.name == user.value.data.name &&
              r.0.phone == user.value.data.phone && r.0.branch == user.value.data.branch)
  {
    match user
    case None => (f, false)
    case Some(u) => (ProfileForm(u.data.userId, "", "", u.data.name, u.data.phone, u.data.branch), false)
  }

  /** The four checks of `handleSubmit`, in the order the flags are set. */
  datatype Checks = Checks(userIdValid: bool, passwordValid: bool, confirmValid: bool, phoneValid: bool)

  function CheckForm(f: ProfileForm): Checks
  {
    Checks(ValidUserId(f.userId), f.password != "" && ValidPassword(f.password),
           f.password == f.confirmPassword, ValidPhone(f.phone))
  }

  predicate AllPass(c: Checks)
  {
    c.userIdValid && c.passwordValid && c.confirmValid && c.phoneValid
  }

  /** A user-service write: the document id and the fields written. */
  datatype UserWrite = UserWrite(id: DocStore.Id, patch: UserPatch)

  /** What a submit comes to: rejected before anything is sent; failed (the
      write was attempted if there was a user, or threw on the missing
      user); or saved, with the fields merged into the session. */
  datatype Outcome =
    | Rejected(checks: Checks)
    | Failed(attempted: Option<UserWrite>)
    | Saved(write: UserWrite, merged: UserPatch)

  /** `updateData`: exactly userId, password, name, phone and updatedAt. */
  function UpdateData(f: ProfileForm, now: string): (p: UserPatch)
    ensures p.role.None? && p.branch.None? && p.createdAt.None?
    ensures p == EmptyUserPatch.(userId := Some(f.userId), password := Some(f.password),
                                 name := Some(f.name), phone := Some(f.phone), updatedAt := Some(now))
  {
    UserPatch(Some(f.userId), Some(f.password), None, Some(f.name), Some(f.phone), None, None, Some(now))
  }

  /** `{ ...user, userId, name, phone, updatedAt }`: every field of the user
      as it was, with the four new values. */
  function LocalMerge(u: User, f: ProfileForm, now: string): UserPatch
  {
    UserPatch(Some(f.userId), Some(u.password), Some(u.role), Some(f.name), Some(f.phone),
              Some(u.branch), Some(u.createdAt), Some(now))
  }

  /** `handleSubmit`. `ok` is whether the store write succeeds. */
  function Submit(f: ProfileForm, user: Option<Session.UserDoc>, now: string, ok: bool): (r: Outcome)
    ensures !AllPass(CheckForm(f)) <==> r.Rejected?
    ensures r.Rejected? ==> r.checks == CheckForm(f)
    ensures AllPass(CheckForm(f)) && user.None? ==> r == Failed(None)
    ensures r.Saved? ==> ok && user.Some? && r.write == UserWrite(user.value.id, UpdateData(f, now))
  {
    var c := CheckForm(f);
    if !AllPass(c) then Rejected(c)
    else match user
      case None => Failed(None)
      case Some(u) =>
        var w := UserWrite(u.id, UpdateData(f, now));
        if ok then Saved(w, LocalMerge(u.data, f, now)) else Failed(Some(w))
  }

  /** A profile save is sent only for a non-empty valid password that is
      typed the same twice, a valid userId and a valid phone; whatever is
      sent never names the branch or the role. */
  lemma SubmitGuards(f: ProfileForm, user: Option<Session.UserDoc>, now: string, ok: bool)
    ensures var r := Submit(f, user, now, ok);
            (r.Saved? || (r.Failed? && r.attempted.Some?)) ==>
              f.password != "" && ValidPassword(f.password) && f.password == f.confirmPassword &&
              ValidUserId(f.userId) && ValidPhone(f.phone)
    ensures var r := Submit(f, user, now, ok);
            r.Saved? ==> r.write.patch.branch.None? && r.write.patch.role.None?
  {
  }

  /** After a save, the session's user has the new userId, name, phone and
      updatedAt; the password, branch, role and creation time it shows are
      the ones it had before, although the store now holds the new
      password. */
  lemma SavedSessionUser(f: ProfileForm, u: Session.UserDoc, now: string)
    requires AllPass(CheckForm(f))
    ensures var r := Submit(f, Some(u), now, true);
            var s' := Session.SetUser(Session.AuthState(Some(u), Some(true)), r.merged);
            r.Saved? && s'.user.Some? &&
            s'.user.value.data == u.data.(userId := f.userId, name := f.name, phone := f.phone, updatedAt := now) &&
            s'.isLoggedIn == Some(true)
    ensures var r := Submit(f, Some(u), now, true);
            r.Saved? && ApplyUserPatch(u.data, r.write.patch).password == f.password
  {
  }
}
