/** The input rules of the registration and profile forms, as the four
    regular expressions decide them under ECMAScript RegExp semantics
    (section 22.2 of ECMA-262): `\d` is ASCII 0-9, `.` is any character but
    a line terminator, and `^`/`$` anchor the whole input (no `m` flag). The
    profile page uses the same userId, password and phone expressions.
    Each rule is stated declaratively; the `Check` methods decide them in
    one left-to-right scan, as the regex engine does. */
module Validators {
  import opened JsText

  predicate IsLowerAlnum(c: char)
  {
    'a' <= c <= 'z' || IsDigit(c)
  }

  predicate IsAsciiLetter(c: char)
  {
    'a' <= c <= 'z' || 'A' <= c <= 'Z'
  }

  /** `[@$!%*?&]`. */
  predicate IsPasswordSpecial(c: char)
  {
    c == '@' || c == '$' || c == '!' || c == '%' || c == '*' || c == '?' || c == '&'
  }

  /** `[A-Za-z\d@$!%*?&]`. */
  predicate IsPasswordChar(c: char)
  {
    IsAsciiLetter(c) || IsDigit(c) || IsPasswordSpecial(c)
  }

  /** `/^[a-z0-9]{6,12}$/`. */
  predicate ValidUserId(s: string)
  {
    6 <= |s| <= 12 && forall i :: 0 <= i < |s| ==> IsLowerAlnum(s[i])
  }

  /** `/^(?=.*[a-zA-Z])(?=.*\d)(?=.*[@$!%*?&])[A-Za-z\d@$!%*?&]{8,}$/`: the
      body admits no line terminator, so each look-ahead just asks for one
      character of its class somewhere in the input. */
  predicate ValidPassword(s: string)
  {
    && |s| >= 8
    && (forall i :: 0 <= i < |s| ==> IsPasswordChar(s[i]))
    && (exists i :: 0 <= i < |s| && IsAsciiLetter(s[i]))
    && (exists i :: 0 <= i < |s| && IsDigit(s[i]))
    && (exists i :: 0 <= i < |s| && IsPasswordSpecial(s[i]))
  }

  /** `/^010-\d{4}-\d{4}$/`. */
  predicate ValidPhone(s: string)
  {
    && |s| == 13
    && s[..4] == "010-" && s[8] == '-'
    && AllDigits(s[4..8]) && AllDigits(s[9..])
  }

  const BranchPrefix: string := "\U{C624}\U{C77C}\U{B0B4}"   // 오일내
  const BranchSuffix: char := '\U{C810}'                      // 점

  /** `/^오일내.+점$/`. */
  predicate ValidBranch(s: string)
  {
    && |s| >= |BranchPrefix| + 2
    && s[..|BranchPrefix|] == BranchPrefix
    && s[|s| - 1] == BranchSuffix
    && forall i :: |BranchPrefix| <= i < |s| - 1 ==> !IsLineTerminator(s[i])
  }

  // ---------------------------------------------------------------------
  // scanning deciders

  method CheckUserId(s: string) returns (ok: bool)
    ensures ok <==> ValidUserId(s)
  {
    if |s| < 6 || |s| > 12 {
      return false;
    }
    var i := 0;
    while i < |s|
      invariant 0 <= i <= |s|
      invariant forall k :: 0 <= k < i ==> IsLowerAlnum(s[k])
    {
      if !IsLowerAlnum(s[i]) {
        return false;
      }
      i := i + 1;
    }
    return true;
  }

  method CheckPassword(s: string) returns (ok: bool)
    ensures ok <==> ValidPassword(s)
  {
    if |s| < 8 {
      return false;
    }
    var letter, digit, special := false, false, false;
    var i := 0;
    while i < |s|
      invariant 0 <= i <= |s|
      invariant forall k :: 0 <= k < i ==> IsPasswordChar(s[k])
      invariant letter <==> exists k :: 0 <= k < i && IsAsciiLetter(s[k])
      invariant digit <==> exists k :: 0 <= k < i && IsDigit(s[k])
      invariant special <==> exists k :: 0 <= k < i && IsPasswordSpecial(s[k])
    {
      var c := s[i];
      if !IsPasswordChar(c) {
        return false;
      }
      letter := letter || IsAsciiLetter(c);
      digit := digit || IsDigit(c);
      special := special || IsPasswordSpecial(c);
      i := i + 1;
    }
    return letter && digit && special;
  }

  method CheckPhone(s: string) returns (ok: bool)
    ensures ok <==> ValidPhone(s)
  {
    if |s| != 13 || s[..4] != "010-" || s[8] != '-' {
      return false;
    }
    var i := 4;
    while i < 13
      invariant 4 <= i <= 13
      invariant forall k :: 4 <= k < i && k != 8 ==> IsDigit(s[k])
    {
      if i != 8 && !IsDigit(s[i]) {
        return false;
      }
      i := i + 1;
    }
    assert AllDigits(s[4..8]) by {
      forall k | 0 <= k < 4 ensures IsDigit(s[4..8][k]) { assert s[4..8][k] == s[4 + k]; }
    }
    assert AllDigits(s[9..]) by {
      forall k | 0 <= k < 4 ensures IsDigit(s[9..][k]) { assert s[9..][k] == s[9 + k]; }
    }
    return true;
  }

  // ---------------------------------------------------------------------
  // shapes

  /** The phone numbers the rule admits are exactly `010-aaaa-bbbb` for two
      four-digit groups. */
  function PhoneOf(a: string, b: string): string
  {
    "010-" + a + "-" + b
  }

  lemma PhoneShape(s: string)
    ensures ValidPhone(s) ==> s == PhoneOf(s[4..8], s[9..]) && |s[9..]| == 4
    ensures forall a, b :: |a| == 4 && |b| == 4 && AllDigits(a) && AllDigits(b) ==> ValidPhone(PhoneOf(a, b))
  {
    if ValidPhone(s) {
      assert s == s[..4] + s[4..8] + [s[8]] + s[9..];
    }
    forall a, b | |a| == 4 && |b| == 4 && AllDigits(a) && AllDigits(b)
      ensures ValidPhone(PhoneOf(a, b))
    {
      var p := PhoneOf(a, b);
      assert p[..4] == "010-";
      assert p[4..8] == a;
      assert p[9..] == b;
    }
  }

  /** The branch names the rule admits are exactly `오일내` + m + `점` for a
      non-empty middle without line terminators (which may itself contain
      `점`). */
  function BranchOf(m: string): string
  {
    BranchPrefix + m + [BranchSuffix]
  }

  lemma BranchShape(s: string)
    ensures ValidBranch(s) ==> s == BranchOf(s[|BranchPrefix|..|s| - 1])
    ensures forall m :: |m| >= 1 && (forall i :: 0 <= i < |m| ==> !IsLineTerminator(m[i])) ==>
              ValidBranch(BranchOf(m))
  {
    if ValidBranch(s) {
      assert s == s[..|BranchPrefix|] + s[|BranchPrefix|..|s| - 1] + [s[|s| - 1]];
    }
    forall m | |m| >= 1 && (forall i :: 0 <= i < |m| ==> !IsLineTerminator(m[i]))
      ensures ValidBranch(BranchOf(m))
    {
      var b := BranchOf(m);
      assert b[..|BranchPrefix|] == BranchPrefix;
      forall i | |BranchPrefix| <= i < |b| - 1
        ensures !IsLineTerminator(b[i])
      {
        assert b[i] == m[i - |BranchPrefix|];
      }
    }
  }

  /** The documented userId examples: five characters are too few, six
      lower-case letters and digits pass; upper case and thirteen characters
      fail. */
  lemma UserIdExamples()
    ensures !ValidUserId("abc12") && ValidUserId("abc123")
    ensures !ValidUserId("Abc123") && !ValidUserId("abcdefghijklm")
  {
    assert !IsLowerAlnum("Abc123"[0]);
  }

  /** A three-digit middle group fails; the full pattern passes. */
  lemma PhoneExamples()
    ensures !ValidPhone("010-123-4567") && ValidPhone("010-1234-5678")
  {
    var ph := "010-1234-5678";
    assert ph[..4] == "010-";
    assert ph[4..8] == "1234";
    assert ph[9..] == "5678";
  }

  /** Letters, digits and a special character pass. */
  lemma PasswordExamples()
    ensures ValidPassword("abcd123!")
  {
    var p := "abcd123!";
    assert IsAsciiLetter(p[0]) && IsDigit(p[4]) && IsPasswordSpecial(p[7]);
  }

  /** Letters alone, or fewer than eight characters, are refused. */
  lemma PasswordRejections()
    ensures !ValidPassword("abcdefgh") && !ValidPassword("abc12!")
  {
    var p := "abcdefgh";
    assert forall i :: 0 <= i < |p| ==> !IsDigit(p[i]);
  }

  /** A space is not an allowed character. */
  lemma PasswordRejectsSpace()
    ensures !ValidPassword("abcd 123!")
  {
    assert !IsPasswordChar("abcd 123!"[4]);
  }

  /** A middle is required between the prefix and the suffix. */
  lemma BranchExamples()
    ensures ValidBranch(BranchOf("\U{AC15}\U{B0A8}"))
    ensures !ValidBranch(BranchPrefix + [BranchSuffix])
  {
    BranchShape(BranchOf("\U{AC15}\U{B0A8}"));
  }

  // ---------------------------------------------------------------------
  // the registration form

  datatype RegisterForm = RegisterForm(
    userId: string, password: string, name: string, phone: string, branch: string,
    idValid: bool, passwordValid: bool, phoneValid: bool, branchValid: bool)

  datatype FormEvent =
    | UserIdChanged(value: string)
    | PasswordChanged(value: string)
    | NameChanged(value: string)
    | PhoneChanged(value: string)
    | BranchChanged(value: string)

  const InitialForm: RegisterForm := RegisterForm("", "", "", "", "", false, false, false, false)

  /** Each validity flag is the rule applied to the field's current text. */
  predicate Consistent(f: RegisterForm)
  {
    && f.idValid == ValidUserId(f.userId)
    && f.passwordValid == ValidPassword(f.password)
    && f.phoneValid == ValidPhone(f.phone)
    && f.branchValid == ValidBranch(f.branch)
  }

  /** The change handlers: store the text and re-test it. */
  function OnChange(f: RegisterForm, e: FormEvent): (r: RegisterForm)
    ensures Consistent(f) ==> Consistent(r)
  {
    match e
    case UserIdChanged(v) => f.(userId := v, idValid := ValidUserId(v))
    case PasswordChanged(v) => f.(password := v, passwordValid := ValidPassword(v))
    case NameChanged(v) => f.(name := v)
    case PhoneChanged(v) => f.(phone := v, phoneValid := ValidPhone(v))
    case BranchChanged(v) => f.(branch := v, branchValid := ValidBranch(v))
  }

  function RunForm(f: RegisterForm, es: seq<FormEvent>): RegisterForm
  {
    if |es| == 0 then f else OnChange(RunForm(f, es[..|es| - 1]), es[|es| - 1])
  }

  /** `isFormValid`, which enables the submit button. */
  function SubmitEnabled(f: RegisterForm): bool
  {
    f.idValid && f.passwordValid && f.phoneValid && f.branchValid
  }

  /** From the empty form, after any edits, the submit button is enabled
      exactly when all four rules hold for the current texts; the name is
      never checked. */
  lemma {:induction false} SubmitEnabledIffValid(es: seq<FormEvent>)
    ensures Consistent(RunForm(InitialForm, es))
    ensures var f := RunForm(InitialForm, es);
            SubmitEnabled(f) <==>
              ValidUserId(f.userId) && ValidPassword(f.password) && ValidPhone(f.phone) && ValidBranch(f.branch)
    ensures var f := RunForm(InitialForm, es);
            forall n :: SubmitEnabled(OnChange(f, NameChanged(n))) == SubmitEnabled(f)
  {
    if |es| > 0 {
      SubmitEnabledIffValid(es[..|es| - 1]);
    }
  }
}
