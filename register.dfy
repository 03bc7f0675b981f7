/** The group-creation form: the checks on the name and the shared
    password, the live length hint, and the outcome of the insert. */
module Register {
  import opened Wrappers
  import opened JsText
  import opened Records
  import opened Routes

  const CorrectPassword: string := "picklemuffins"
  const MinGroupNameLength: nat := 3
  const MaxGroupNameLength: nat := 50

  const WrongPassword: string := "Incorrect password. You need the correct password to create a group."
  const TooShort: string := "Group name must be at least 3 characters long."
  const TooLong: string := "Group name must be no more than 50 characters long."
  const BadCharacters: string := "Group name can only contain letters, numbers, hyphens, and underscores."
  const InvalidCharacters: string := "Group name contains invalid characters."

  /** A character of `[a-zA-Z0-9_-]`. */
  predicate NameChar(c: char) {
    ('a' <= c <= 'z') || ('A' <= c <= 'Z') || ('0' <= c <= '9') || c == '_' || c == '-'
  }

  /** `/^[a-zA-Z0-9_-]+$/.test(s)`. */
  predicate MatchesNamePattern(s: string) {
    s != [] && forall i :: 0 <= i < |s| ==> NameChar(s[i])
  }

  /** `/<.*>/.test(s)`: a `<` followed later on the same line by a `>`. */
  predicate AngleBracketed(s: string) {
    exists i, j :: 0 <= i < j < |s| && s[i] == '<' && s[j] == '>'
                   && forall k :: i < k < j ==> !IsLineTerminator(s[k])
  }

  /** `/\.\./.test(s)`. */
  predicate HasDoubleDot(s: string) {
    exists i :: 0 <= i < |s| - 1 && s[i] == '.' && s[i + 1] == '.'
  }

  /** `/[<>'"]/.test(s)`. */
  predicate HasMarkupChar(s: string) {
    exists i :: 0 <= i < |s| && (s[i] == '<' || s[i] == '>' || s[i] == '\'' || s[i] == '"')
  }

  /** Any of the five "suspicious" patterns, tried in order. */
  predicate Suspicious(s: string) {
    ContainsCI(s, "script") || ContainsCI(s, "javascript") || AngleBracketed(s)
      || HasDoubleDot(s) || HasMarkupChar(s)
  }

  /** `validateInputs` on the trimmed name: the first failing check alone
      decides the message. */
  function Validate(name: string, password: string): (error: Option<string>)
    ensures error == Some(WrongPassword) <==> password != CorrectPassword
    ensures error == Some(TooShort) <==> password == CorrectPassword && Utf16Length(name) < MinGroupNameLength
    ensures error == Some(TooLong) <==>
      password == CorrectPassword && Utf16Length(name) > MaxGroupNameLength
    ensures error == Some(BadCharacters) <==>
      password == CorrectPassword && MinGroupNameLength <= Utf16Length(name) <= MaxGroupNameLength
      && !MatchesNamePattern(name)
    ensures error == Some(InvalidCharacters) <==>
      password == CorrectPassword && MinGroupNameLength <= Utf16Length(name) <= MaxGroupNameLength
      && MatchesNamePattern(name) && Suspicious(name)
  {
    if password != CorrectPassword then Some(WrongPassword)
    else if Utf16Length(name) < MinGroupNameLength then Some(TooShort)
    else if Utf16Length(name) > MaxGroupNameLength then Some(TooLong)
    else if !MatchesNamePattern(name) then Some(BadCharacters)
    else if Suspicious(name) then Some(InvalidCharacters)
    else None
  }

  /** Every `javascript` contains a `script`. */
  lemma JavascriptHasScript(s: string)
    requires ContainsCI(s, "javascript")
    ensures ContainsCI(s, "script")
  {
    var i :| 0 <= i <= |s| && StartsWithCI(s[i..], "javascript");
    assert StartsWithCI(s[i + 4..], "script") by {
      forall k | 0 <= k < 6 ensures LowerAscii(s[i + 4..][k]) == LowerAscii("script"[k]) {
        assert s[i + 4..][k] == s[i..][k + 4];
        assert "javascript"[k + 4] == "script"[k];
      }
    }
  }

  /** A name of the permitted characters has none of `<`, `>`, `.`, `'` and
      `"`, and one UTF-16 unit per character. */
  lemma NamePatternExcludes(s: string)
    requires MatchesNamePattern(s)
    ensures !AngleBracketed(s) && !HasDoubleDot(s) && !HasMarkupChar(s)
    ensures Utf16Length(s) == |s|
    ensures '/' !in s
  {
    Utf16OfBmp(s);
  }

  lemma {:induction false} Utf16OfBmp(s: string)
    requires forall i :: 0 <= i < |s| ==> NameChar(s[i])
    ensures Utf16Length(s) == |s|
  {
    if s != [] {
      Utf16OfBmp(s[1..]);
    }
  }

  /** A name passes exactly when the password is right, the name has 3 to
      50 characters, all of `[a-zA-Z0-9_-]`, and no `script` in any case:
      the other patterns can never match such a name. */
  lemma ValidIff(name: string, password: string)
    ensures Validate(name, password).None? <==>
      && password == CorrectPassword
      && MinGroupNameLength <= |name| <= MaxGroupNameLength
      && MatchesNamePattern(name)
      && !ContainsCI(name, "script")
  {
    if MatchesNamePattern(name) {
      NamePatternExcludes(name);
      if ContainsCI(name, "javascript") {
        JavascriptHasScript(name);
      }
    }
  }

  /** `javascript` is caught even though its characters are permitted. */
  lemma JavascriptRejected(name: string)
    requires MinGroupNameLength <= |name| <= MaxGroupNameLength
    requires MatchesNamePattern(name) && ContainsCI(name, "javascript")
    ensures Validate(name, CorrectPassword) == Some(InvalidCharacters)
  {
    NamePatternExcludes(name);
  }

  /** The hint set while typing, on the trimmed value. */
  function LengthHint(input: string): (hint: string)
    ensures var n := Utf16Length(Trim(input));
      && (hint == [] <==> n == 0 || MinGroupNameLength <= n <= MaxGroupNameLength)
      && (0 < n < MinGroupNameLength ==> hint == "Minimum 3 characters")
      && (n > MaxGroupNameLength ==> hint == "Maximum 50 characters")
  {
    var n := Utf16Length(Trim(input));
    if n > 0 && n < MinGroupNameLength then "Minimum 3 characters"
    else if n > MaxGroupNameLength then "Maximum 50 characters"
    else ""
  }

  /** The hint and the check agree on length: a name the hint accepts with
      the right password fails no length check. */
  lemma HintAgreesWithValidate(input: string)
    requires Trim(input) != [] && LengthHint(input) == []
    ensures Validate(Trim(input), CorrectPassword) != Some(TooShort)
    ensures Validate(Trim(input), CorrectPassword) != Some(TooLong)
  {
  }

  const NameTaken: string := "This group name is already taken. Please choose another one."
  const CreateFailed: string := "Failed to create group. Please try again."
  const Unexpected: string := "An unexpected error occurred. Please try again."
  const Created: string := "Group created successfully! Redirecting..."

  /** The result of one submit: the name sent to the store (if validation
      let it through), the message shown, whether the form ends enabled,
      and where the page goes. */
  datatype Creation = Creation(
    inserted: Option<string>,
    message: string,
    formEnabled: bool,
    redirect: Option<string>)

  /** The submit handler: trim, validate, insert, and route the reply. A
      refused name never disables the form. */
  function SubmitGroupForm(input: string, password: string, insertReply: Reply): (c: Creation)
    ensures var name := Trim(input);
      && (c.inserted.Some? <==> Validate(name, password).None?)
      && (c.inserted.Some? ==> c.inserted.value == name)
      && (c.inserted.None? ==> c.message == Validate(name, password).value)
      && (c.redirect.Some? <==> c.inserted.Some? && insertReply.Ok?)
      && (c.redirect.Some? ==> c.redirect.value == GroupPath(name) && c.message == Created)
      && (c.formEnabled <==> c.redirect.None?)
      && (c.inserted.Some? && insertReply == Err(UniqueViolation) ==> c.message == NameTaken)
      && (c.inserted.Some? && insertReply.Err? && insertReply.code != UniqueViolation ==> c.message == CreateFailed)
      && (c.inserted.Some? && insertReply.Exception? ==> c.message == Unexpected)
  {
    var name := Trim(input);
    var error := Validate(name, password);
    if error.Some? then Creation(None, error.value, true, None)
    else match insertReply
      case Ok => Creation(Some(name), Created, false, Some(GroupPath(name)))
      case Err(code) => Creation(Some(name), if code == UniqueViolation then NameTaken else CreateFailed, true, None)
      case Exception => Creation(Some(name), Unexpected, true, None)
  }

  /** `index.html` and `register.html` hold a dot, so of the names the
      group page refuses only `register` can be created. */
  lemma PermittedNameNotAPage(name: string)
    requires MatchesNamePattern(name) && name != "register"
    ensures !NotAGroup(name)
  {
    assert !NameChar("index.html"[5]) && !NameChar("register.html"[8]);
  }

  /** The page a new group is sent to (`SubmitGroupForm` redirects to
      `GroupPath(name)`) shows that group, unless it is named `register`. */
  lemma CreatedGroupOpens(name: string, password: string)
    requires Validate(name, password).None?
    requires name != "register"
    ensures GroupNameFromUrl(None, GroupPath(name)) == Some(name)
  {
    ValidIff(name, password);
    NamePatternExcludes(name);
    PermittedNameNotAPage(name);
    GroupMatchOfLink(name, ['/']);
  }

  /** `register` passes every check. */
  lemma RegisterIsAValidName()
    ensures Validate("register", CorrectPassword).None?
  {
    ValidIff("register", CorrectPassword);
    assert MatchesNamePattern("register");
    forall i | 0 <= i <= |"register"| ensures !StartsWithCI("register"[i..], "script") {
      assert i <= 2 ==> "register"[i..][0] != 's';
    }
  }

  /** But the page a group named `register` is sent to treats the name as
      the registration page and shows no group. */
  lemma RegisterGroupUnreachable(input: string)
    requires Trim(input) == "register"
    ensures SubmitGroupForm(input, CorrectPassword, Ok).redirect == Some(GroupPath("register"))
    ensures GroupNameFromUrl(None, GroupPath("register")).None?
  {
    RegisterIsAValidName();
    PagesAreNotGroups("register", ['/']);
  }
}
