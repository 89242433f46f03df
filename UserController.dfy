/**
 * Account registration and the debug listing of accounts (UserController.java).
 * The password encoder is a function parameter.
 */
module UserController {
  import opened Wrappers
  import opened JavaText
  import opened UserModel
  import opened Web

  const RegisterView := "register"
  const RegisterRedirect := "redirect:/register"
  const LoginRedirect := "redirect:/login"

  const UsernameLengthMessage := "ユーザー名は3文字以上20文字以下で入力してください。"
  const PasswordLengthMessage := "パスワードは6文字以上で入力してください。"
  const UsernameTakenMessage := "そのユーザー名は既に使用されています。別のユーザー名を選択してください。"
  const RegisteredMessage := "ユーザー登録が完了しました。ログインしてください。"
  const RegistrationFailedMessage := "ユーザー登録中にエラーが発生しました。もう一度お試しください。"

  /** The handler's own username check: present, and 3 to 20 characters once trimmed. */
  predicate UsernameLengthOk(username: Option<string>) {
    username.Some? && 3 <= |Trim(username.value)| <= 20
  }

  /** The handler's own password check: present, and at least 6 characters. */
  predicate PasswordLengthOk(password: Option<string>) {
    password.Some? && |password.value| >= 6
  }

  /** Bean validation already demands 6 characters, so the handler's password check never fires after it. */
  lemma PasswordCheckRedundant(username: Option<string>, password: Option<string>)
    requires FieldsValid(username, password)
    ensures PasswordLengthOk(password)
  {
  }

  /**
   * The username check is not redundant: the annotations measure the raw
   * username, the handler the trimmed one, so padding gets a short name past
   * bean validation and only the handler stops it.
   */
  lemma PaddedShortNamePassesBinding()
    ensures FieldsValid(Some(" ab"), Some("secret")) && !UsernameLengthOk(Some(" ab"))
  {
    assert !IsSpace('a') && !IsSpace("secret"[0]);
    assert TrimStart(" ab") == TrimStart("ab");
    TrimStartShape("ab");
    assert |Trim(" ab")| <= 2;
  }

  /** A username that passes the handler's check is stored trimmed, and the trimmed name meets the column constraints. */
  lemma TrimmedNameStorable(username: string)
    requires 3 <= |Trim(username)| <= 20
    ensures UsernameValid(Some(Trim(username)))
  {
    TrimmedNonBlankIff(Trim(username));
  }

  /**
   * The success path of registerUser as written: the bound form object, with
   * whatever `id` the request carried, receives the trimmed username, the
   * encoded password and ROLE_USER, and is saved.
   */
  function RegisteredAsWritten(users: seq<User>, nextId: int, form: User, encode: string -> string)
    : Option<(seq<User>, int)>
    requires form.username.Some? && form.password.Some?
  {
    SaveEffect(users, nextId, form.(username := Some(Trim(form.username.value)),
                                    password := Some(encode(form.password.value)),
                                    role := Some(RoleUser)))
  }

  /**
   * As written, a registration request that also carries `id=1` passes every
   * check of the handler, and the save then merges it onto account 1: the
   * seeded administrator loses its username, password and role.
   */
  lemma BoundIdOverwritesAccount()
    ensures var users := [User(Some(1), Some("admin"), Some("hashed-password"), Some(RoleAdmin))];
            var form := User(Some(1), Some("mallory"), Some("secret1"), None);
            var encode := (p: string) => "hashed-" + p;
            && FieldsValid(form.username, form.password)
            && UsernameLengthOk(form.username) && PasswordLengthOk(form.password)
            && !Taken(users, Trim("mallory"))
            && RegisteredAsWritten(users, 2, form, encode)
               == Some(([User(Some(1), Some("mallory"), Some("hashed-secret1"), Some(RoleUser))], 2))
            && !Taken(RegisteredAsWritten(users, 2, form, encode).value.0, "admin")
  {
    var users := [User(Some(1), Some("admin"), Some("hashed-password"), Some(RoleAdmin))];
    assert !IsSpace('m') && !IsSpace('y') && !IsSpace('s') && !IsSpace('h');
    assert Trim("mallory") == "mallory" by {
      assert TrimStart("mallory") == "mallory";
    }
    assert !IsBlank("mallory") && !IsBlank("secret1") && !IsBlank("hashed-secret1") by {
      TrimOfNonBlank("mallory");
      BlankIffTrimEmpty("secret1");
      BlankIffTrimEmpty("hashed-secret1");
    }
    assert users[0].username != Some("mallory");
    var merged := User(Some(1), Some("mallory"), Some("hashed-secret1"), Some(RoleUser));
    assert RowWithId(users, 1) == Some(0);
    assert !TakenByOther(users, "mallory", Some(0));
    assert users[0 := merged] == [merged];
    var form := User(Some(1), Some("mallory"), Some("secret1"), None);
    var encode := (p: string) => "hashed-" + p;
    assert FieldsValid(form.username, form.password);
    assert UsernameLengthOk(form.username);
    assert PasswordLengthOk(form.password);
    assert !Taken(users, Trim("mallory"));
    assert Storable(merged);
    assert encode("secret1") == "hashed-secret1";
    assert form.(username := Some(Trim("mallory")), password := Some(encode("secret1")), role := Some(RoleUser)) == merged;
    assert RegisteredAsWritten(users, 2, form, encode) == Some(([merged], 2));
    assert !Taken([merged], "admin");
  }

  /** The body of one listing line, without its line break. */
  function UserEntry(u: User): string {
    "ID: " + (if u.id.Some? then IntString(u.id.value) else "null")
    + ", ユーザー名: " + u.username.GetOr("null")
    + ", 役割: " + u.role.GetOr("null")
  }

  /** One line of the listing. */
  function UserLine(u: User): string {
    UserEntry(u) + "\n"
  }

  const ListingTitle := "登録済みユーザー一覧:"

  /** The listing lines of `users`, in order. */
  function UserLines(users: seq<User>): string {
    if |users| == 0 then ""
    else UserLines(users[..|users| - 1]) + UserLine(users[|users| - 1])
  }

  /** How many line breaks `s` holds. */
  function LineBreaks(s: string): nat {
    if |s| == 0 then 0
    else LineBreaks(s[..|s| - 1]) + (if s[|s| - 1] == '\n' then 1 else 0)
  }

  predicate NoLineBreak(s: string) {
    forall k :: 0 <= k < |s| ==> s[k] != '\n'
  }

  lemma {:induction false} LineBreaksAppend(a: string, b: string)
    ensures LineBreaks(a + b) == LineBreaks(a) + LineBreaks(b)
  {
    if |b| > 0 {
      assert (a + b)[..|a + b| - 1] == a + b[..|b| - 1];
      LineBreaksAppend(a, b[..|b| - 1]);
    } else {
      assert a + b == a;
    }
  }

  lemma {:induction false} NoLineBreakCount(s: string)
    requires NoLineBreak(s)
    ensures LineBreaks(s) == 0
  {
    if |s| > 0 {
      NoLineBreakCount(s[..|s| - 1]);
    }
  }

  /** The username and role of `u` hold no line break. */
  predicate SingleLineFields(u: User) {
    && (u.username.Some? ==> NoLineBreak(u.username.value))
    && (u.role.Some? ==> NoLineBreak(u.role.value))
  }

  /** A line of the listing ends in its only line break when the username and role hold none. */
  lemma EntryIsOneLine(u: User)
    requires SingleLineFields(u)
    ensures LineBreaks(UserLine(u)) == 1
  {
    var e := UserEntry(u);
    assert NoLineBreak(e) by {
      var id := if u.id.Some? then IntString(u.id.value) else "null";
      assert NoLineBreak(id);
      assert NoLineBreak("ID: ") && NoLineBreak(", ユーザー名: ") && NoLineBreak(", 役割: ");
      assert NoLineBreak(u.username.GetOr("null")) && NoLineBreak(u.role.GetOr("null"));
    }
    NoLineBreakCount(e);
    LineBreaksAppend(e, "\n");
  }

  /** The listing has the title line and exactly one line per user, provided no stored text holds a line break. */
  lemma {:induction false} ListingLineCount(users: seq<User>)
    requires forall i :: 0 <= i < |users| ==> SingleLineFields(users[i])
    ensures LineBreaks(ListingTitle + "\n" + UserLines(users)) == |users| + 1
  {
    LineBreaksAppend(ListingTitle + "\n", UserLines(users));
    assert LineBreaks(ListingTitle + "\n") == 1 by {
      assert NoLineBreak(ListingTitle);
      NoLineBreakCount(ListingTitle);
      LineBreaksAppend(ListingTitle, "\n");
    }
    LinesCount(users);
  }

  lemma {:induction false} LinesCount(users: seq<User>)
    requires forall i :: 0 <= i < |users| ==> SingleLineFields(users[i])
    ensures LineBreaks(UserLines(users)) == |users|
  {
    if |users| > 0 {
      var init := users[..|users| - 1];
      var last := users[|users| - 1];
      LinesCount(init);
      EntryIsOneLine(last);
      LineBreaksAppend(UserLines(init), UserLine(last));
    }
  }

  class UserController {
    const repo: UserRepository

    constructor (repo: UserRepository)
      ensures this.repo == repo
    {
      this.repo := repo;
    }

    /**
     * registerUser on the bound form: bean validation, then the handler's
     * checks in order (trimmed username length, password length, username
     * taken), each leaving the table unchanged; then a new account with the
     * trimmed username, the encoded password and ROLE_USER is saved, a failed
     * save being reported with the generic error. An `id` bound from the
     * request is discarded, so registration only ever adds an account.
     */
    method RegisterUser(form: User, encode: string -> string)
      returns (view: string, flash: Option<Flash>)
      requires repo.Valid()
      modifies repo
      ensures repo.Valid()
      ensures old(repo.users) <= repo.users
      ensures !FieldsValid(form.username, form.password) ==>
                view == RegisterView && flash == None
                && repo.users == old(repo.users) && repo.nextId == old(repo.nextId)
      ensures FieldsValid(form.username, form.password) && !UsernameLengthOk(form.username) ==>
                view == RegisterRedirect && flash == Some(ErrorFlash(UsernameLengthMessage))
                && repo.users == old(repo.users) && repo.nextId == old(repo.nextId)
      ensures FieldsValid(form.username, form.password) && UsernameLengthOk(form.username) && !PasswordLengthOk(form.password) ==>
                view == RegisterRedirect && flash == Some(ErrorFlash(PasswordLengthMessage))
                && repo.users == old(repo.users) && repo.nextId == old(repo.nextId)
      ensures FieldsValid(form.username, form.password) && UsernameLengthOk(form.username) && PasswordLengthOk(form.password)
              && Taken(old(repo.users), Trim(form.username.value)) ==>
                view == RegisterRedirect && flash == Some(ErrorFlash(UsernameTakenMessage))
                && repo.users == old(repo.users) && repo.nextId == old(repo.nextId)
      ensures FieldsValid(form.username, form.password) && UsernameLengthOk(form.username) && PasswordLengthOk(form.password)
              && !Taken(old(repo.users), Trim(form.username.value)) && !PasswordValid(Some(encode(form.password.value))) ==>
                view == RegisterRedirect && flash == Some(ErrorFlash(RegistrationFailedMessage))
                && repo.users == old(repo.users) && repo.nextId == old(repo.nextId)
      ensures FieldsValid(form.username, form.password) && UsernameLengthOk(form.username) && PasswordLengthOk(form.password)
              && !Taken(old(repo.users), Trim(form.username.value)) && PasswordValid(Some(encode(form.password.value))) ==>
                && view == LoginRedirect && flash == Some(SuccessFlash(RegisteredMessage))
                && repo.nextId == old(repo.nextId) + 1
                && repo.users == old(repo.users) +
                     [User(Some(old(repo.nextId)), Some(Trim(form.username.value)), Some(encode(form.password.value)), Some(RoleUser))]
    {
      if !FieldsValid(form.username, form.password) {
        return RegisterView, None;
      }
      var username, password := form.username, form.password;
      if username.None? || |Trim(username.value)| < 3 || |Trim(username.value)| > 20 {
        return RegisterRedirect, Some(ErrorFlash(UsernameLengthMessage));
      }
      if password.None? || |password.value| < 6 {
        return RegisterRedirect, Some(ErrorFlash(PasswordLengthMessage));
      }
      var name := Trim(username.value);
      if repo.FindByUsername(name).Some? {
        return RegisterRedirect, Some(ErrorFlash(UsernameTakenMessage));
      }
      var user := form.(id := None);
      user := user.(username := Some(name), password := Some(encode(password.value)), role := Some(RoleUser));
      TrimmedNameStorable(username.value);
      var saved := repo.Save(user);
      if saved.None? {
        return RegisterRedirect, Some(ErrorFlash(RegistrationFailedMessage));
      }
      return LoginRedirect, Some(SuccessFlash(RegisteredMessage));
    }

    /** listUsers: the title line, then one line per stored user in findAll order. */
    method ListUsers() returns (text: string)
      ensures text == ListingTitle + "\n" + UserLines(repo.users)
    {
      var users := repo.users;
      text := ListingTitle + "\n";
      for i := 0 to |users|
        invariant text == ListingTitle + "\n" + UserLines(users[..i])
      {
        assert users[..i + 1][..i] == users[..i];
        text := text + UserLine(users[i]);
      }
      assert users[..|users|] == users;
    }
  }
}
