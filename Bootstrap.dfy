/**
 * The start-up runner of RecipeappApplication.java: it creates the account
 * `admin` (ROLE_ADMIN) and the account `user` (ROLE_USER), both with the
 * encoded password "password", each only when no account of that name exists.
 */
module Bootstrap {
  import opened Wrappers
  import opened JavaText
  import opened UserModel

  const AdminName := "admin"
  const UserName := "user"
  const InitialPassword := "password"

  /** Both seeded names meet the username constraints, so their rows can only be refused for the password. */
  lemma SeedNamesValid()
    ensures UsernameValid(Some(AdminName)) && UsernameValid(Some(UserName))
  {
    assert !IsSpace(AdminName[0]) && !IsSpace(UserName[0]);
  }

  /** The table after seeding one account: unchanged when the name is taken, else one row more. */
  function SeedOne(users: seq<User>, nextId: int, name: string, password: string, role: string): (seq<User>, int) {
    if Taken(users, name) then (users, nextId)
    else (users + [User(Some(nextId), Some(name), Some(password), Some(role))], nextId + 1)
  }

  /** The table and next id after a complete run: `admin` seeded first, then `user`. */
  function Seeded(users: seq<User>, nextId: int, password: string): (seq<User>, int) {
    var (afterAdmin, idAfterAdmin) := SeedOne(users, nextId, AdminName, password, RoleAdmin);
    SeedOne(afterAdmin, idAfterAdmin, UserName, password, RoleUser)
  }

  lemma SeedOneKeeps(users: seq<User>, nextId: int, name: string, password: string, role: string)
    ensures var (after, _) := SeedOne(users, nextId, name, password, role);
      |users| <= |after| <= |users| + 1 && after[..|users|] == users && Taken(after, name)
  {
    var (after, _) := SeedOne(users, nextId, name, password, role);
    if !Taken(users, name) {
      assert after[|users|].username == Some(name);
    }
  }

  /** Seeding only appends: every existing row, role included, is left as it was. */
  lemma SeededKeepsExisting(users: seq<User>, nextId: int, password: string)
    ensures var (after, _) := Seeded(users, nextId, password);
      |users| <= |after| <= |users| + 2 && after[..|users|] == users
  {
    var (afterAdmin, idAfterAdmin) := SeedOne(users, nextId, AdminName, password, RoleAdmin);
    SeedOneKeeps(users, nextId, AdminName, password, RoleAdmin);
    SeedOneKeeps(afterAdmin, idAfterAdmin, UserName, password, RoleUser);
  }

  /**
   * After a run, findByUsername("admin") finds the old admin account when there
   * was one and otherwise the new ROLE_ADMIN account; likewise for `user` with ROLE_USER.
   */
  lemma {:induction false} SeededLookup(users: seq<User>, nextId: int, password: string)
    ensures var (after, _) := Seeded(users, nextId, password);
      && FirstNamed(after, AdminName) ==
           (if Taken(users, AdminName) then FirstNamed(users, AdminName)
            else Some(User(Some(nextId), Some(AdminName), Some(password), Some(RoleAdmin))))
      && FirstNamed(after, UserName) ==
           (if Taken(users, UserName) then FirstNamed(users, UserName)
            else Some(User(Some(if Taken(users, AdminName) then nextId else nextId + 1),
                           Some(UserName), Some(password), Some(RoleUser))))
  {
    var (afterAdmin, idAfterAdmin) := SeedOne(users, nextId, AdminName, password, RoleAdmin);
    var (after, _) := SeedOne(afterAdmin, idAfterAdmin, UserName, password, RoleUser);
    if !Taken(users, AdminName) {
      FirstNamedAppend(users, User(Some(nextId), Some(AdminName), Some(password), Some(RoleAdmin)), AdminName);
      FirstNamedAppend(users, User(Some(nextId), Some(AdminName), Some(password), Some(RoleAdmin)), UserName);
    }
    if !Taken(afterAdmin, UserName) {
      FirstNamedAppend(afterAdmin, User(Some(idAfterAdmin), Some(UserName), Some(password), Some(RoleUser)), UserName);
      FirstNamedAppend(afterAdmin, User(Some(idAfterAdmin), Some(UserName), Some(password), Some(RoleUser)), AdminName);
    }
  }

  /** A second run, whatever the encoder and id counter then, writes nothing. */
  lemma SeededIdempotent(users: seq<User>, nextId: int, password: string, laterId: int, laterPassword: string)
    ensures var (after, _) := Seeded(users, nextId, password);
      Seeded(after, laterId, laterPassword) == (after, laterId)
  {
    var (afterAdmin, idAfterAdmin) := SeedOne(users, nextId, AdminName, password, RoleAdmin);
    SeedOneKeeps(users, nextId, AdminName, password, RoleAdmin);
    var (after, _) := SeedOne(afterAdmin, idAfterAdmin, UserName, password, RoleUser);
    SeedOneKeeps(afterAdmin, idAfterAdmin, UserName, password, RoleUser);
    assert Taken(after, AdminName) by {
      var i :| 0 <= i < |afterAdmin| && afterAdmin[i].username == Some(AdminName);
      assert after[i] == afterAdmin[i];
    }
  }

  /** With unique usernames before the run, they stay unique and each seeded name is carried by exactly one row. */
  lemma SeededExactlyOnce(users: seq<User>, nextId: int, password: string)
    requires UniqueUsernames(users)
    ensures var (after, _) := Seeded(users, nextId, password);
      && UniqueUsernames(after) && CountNamed(after, AdminName) == 1 && CountNamed(after, UserName) == 1
  {
    var (afterAdmin, idAfterAdmin) := SeedOne(users, nextId, AdminName, password, RoleAdmin);
    var (after, _) := SeedOne(afterAdmin, idAfterAdmin, UserName, password, RoleUser);
    if !Taken(users, AdminName) {
      UniqueAppend(users, User(Some(nextId), Some(AdminName), Some(password), Some(RoleAdmin)), AdminName);
    }
    if !Taken(afterAdmin, UserName) {
      UniqueAppend(afterAdmin, User(Some(idAfterAdmin), Some(UserName), Some(password), Some(RoleUser)), UserName);
    }
    SeededLookup(users, nextId, password);
    CountNamedUnique(after, AdminName);
    CountNamedUnique(after, UserName);
  }

  /**
   * One block of init: look the name up and, when it is free, save a new row
   * with that name, the encoded password and the role. Returns false when that
   * save throws, which leaves the table as it was.
   */
  method SeedAccount(repo: UserRepository, name: string, password: string, role: string) returns (ok: bool)
    requires repo.Valid() && UsernameValid(Some(name))
    modifies repo
    ensures repo.Valid()
    ensures ok == (Taken(old(repo.users), name) || PasswordValid(Some(password)))
    ensures ok ==> (repo.users, repo.nextId) == SeedOne(old(repo.users), old(repo.nextId), name, password, role)
    ensures !ok ==> repo.users == old(repo.users) && repo.nextId == old(repo.nextId)
  {
    if repo.FindByUsername(name).None? {
      var account := NewUser();
      account := account.(username := Some(name), password := Some(password), role := Some(role));
      var saved := repo.Save(account);
      if saved.None? {
        return false;
      }
    }
    return true;
  }

  /**
   * init. With an encoded password the table accepts, the run completes with the
   * table of `Seeded`. Otherwise the first save that is needed throws, the
   * table is unchanged, and the run completes only when both accounts already exist.
   */
  method Init(repo: UserRepository, encode: string -> string) returns (completed: bool)
    requires repo.Valid()
    modifies repo
    ensures repo.Valid()
    ensures PasswordValid(Some(encode(InitialPassword))) ==>
              completed && (repo.users, repo.nextId) == Seeded(old(repo.users), old(repo.nextId), encode(InitialPassword))
    ensures !PasswordValid(Some(encode(InitialPassword))) ==>
              && repo.users == old(repo.users) && repo.nextId == old(repo.nextId)
              && completed == (Taken(old(repo.users), AdminName) && Taken(old(repo.users), UserName))
  {
    SeedNamesValid();
    completed := SeedAccount(repo, AdminName, encode(InitialPassword), RoleAdmin);
    if completed {
      completed := SeedAccount(repo, UserName, encode(InitialPassword), RoleUser);
    }
  }
}
