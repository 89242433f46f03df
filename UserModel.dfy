/**
 * The user account entity (User.java) and the store it is saved into.
 * The repository interface (UserRepository) is not part of this model: its two
 * operations, findByUsername and save, are modelled here over an in-memory
 * sequence of rows with the constraints the entity declares.
 */
module UserModel {
  import opened Wrappers
  import opened JavaText

  const RoleUser := "ROLE_USER"
  const RoleAdmin := "ROLE_ADMIN"

  /** A user row. As on the Java entity, each column is null until it is set. */
  datatype User = User(id: Option<int>, username: Option<string>, password: Option<string>, role: Option<string>)

  /** `new User()`: no id, no username, no password, and the role defaults to ROLE_USER. */
  function NewUser(): (u: User)
    ensures u.role == Some(RoleUser)
    ensures u.id == None && u.username == None && u.password == None
  {
    User(None, None, None, Some(RoleUser))
  }

  /** @NotBlank and @Size(min = 3, max = 20) on the username. */
  predicate UsernameValid(name: Option<string>) {
    name.Some? && !IsBlank(name.value) && 3 <= |name.value| <= 20
  }

  /** @NotBlank and @Size(min = 6, max = 100) on the password. */
  predicate PasswordValid(password: Option<string>) {
    password.Some? && !IsBlank(password.value) && 6 <= |password.value| <= 100
  }

  /** What bean validation checks on a bound form: the two annotated fields. */
  predicate FieldsValid(username: Option<string>, password: Option<string>) {
    UsernameValid(username) && PasswordValid(password)
  }

  /** What a row needs to be persisted: valid fields and a non-null role column. */
  predicate Storable(u: User) {
    FieldsValid(u.username, u.password) && u.role.Some?
  }

  /** A stored row carries the username `name`. */
  predicate Taken(users: seq<User>, name: string) {
    exists i :: 0 <= i < |users| && users[i].username == Some(name)
  }

  /** The unique constraint on the username column. */
  predicate UniqueUsernames(users: seq<User>) {
    forall i, j :: 0 <= i < j < |users| ==> users[i].username != users[j].username
  }

  /** findByUsername: the row whose username equals `name` exactly, if any. */
  function FirstNamed(users: seq<User>, name: string): (r: Option<User>)
    ensures r.Some? <==> Taken(users, name)
    ensures r.Some? ==> r.value in users && r.value.username == Some(name)
  {
    if |users| == 0 then None
    else if users[0].username == Some(name) then Some(users[0])
    else
      var r := FirstNamed(users[1..], name);
      assert Taken(users[1..], name) ==> Taken(users, name) by {
        if Taken(users[1..], name) {
          var i :| 0 <= i < |users[1..]| && users[1..][i].username == Some(name);
          assert users[i + 1].username == Some(name);
        }
      }
      assert Taken(users, name) ==> Taken(users[1..], name) by {
        if Taken(users, name) {
          var i :| 0 <= i < |users| && users[i].username == Some(name);
          assert users[1..][i - 1].username == Some(name);
        }
      }
      r
  }

  /** How many rows carry the username `name`. */
  function CountNamed(users: seq<User>, name: string): nat {
    if |users| == 0 then 0
    else CountNamed(users[..|users| - 1], name) + (if users[|users| - 1].username == Some(name) then 1 else 0)
  }

  /** Under the unique constraint a username is carried by exactly one row when it is taken and by none otherwise. */
  lemma {:induction false} CountNamedUnique(users: seq<User>, name: string)
    requires UniqueUsernames(users)
    ensures CountNamed(users, name) == (if Taken(users, name) then 1 else 0)
  {
    if |users| > 0 {
      var init := users[..|users| - 1];
      CountNamedUnique(init, name);
      if users[|users| - 1].username != Some(name) {
        if Taken(users, name) {
          var i :| 0 <= i < |users| && users[i].username == Some(name);
          assert init[i].username == Some(name);
        }
      }
    }
  }

  /** The index of the stored row whose id is `id`, if there is one. */
  function RowWithId(users: seq<User>, id: int): (r: Option<nat>)
    ensures r.Some? ==> r.value < |users| && users[r.value].id == Some(id)
    ensures r.None? ==> forall i :: 0 <= i < |users| ==> users[i].id != Some(id)
  {
    if |users| == 0 then None
    else if users[|users| - 1].id == Some(id) then Some(|users| - 1)
    else
      var r := RowWithId(users[..|users| - 1], id);
      assert forall i :: 0 <= i < |users| - 1 ==> users[i] == users[..|users| - 1][i];
      r
  }

  /** A row other than row `skip` carries the username `name`. */
  predicate TakenByOther(users: seq<User>, name: string, skip: Option<nat>) {
    exists i :: 0 <= i < |users| && skip != Some(i) && users[i].username == Some(name)
  }

  /**
   * What the persisted table satisfies: unique usernames, every row within
   * the column constraints, and distinct ids below the next generated one.
   */
  predicate WellFormed(users: seq<User>, nextId: int) {
    && UniqueUsernames(users)
    && (forall i :: 0 <= i < |users| ==> Storable(users[i]) && users[i].id.Some? && users[i].id.value < nextId)
    && (forall i, j :: 0 <= i < j < |users| ==> users[i].id != users[j].id)
  }

  /**
   * save: the table and next id after saving `u`, or None when save throws
   * (a column constraint or the unique username broken). An entity whose id
   * names a stored row is merged onto that row; any other entity is inserted
   * under the next generated id.
   */
  function SaveEffect(users: seq<User>, nextId: int, u: User): Option<(seq<User>, int)> {
    var target := if u.id.Some? then RowWithId(users, u.id.value) else None;
    if !Storable(u) || TakenByOther(users, u.username.value, target) then None
    else if target.Some? then Some((users[target.value := u], nextId))
    else Some((users + [u.(id := Some(nextId))], nextId + 1))
  }

  /** A save that succeeds keeps the table well formed. */
  lemma SaveKeepsWellFormed(users: seq<User>, nextId: int, u: User)
    requires WellFormed(users, nextId) && SaveEffect(users, nextId, u).Some?
    ensures WellFormed(SaveEffect(users, nextId, u).value.0, SaveEffect(users, nextId, u).value.1)
  {
    var target := if u.id.Some? then RowWithId(users, u.id.value) else None;
    var after := SaveEffect(users, nextId, u).value.0;
    if target.Some? {
      forall i, j | 0 <= i < j < |after| ensures after[i].username != after[j].username {
        if i != target.value && j != target.value {
          assert after[i] == users[i] && after[j] == users[j];
        }
      }
    } else {
      forall i, j | 0 <= i < j < |after| ensures after[i].username != after[j].username {
        if j < |users| {
          assert after[i] == users[i] && after[j] == users[j];
        }
      }
    }
  }

  /**
   * Saving an entity without an id only ever appends: it is refused exactly
   * when it breaks a column constraint or its username is taken, and every
   * stored row is kept as it was.
   */
  lemma SaveWithoutIdAppends(users: seq<User>, nextId: int, u: User)
    requires u.id.None?
    ensures SaveEffect(users, nextId, u).None? <==> !Storable(u) || Taken(users, u.username.value)
    ensures SaveEffect(users, nextId, u).Some? ==>
              && SaveEffect(users, nextId, u).value == (users + [u.(id := Some(nextId))], nextId + 1)
              && users <= SaveEffect(users, nextId, u).value.0
  {
    if Storable(u) && Taken(users, u.username.value) {
      var i :| 0 <= i < |users| && users[i].username == u.username;
      assert TakenByOther(users, u.username.value, None);
    }
  }

  /** Looking a name up after appending a row: earlier rows win, and the new row is found only when it carries the name. */
  lemma {:induction false} FirstNamedAppend(users: seq<User>, row: User, name: string)
    ensures FirstNamed(users + [row], name) ==
      (if Taken(users, name) then FirstNamed(users, name)
       else if row.username == Some(name) then Some(row) else None)
  {
    if |users| > 0 {
      assert (users + [row])[1..] == users[1..] + [row];
      FirstNamedAppend(users[1..], row, name);
    }
  }

  /** Appending a row whose username is free keeps usernames unique. */
  lemma UniqueAppend(users: seq<User>, row: User, name: string)
    requires UniqueUsernames(users) && row.username == Some(name) && !Taken(users, name)
    ensures UniqueUsernames(users + [row])
  {
    var all := users + [row];
    forall i, j | 0 <= i < j < |all| ensures all[i].username != all[j].username {
      if j == |users| {
        assert all[i] == users[i];
      }
    }
  }

  /** The user table. Rows are kept in insertion order, which is the order findAll returns them in. */
  class UserRepository {
    var users: seq<User>
    var nextId: int

    /** Every row was persisted, so the table is well formed. */
    ghost predicate Valid()
      reads this
    {
      WellFormed(users, nextId)
    }

    constructor ()
      ensures Valid() && users == [] && nextId == 1
    {
      users := [];
      nextId := 1;
    }

    /** findByUsername. */
    function FindByUsername(name: string): (r: Option<User>)
      reads this
      ensures r.Some? <==> Taken(users, name)
      ensures r.Some? ==> r.value in users && r.value.username == Some(name)
    {
      FirstNamed(users, name)
    }

    /**
     * save. A row that breaks a column constraint or the unique constraint on
     * the username is refused (the exception `save` throws) and the table is
     * unchanged. Otherwise an entity whose id names a stored row replaces that
     * row, and any other is inserted under a fresh id; the saved row is returned.
     */
    method Save(u: User) returns (saved: Option<User>)
      requires Valid()
      modifies this
      ensures Valid()
      ensures saved.None? <==> SaveEffect(old(users), old(nextId), u).None?
      ensures saved.None? ==> users == old(users) && nextId == old(nextId)
      ensures saved.Some? ==> (users, nextId) == SaveEffect(old(users), old(nextId), u).value && saved.value in users
      ensures u.id.None? ==> (saved.None? <==> !Storable(u) || Taken(old(users), u.username.value))
      ensures u.id.None? && saved.Some? ==>
                && saved.value == u.(id := Some(old(nextId)))
                && users == old(users) + [saved.value]
                && nextId == old(nextId) + 1
    {
      if u.id.None? {
        SaveWithoutIdAppends(users, nextId, u);
      }
      var target := if u.id.Some? then RowWithId(users, u.id.value) else None;
      if !Storable(u) || TakenByOther(users, u.username.value, target) {
        return None;
      }
      SaveKeepsWellFormed(users, nextId, u);
      if target.Some? {
        users := users[target.value := u];
        assert users[target.value] == u;
        saved := Some(u);
      } else {
        var row := u.(id := Some(nextId));
        users := users + [row];
        nextId := nextId + 1;
        saved := Some(row);
      }
    }
  }
}
