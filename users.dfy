/**
 * Users: the login accounts, kept in the user file as a repository keyed by
 * user id, with passwords stored as digests and checked at login.
 */
module Users {
  import opened Outcomes
  import opened OrderedDicts
  import opened Tables

  /** A user row of the user file, as `User.to_dict()` writes it. */
  datatype UserRecord = UserRecord(userId: string, password: string, role: string)

  /** A user row's key in the repository. */
  function UserIdOf(r: UserRecord): string
  {
    r.userId
  }

  /** A user object; only its password is reassigned in place. */
  class User {
    var userId: string
    var password: string
    var role: string

    /** `User(**record)`: the object a row of the user file loads into. */
    constructor FromRecord(r: UserRecord)
      ensures ToDict() == r
    {
      userId, password, role := r.userId, r.password, r.role;
    }

    /** `to_dict()`: the row the object saves as. */
    function ToDict(): UserRecord
      reads this
    {
      UserRecord(userId, password, role)
    }

    /** `set_password(password)`: store the given (already digested) password. */
    method SetPassword(p: string)
      modifies this
      ensures ToDict() == old(ToDict()).(password := p)
    {
      password := p;
    }
  }

  class UserManagement {
    /** The user list, its index `users_dict` and the file they are saved to. */
    const table: Table<UserRecord>
    /** The password digest: the hex SHA-256 of the password's UTF-8 bytes. */
    const hash: string -> string

    ghost predicate Valid()
      reads this, table
    {
      table.Valid() && table.keyOf == UserIdOf
    }

    /** `UserManagement()`: load the user file and index it by user id. */
    constructor (hash: string -> string, file: seq<UserRecord>)
      ensures Valid() && fresh(table) && this.hash == hash
      ensures table.store == file && table.dict == FromList(UserIdOf, file)
    {
      this.hash := hash;
      table := new Table(UserIdOf, file);
    }

    /** `get_user(user_id)`: the user filed under that id, KeyError when absent. */
    function GetUser(userId: string): (r: Result<UserRecord>)
      requires Valid()
      reads this, table
      ensures r.Ok? <==> userId in table.dict.entries
      ensures r.Ok? ==> r.value.userId == userId && r.value == table.dict.entries[userId]
      ensures r.Err? ==> r.error == KeyError(userId)
    {
      table.Get(userId)
    }

    /** `check_user(user_id)`: whether the id is filed, that is, whether `get_user` would succeed. */
    function CheckUser(userId: string): (r: bool)
      requires Valid()
      reads this, table
      ensures r <==> GetUser(userId).Ok?
    {
      userId in table.dict.entries
    }

    /** `encrypt_password(password)`: the digest stored in place of the password. */
    function EncryptPassword(password: string): string
      reads this
    {
      hash(password)
    }

    /** `verify_password(password, hashed)`: the stored digest is the password's digest. */
    function VerifyPassword(password: string, hashed: string): bool
      reads this
    {
      hashed == EncryptPassword(password)
    }

    /**
     * `login(user_id, password, role)`: the id is filed, the stored role is
     * the one asked for, and the stored digest is the password's digest.
     */
    function Login(userId: string, password: string, role: string): (ok: bool)
      requires Valid()
      reads this, table
      ensures ok <==>
        && GetUser(userId).Ok?
        && GetUser(userId).value.role == role
        && GetUser(userId).value.password == hash(password)
    {
      userId in table.dict.entries && table.dict.entries[userId].role == role &&
      VerifyPassword(password, table.dict.entries[userId].password)
    }

    /** `add_user(user)`: file the user under its id and save; it then logs in exactly with a password whose digest it stores. */
    method AddUser(user: User) returns (status: Status)
      requires Valid()
      modifies table
      ensures Valid() && table.Persisted() && status == Done
      ensures table.dict == old(table.dict).Set(user.userId, user.ToDict())
      ensures forall p :: Login(user.userId, p, user.role) <==> user.password == hash(p)
    {
      status := table.Put(user.ToDict());
    }

    /** `update_user(user)`: file the user under its id, replacing any earlier row in place, and save. */
    method UpdateUser(user: User) returns (status: Status)
      requires Valid()
      modifies table
      ensures Valid() && table.Persisted() && status == Done
      ensures table.dict == old(table.dict).Set(user.userId, user.ToDict())
      ensures user.userId in old(table.dict.entries) ==> table.dict.keys == old(table.dict.keys)
    {
      status := table.Put(user.ToDict());
    }

    /**
     * `delete_user(user_id)`: KeyError when absent; otherwise the user is
     * dropped and the rest saved, which raises IndexError when none is left.
     */
    method DeleteUser(userId: string) returns (status: Status)
      requires Valid()
      modifies table
      ensures Valid()
      ensures userId !in old(table.dict.entries) ==> status == Raised(KeyError(userId)) && unchanged(table)
      ensures userId in old(table.dict.entries) ==> table.dict == old(table.dict).Pop(userId)
      ensures userId in old(table.dict.entries) ==> forall p, r :: !Login(userId, p, r)
      ensures userId in old(table.dict.entries) && |old(table.dict.keys)| == 1 ==>
        status == Raised(IndexError) && table.items == old(table.items)
      ensures userId in old(table.dict.entries) && |old(table.dict.keys)| > 1 ==>
        status == Done && table.Persisted()
    {
      status := table.Remove(userId);
    }

    /**
     * `change_password(user_id, password)`: KeyError when the id is not filed;
     * otherwise the user's stored digest becomes the new password's, so the new
     * password logs in and only passwords with the same digest do.
     */
    method ChangePassword(userId: string, password: string) returns (status: Status)
      requires Valid()
      modifies table
      ensures Valid()
      ensures userId !in old(table.dict.entries) ==> status == Raised(KeyError(userId)) && unchanged(table)
      ensures userId in old(table.dict.entries) ==>
        && status == Done && table.Persisted()
        && table.dict == old(table.dict).Set(userId, old(table.dict.entries[userId]).(password := hash(password)))
        && Login(userId, password, old(table.dict.entries[userId]).role)
        && (forall p, r :: Login(userId, p, r) ==> hash(p) == hash(password))
    {
      var r := GetUser(userId);
      if r.Err? {
        return Raised(r.error);
      }
      var user := new User.FromRecord(r.value);
      user.SetPassword(EncryptPassword(password));
      status := UpdateUser(user);
    }
  }
}
