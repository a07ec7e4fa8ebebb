/**
  The administrator accounts: the start-up upsert `add_admin` and the
  credential check of `login` in app.py. Password hashing and hash checking
  belong to the hashing library; they enter the model as function
  parameters (`hash` is salted, so the caller supplies the value it returns).
*/
module Users {
  import opened Wrappers
  import Ids

  /** A stored salted password hash. */
  type Hash = string

  datatype User = User(id: nat, username: string, passwordHash: Hash)

  /** The user table, looked up by user name. */
  type UserTable = map<string, User>

  /** Each row sits under its own name, and no two rows share an id (the
      name column is unique and the id column is the primary key). */
  ghost predicate WellFormed(users: UserTable) {
    && (forall name :: name in users ==> users[name].username == name)
    && (forall a, b :: a in users && b in users && users[a].id == users[b].id ==> a == b)
  }

  function UserIds(users: UserTable): set<nat> {
    set name | name in users :: users[name].id
  }

  /** `add_admin(username, password)` with `hash` the value
      `generate_password_hash(password)` returned: the existing row gets the
      new hash, or a new row with the unused key `id` is created. */
  function Upsert(users: UserTable, username: string, hash: Hash, id: nat): (r: UserTable)
    requires username in users || id !in UserIds(users)
    ensures r.Keys == users.Keys + {username}
    ensures r[username].passwordHash == hash
    ensures username in users ==> r[username] == users[username].(passwordHash := hash)
    ensures username !in users ==> r[username] == User(id, username, hash)
    ensures forall name :: name in users && name != username ==> r[name] == users[name]
  {
    if username in users then users[username := users[username].(passwordHash := hash)]
    else users[username := User(id, username, hash)]
  }

  /** The upsert keeps names unique and ids distinct. */
  lemma UpsertWellFormed(users: UserTable, username: string, hash: Hash, id: nat)
    requires WellFormed(users)
    requires username in users || id !in UserIds(users)
    ensures WellFormed(Upsert(users, username, hash, id))
  {
  }

  /** Running the upsert again for the same name adds no second row: the
      table has the keys and ids of a single run, and the later password
      wins. */
  lemma UpsertTwice(users: UserTable, username: string, hash1: Hash, hash2: Hash, id1: nat, id2: nat)
    requires username in users || id1 !in UserIds(users)
    ensures var once := Upsert(users, username, hash1, id1);
            && Upsert(once, username, hash2, id2) == Upsert(users, username, hash2, id1)
            && |Upsert(once, username, hash2, id2)| == |once|
  {
  }

  /** `login`: a session is established for the user with that name when
      the library accepts the password against the stored hash. */
  function Login(users: UserTable, username: string, password: string,
                 check: (Hash, string) -> bool): (r: Option<User>)
    ensures r.Some? <==> username in users && check(users[username].passwordHash, password)
    ensures r.Some? ==> r.value == users[username]
  {
    if username in users && check(users[username].passwordHash, password)
    then Some(users[username]) else None
  }

  /** After `add_admin(username, password)`, logging in with the same
      password succeeds for that account, provided the library accepts each
      password against its own hash. */
  lemma LoginAfterUpsert(users: UserTable, username: string, password: string, id: nat,
                         hash: string -> Hash, check: (Hash, string) -> bool)
    requires WellFormed(users)
    requires username in users || id !in UserIds(users)
    requires forall p :: check(hash(p), p)
    ensures var r := Login(Upsert(users, username, hash(password), id), username, password, check);
            r.Some? && r.value.username == username && r.value.passwordHash == hash(password)
  {
  }

  /** A password the library rejects against the new hash never opens a
      session for the upserted account. */
  lemma WrongPasswordAfterUpsert(users: UserTable, username: string, password: string,
                                 guess: string, id: nat,
                                 hash: string -> Hash, check: (Hash, string) -> bool)
    requires username in users || id !in UserIds(users)
    requires !check(hash(password), guess)
    ensures Login(Upsert(users, username, hash(password), id), username, guess, check) == None
  {
  }

  /** The upsert does not change who else can log in. */
  lemma UpsertLeavesOtherLogins(users: UserTable, username: string, hash: Hash, id: nat,
                                other: string, password: string, check: (Hash, string) -> bool)
    requires username in users || id !in UserIds(users)
    requires other != username
    ensures Login(Upsert(users, username, hash, id), other, password, check) == Login(users, other, password, check)
  {
  }

  /** The user table. */
  class UserStore {
    var users: UserTable

    ghost predicate Valid()
      reads this
    {
      WellFormed(users)
    }

    constructor ()
      ensures Valid() && users == map[]
    {
      users := map[];
    }

    /** `add_admin`: `set_password` on the existing row, or a new row. */
    method AddAdmin(username: string, password: string, hash: string -> Hash)
      requires Valid()
      modifies this
      ensures Valid() && username in users
      ensures username !in old(users) ==> users[username].id !in UserIds(old(users))
      ensures users == Upsert(old(users), username, hash(password), users[username].id)
    {
      if username in users {
        var admin := users[username];
        admin := admin.(passwordHash := hash(password));
        users := users[username := admin];
      } else {
        Ids.FreshIdExists(UserIds(users));
        var id :| id !in UserIds(users);
        var admin := User(id, username, hash(password));
        UpsertWellFormed(users, username, hash(password), id);
        users := users[username := admin];
      }
    }
  }
}
