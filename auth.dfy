/**
 * The JSON-file user table of auth.py. The file holds a dict from user id to a record
 * {username, password (a hash), role}; every operation loads the file first, and a missing
 * file is seeded with the default admin. The dict is an ordered table of (id, record)
 * entries, since Python dicts iterate in insertion order and the lookups return the
 * first match. Password hashing is abstract: hashes arrive as parameters and
 * check_password_hash is a function parameter.
 */
module Auth {
  import opened Wrappers
  import opened Text

  datatype UserRecord = UserRecord(username: string, password: string, role: string)

  /** The User object handed back to callers: id, username and role, but no hash. */
  datatype User = User(id: string, username: string, role: string)

  type Table = seq<(string, UserRecord)>

  /** What sits on disk: no file, a file json.load cannot read, or a stored table. */
  datatype UsersFile = Missing | Corrupt | Stored(users: Table)

  /** The exceptions the operations let escape: an unreadable file, or an id int() rejects. */
  datatype AuthError = JsonDecodeError | ValueError

  /** User.is_admin. */
  predicate IsAdmin(u: User) {
    u.role == "admin"
  }

  /** A dict has no repeated keys. */
  predicate UniqueIds(t: Table) {
    forall i, j :: 0 <= i < j < |t| ==> t[i].0 != t[j].0
  }

  predicate UniqueNames(t: Table) {
    forall i, j :: 0 <= i < j < |t| ==> t[i].1.username != t[j].1.username
  }

  /** The table load_users writes when there is no file, with the hash of 'admin123'. */
  function Seed(adminHash: string): Table {
    [("1", UserRecord("admin", adminHash, "admin"))]
  }

  /** The table load_users returns for a readable (or missing) file. */
  function Loaded(f: UsersFile, adminHash: string): Table
    requires !f.Corrupt?
  {
    if f.Missing? then Seed(adminHash) else f.users
  }

  /** The file after load_users: a missing file has been created with the seed. */
  function AfterLoad(f: UsersFile, adminHash: string): UsersFile {
    if f.Missing? then Stored(Seed(adminHash)) else f
  }

  /** The file after an operation that saves `saved` when it is present. */
  function Written(f: UsersFile, adminHash: string, saved: Option<Table>): UsersFile {
    if saved.Some? then Stored(saved.value) else AfterLoad(f, adminHash)
  }

  /** The index of the first entry satisfying p, the order in which a loop over the dict meets it. */
  function FirstWhere<T>(xs: seq<T>, p: T -> bool): (r: Option<nat>)
    ensures r.Some? ==> r.value < |xs| && p(xs[r.value])
    ensures r.Some? ==> forall k :: 0 <= k < r.value ==> !p(xs[k])
    ensures r.None? ==> forall k :: 0 <= k < |xs| ==> !p(xs[k])
  {
    if |xs| == 0 then None
    else if p(xs[0]) then Some(0)
    else
      match FirstWhere(xs[1..], p)
      case None => None
      case Some(k) => Some(k + 1)
  }

  function IdIndex(t: Table, id: string): Option<nat> {
    FirstWhere(t, (e: (string, UserRecord)) => e.0 == id)
  }

  function NameIndex(t: Table, username: string): Option<nat> {
    FirstWhere(t, (e: (string, UserRecord)) => e.1.username == username)
  }

  function CheckIndex(t: Table, username: string, password: string, check: (string, string) -> bool): Option<nat> {
    FirstWhere(t, (e: (string, UserRecord)) => e.1.username == username && check(e.1.password, password))
  }

  function UserAt(t: Table, i: nat): User
    requires i < |t|
  {
    User(t[i].0, t[i].1.username, t[i].1.role)
  }

  function UserOf(t: Table, i: Option<nat>): Option<User>
    requires i.Some? ==> i.value < |t|
  {
    if i.Some? then Some(UserAt(t, i.value)) else None
  }

  /** User.get: the entry stored under the id, if any. */
  function UserWithId(t: Table, id: string): Option<User> {
    UserOf(t, IdIndex(t, id))
  }

  /** int() on a string: surrounding whitespace, an optional sign, then decimal digits. */
  function ParseInt(s: string): Option<int> {
    var t := Strip(s);
    if |t| > 0 && (t[0] == '+' || t[0] == '-') && IsDigitRun(t[1..]) then
      var v: int := DigitsValue(t[1..]);
      Some(if t[0] == '-' then -v else v)
    else if IsDigitRun(t) then Some(DigitsValue(t))
    else None
  }

  /** int() reads back what str() writes. */
  lemma ParseIntOfNatToString(n: nat)
    ensures ParseInt(NatToString(n)) == Some(n)
  {
    var s := NatToString(n);
    StripUnpadded(s);
    DigitsValueOfNatToString(n);
  }

  /** max([int(uid) for uid in users.keys()] + [0]), or the ValueError of the first bad id. */
  function MaxId(t: Table): (r: Result<int, AuthError>)
    ensures r.Success? <==> forall k :: 0 <= k < |t| ==> ParseInt(t[k].0).Some?
    ensures r.Failure? ==> r.error == ValueError
    ensures r.Success? ==> r.value >= 0
    ensures r.Success? ==> forall k :: 0 <= k < |t| ==> ParseInt(t[k].0).value <= r.value
    ensures r.Success? && r.value > 0 ==> exists k :: 0 <= k < |t| && ParseInt(t[k].0) == Some(r.value)
  {
    if |t| == 0 then Success(0)
    else
      var front := MaxId(t[..|t| - 1]);
      var last := ParseInt(t[|t| - 1].0);
      assert forall k :: 0 <= k < |t| - 1 ==> t[..|t| - 1][k] == t[k];
      if front.Failure? then front
      else if last.None? then Failure(ValueError)
      else if last.value > front.value then Success(last.value)
      else front
  }

  /** What create decides: the returned user (or None) and the table to save, if any. */
  function CreateOutcome(t: Table, username: string, hash: string, role: string)
    : (Result<Option<User>, AuthError>, Option<Table>)
  {
    if NameIndex(t, username).Some? then (Success(None), None)
    else
      match MaxId(t)
      case Failure(e) => (Failure(e), None)
      case Success(m) =>
        var id := NatToString(m + 1);
        (Success(Some(User(id, username, role))), Some(t + [(id, UserRecord(username, hash, role))]))
  }

  /** What change_password decides: the answer and the table to save, if any. */
  function ChangePasswordOutcome(t: Table, id: string, hash: string): (bool, Option<Table>) {
    match IdIndex(t, id)
    case None => (false, None)
    case Some(i) => (true, Some(t[i := (id, t[i].1.(password := hash))]))
  }

  /** What delete_user decides: the default admin '1' is never deleted. */
  function DeleteOutcome(t: Table, id: string): (bool, Option<Table>) {
    match IdIndex(t, id)
    case None => (false, None)
    case Some(i) => if id == "1" then (false, None) else (true, Some(t[..i] + t[i + 1..]))
  }

  /** The listing of list_all. */
  function Listing(t: Table): (r: seq<User>)
    ensures |r| == |t|
    ensures forall k :: 0 <= k < |t| ==> r[k] == UserAt(t, k)
  {
    seq(|t|, k requires 0 <= k < |t| => UserAt(t, k))
  }

  class UserStore {
    var file: UsersFile
    /** The hash that generate_password_hash('admin123') yields when the seed is written. */
    const adminHash: string

    predicate Valid()
      reads this
    {
      file.Stored? ==> UniqueIds(file.users)
    }

    constructor (initial: UsersFile, adminHash: string)
      requires initial.Stored? ==> UniqueIds(initial.users)
      ensures file == initial && this.adminHash == adminHash
      ensures Valid()
    {
      file := initial;
      this.adminHash := adminHash;
    }

    /** save_users. */
    method Save(users: Table)
      modifies this
      ensures file == Stored(users)
    {
      file := Stored(users);
    }

    /** load_users. */
    method Load() returns (r: Result<Table, AuthError>)
      requires Valid()
      modifies this
      ensures Valid()
      ensures old(file).Corrupt? ==> r == Failure(JsonDecodeError) && file == old(file)
      ensures !old(file).Corrupt? ==> r == Success(Loaded(old(file), adminHash)) && file == AfterLoad(old(file), adminHash)
      ensures r.Success? ==> UniqueIds(r.value)
    {
      match file
      case Missing =>
        var defaults := Seed(adminHash);
        Save(defaults);
        r := Success(defaults);
      case Corrupt =>
        r := Failure(JsonDecodeError);
      case Stored(users) =>
        r := Success(users);
    }

    /** User.get. */
    method Get(id: string) returns (r: Result<Option<User>, AuthError>)
      requires Valid()
      modifies this
      ensures Valid()
      ensures old(file).Corrupt? ==> r == Failure(JsonDecodeError) && file == old(file)
      ensures !old(file).Corrupt? ==> r == Success(UserWithId(Loaded(old(file), adminHash), id)) && file == AfterLoad(old(file), adminHash)
    {
      var loaded := Load();
      if loaded.Failure? {
        return Failure(loaded.error);
      }
      var users := loaded.value;
      var i := IdIndex(users, id);
      if i.Some? {
        var data := users[i.value].1;
        return Success(Some(User(id, data.username, data.role)));
      }
      return Success(None);
    }

    /** User.get_by_username: the first entry, in table order, with that username. */
    method GetByUsername(username: string) returns (r: Result<Option<User>, AuthError>)
      requires Valid()
      modifies this
      ensures Valid()
      ensures old(file).Corrupt? ==> r == Failure(JsonDecodeError) && file == old(file)
      ensures !old(file).Corrupt? ==> file == AfterLoad(old(file), adminHash)
      ensures !old(file).Corrupt? ==> var t := Loaded(old(file), adminHash);
        r == Success(UserOf(t, NameIndex(t, username)))
    {
      var loaded := Load();
      if loaded.Failure? {
        return Failure(loaded.error);
      }
      var users := loaded.value;
      var k := 0;
      while k < |users|
        invariant k <= |users|
        invariant forall j :: 0 <= j < k ==> users[j].1.username != username
      {
        if users[k].1.username == username {
          return Success(Some(User(users[k].0, users[k].1.username, users[k].1.role)));
        }
        k := k + 1;
      }
      return Success(None);
    }

    /** User.verify_password: the first entry with that username whose hash accepts the password. */
    method VerifyPassword(username: string, password: string, check: (string, string) -> bool)
      returns (r: Result<Option<User>, AuthError>)
      requires Valid()
      modifies this
      ensures Valid()
      ensures old(file).Corrupt? ==> r == Failure(JsonDecodeError) && file == old(file)
      ensures !old(file).Corrupt? ==> file == AfterLoad(old(file), adminHash)
      ensures !old(file).Corrupt? ==> var t := Loaded(old(file), adminHash);
        r == Success(UserOf(t, CheckIndex(t, username, password, check)))
    {
      var loaded := Load();
      if loaded.Failure? {
        return Failure(loaded.error);
      }
      var users := loaded.value;
      var k := 0;
      while k < |users|
        invariant k <= |users|
        invariant forall j :: 0 <= j < k ==> !(users[j].1.username == username && check(users[j].1.password, password))
      {
        if users[k].1.username == username {
          if check(users[k].1.password, password) {
            return Success(Some(User(users[k].0, users[k].1.username, users[k].1.role)));
          }
        }
        k := k + 1;
      }
      return Success(None);
    }

    /** User.create, with `hash` the value generate_password_hash(password) yields. */
    method Create(username: string, hash: string, role: string) returns (r: Result<Option<User>, AuthError>)
      requires Valid()
      modifies this
      ensures Valid()
      ensures old(file).Corrupt? ==> r == Failure(JsonDecodeError) && file == old(file)
      ensures !old(file).Corrupt? ==> var o := CreateOutcome(Loaded(old(file), adminHash), username, hash, role);
        r == o.0 && file == Written(old(file), adminHash, o.1)
    {
      var loaded := Load();
      if loaded.Failure? {
        return Failure(loaded.error);
      }
      var users := loaded.value;
      ghost var t := users;
      var k := 0;
      while k < |users|
        invariant k <= |users|
        invariant forall j :: 0 <= j < k ==> users[j].1.username != username
      {
        if users[k].1.username == username {
          return Success(None);
        }
        k := k + 1;
      }
      assert NameIndex(t, username).None?;
      var highest := HighestId(users);
      if highest.Failure? {
        return Failure(highest.error);
      }
      var userId := NatToString(highest.value + 1);
      NewIdFresh(users, highest.value);
      users := users + [(userId, UserRecord(username, hash, role))];
      Save(users);
      return Success(Some(User(userId, username, role)));
    }

    /** change_password, with `hash` the value generate_password_hash(new_password) yields. */
    method ChangePassword(id: string, hash: string) returns (r: Result<bool, AuthError>)
      requires Valid()
      modifies this
      ensures Valid()
      ensures old(file).Corrupt? ==> r == Failure(JsonDecodeError) && file == old(file)
      ensures !old(file).Corrupt? ==> var o := ChangePasswordOutcome(Loaded(old(file), adminHash), id, hash);
        r == Success(o.0) && file == Written(old(file), adminHash, o.1)
    {
      var loaded := Load();
      if loaded.Failure? {
        return Failure(loaded.error);
      }
      var users := loaded.value;
      var i := IdIndex(users, id);
      if i.Some? {
        users := users[i.value := (id, users[i.value].1.(password := hash))];
        ChangePasswordKeepsIds(loaded.value, id, hash);
        Save(users);
        return Success(true);
      }
      return Success(false);
    }

    /** delete_user. */
    method DeleteUser(id: string) returns (r: Result<bool, AuthError>)
      requires Valid()
      modifies this
      ensures Valid()
      ensures old(file).Corrupt? ==> r == Failure(JsonDecodeError) && file == old(file)
      ensures !old(file).Corrupt? ==> var o := DeleteOutcome(Loaded(old(file), adminHash), id);
        r == Success(o.0) && file == Written(old(file), adminHash, o.1)
    {
      var loaded := Load();
      if loaded.Failure? {
        return Failure(loaded.error);
      }
      var users := loaded.value;
      var i := IdIndex(users, id);
      if i.Some? && id != "1" {
        users := users[..i.value] + users[i.value + 1..];
        DeleteKeepsIds(loaded.value, id);
        Save(users);
        return Success(true);
      }
      return Success(false);
    }

    /** User.list_all. */
    method ListAll() returns (r: Result<seq<User>, AuthError>)
      requires Valid()
      modifies this
      ensures Valid()
      ensures old(file).Corrupt? ==> r == Failure(JsonDecodeError) && file == old(file)
      ensures !old(file).Corrupt? ==> r == Success(Listing(Loaded(old(file), adminHash))) && file == AfterLoad(old(file), adminHash)
    {
      var loaded := Load();
      if loaded.Failure? {
        return Failure(loaded.error);
      }
      var users := loaded.value;
      var listing: seq<User> := [];
      for k := 0 to |users|
        invariant listing == Listing(users[..k])
      {
        assert users[..k + 1][..k] == users[..k];
        listing := listing + [User(users[k].0, users[k].1.username, users[k].1.role)];
      }
      assert users[..|users|] == users;
      return Success(listing);
    }
  }

  /** The comprehension and max() of create: the largest integer id, at least 0. */
  method HighestId(users: Table) returns (r: Result<int, AuthError>)
    ensures r == MaxId(users)
  {
    var highest := 0;
    for k := 0 to |users|
      invariant MaxId(users[..k]) == Success(highest)
    {
      assert users[..k + 1][..k] == users[..k];
      var id := ParseInt(users[k].0);
      if id.None? {
        MaxIdPrefixFails(users, k + 1);
        return Failure(ValueError);
      }
      if id.value > highest {
        highest := id.value;
      }
    }
    assert users[..|users|] == users;
    return Success(highest);
  }

  /** Once an id in the prefix is not an integer, the whole maximum fails. */
  lemma {:induction false} MaxIdPrefixFails(t: Table, n: nat)
    requires n <= |t|
    requires MaxId(t[..n]).Failure?
    ensures MaxId(t).Failure?
  {
    var k :| 0 <= k < n && ParseInt(t[..n][k].0).None?;
    assert t[k] == t[..n][k];
  }

  /** The id create generates is not already a key. */
  lemma NewIdFresh(t: Table, m: int)
    requires MaxId(t) == Success(m)
    ensures forall k :: 0 <= k < |t| ==> t[k].0 != NatToString(m + 1)
  {
    ParseIntOfNatToString(m + 1);
    forall k | 0 <= k < |t| ensures t[k].0 != NatToString(m + 1) {
      assert ParseInt(t[k].0) != ParseInt(NatToString(m + 1)) by {
        assert ParseInt(t[k].0).value <= m;
      }
    }
  }

  lemma ChangePasswordKeepsIds(t: Table, id: string, hash: string)
    requires UniqueIds(t)
    requires IdIndex(t, id).Some?
    ensures ChangePasswordOutcome(t, id, hash).1.Some?
    ensures UniqueIds(ChangePasswordOutcome(t, id, hash).1.value)
  {
  }

  lemma DeleteKeepsIds(t: Table, id: string)
    requires UniqueIds(t)
    requires IdIndex(t, id).Some? && id != "1"
    ensures DeleteOutcome(t, id).1.Some?
    ensures UniqueIds(DeleteOutcome(t, id).1.value)
  {
    var i := IdIndex(t, id).value;
    var t' := t[..i] + t[i + 1..];
    forall a, b | 0 <= a < b < |t'| ensures t'[a].0 != t'[b].0 {
      var a' := if a < i then a else a + 1;
      var b' := if b < i then b else b + 1;
      assert t'[a] == t[a'] && t'[b] == t[b'];
    }
  }

  /** The index an id lookup finds is pinned down by where the id first occurs. */
  lemma IdIndexIs(t: Table, id: string, i: nat)
    requires i < |t| && t[i].0 == id
    requires forall k :: 0 <= k < i ==> t[k].0 != id
    ensures IdIndex(t, id) == Some(i)
  {
  }

  lemma NameIndexIs(t: Table, username: string, i: nat)
    requires i < |t| && t[i].1.username == username
    requires forall k :: 0 <= k < i ==> t[k].1.username != username
    ensures NameIndex(t, username) == Some(i)
  {
  }

  lemma IdIndexNone(t: Table, id: string)
    requires forall k :: 0 <= k < |t| ==> t[k].0 != id
    ensures IdIndex(t, id) == None
  {
  }

  /** In a table with unique ids the entry holding an id is the one a lookup finds. */
  lemma UniqueIdAt(t: Table, id: string, i: nat)
    requires UniqueIds(t)
    requires i < |t| && t[i].0 == id
    ensures IdIndex(t, id) == Some(i)
  {
    forall k | 0 <= k < i ensures t[k].0 != id {
      assert t[k].0 != t[i].0;
    }
    IdIndexIs(t, id, i);
  }

  /** With no file, the table is the default admin, found under id '1' and by name. */
  lemma SeedIsAdmin(adminHash: string)
    ensures UserWithId(Loaded(Missing, adminHash), "1") == Some(User("1", "admin", "admin"))
    ensures IsAdmin(User("1", "admin", "admin"))
    ensures AfterLoad(Missing, adminHash) == Stored(Seed(adminHash))
  {
    IdIndexIs(Seed(adminHash), "1", 0);
  }

  /** create refuses a taken username and saves nothing. */
  lemma CreateRefusesTaken(t: Table, username: string, hash: string, role: string, i: nat)
    requires i < |t| && t[i].1.username == username
    ensures CreateOutcome(t, username, hash, role) == (Success(None), None)
  {
    assert NameIndex(t, username).Some?;
  }

  /** create fails with ValueError when the name is free but some id is not an integer. */
  lemma CreateRejectsBadId(t: Table, username: string, hash: string, role: string, i: nat)
    requires forall k :: 0 <= k < |t| ==> t[k].1.username != username
    requires i < |t| && ParseInt(t[i].0).None?
    ensures CreateOutcome(t, username, hash, role) == (Failure(ValueError), None)
  {
    assert NameIndex(t, username).None?;
  }

  /**
   * A successful create appends exactly {username, hash, role} under an id no entry had,
   * returns that user, keeps the ids unique, and every other id looks up as before.
   */
  lemma CreateStores(t: Table, username: string, hash: string, role: string)
    requires UniqueIds(t)
    requires forall k :: 0 <= k < |t| ==> t[k].1.username != username
    requires forall k :: 0 <= k < |t| ==> ParseInt(t[k].0).Some?
    ensures var o := CreateOutcome(t, username, hash, role);
      o.0.Success? && o.0.value.Some? && o.1.Some? &&
      var u := o.0.value.value;
      u.username == username && u.role == role &&
      (forall k :: 0 <= k < |t| ==> t[k].0 != u.id) &&
      o.1.value == t + [(u.id, UserRecord(username, hash, role))] &&
      UniqueIds(o.1.value) &&
      UserWithId(o.1.value, u.id) == Some(u) &&
      (forall x :: x != u.id ==> UserWithId(o.1.value, x) == UserWithId(t, x))
  {
    assert NameIndex(t, username).None?;
    var m := MaxId(t).value;
    var id := NatToString(m + 1);
    NewIdFresh(t, m);
    var t' := t + [(id, UserRecord(username, hash, role))];
    IdIndexIs(t', id, |t|);
    forall x | x != id ensures UserWithId(t', x) == UserWithId(t, x) {
      match IdIndex(t, x)
      case None =>
        IdIndexNone(t', x);
      case Some(j) =>
        IdIndexIs(t', x, j);
    }
  }

  /** A created user is what get_by_username then finds, when its name was free. */
  lemma CreateThenFind(t: Table, username: string, hash: string, role: string)
    requires forall k :: 0 <= k < |t| ==> t[k].1.username != username
    requires MaxId(t).Success?
    ensures var o := CreateOutcome(t, username, hash, role);
      o.1.Some? && o.0 == Success(UserOf(o.1.value, NameIndex(o.1.value, username)))
  {
    assert NameIndex(t, username).None?;
    var t' := CreateOutcome(t, username, hash, role).1.value;
    forall k | 0 <= k < |t| ensures t'[k].1.username != username {
      assert t'[k] == t[k];
    }
    NameIndexIs(t', username, |t|);
  }

  /** change_password: for a known id only its password changes; an unknown id changes nothing. */
  lemma ChangePasswordOnly(t: Table, id: string, hash: string)
    requires UniqueIds(t)
    ensures var o := ChangePasswordOutcome(t, id, hash);
      (o.0 <==> exists k :: 0 <= k < |t| && t[k].0 == id) &&
      (!o.0 ==> o.1 == None) &&
      (o.0 ==>
        o.1.Some? && |o.1.value| == |t| && UniqueIds(o.1.value) &&
        (forall k :: 0 <= k < |t| && t[k].0 != id ==> o.1.value[k] == t[k]) &&
        (forall k :: 0 <= k < |t| && t[k].0 == id ==>
          o.1.value[k] == (id, UserRecord(t[k].1.username, hash, t[k].1.role))) &&
        (forall x :: UserWithId(o.1.value, x) == UserWithId(t, x)))
  {
    var o := ChangePasswordOutcome(t, id, hash);
    match IdIndex(t, id)
    case None =>
    case Some(i) =>
      var t' := o.1.value;
      forall k | 0 <= k < |t| && t[k].0 == id ensures k == i {
        UniqueIdAt(t, id, k);
      }
      forall x ensures UserWithId(t', x) == UserWithId(t, x) {
        match IdIndex(t, x)
        case None =>
          IdIndexNone(t', x);
        case Some(j) =>
          IdIndexIs(t', x, j);
      }
  }

  /**
   * delete_user: id '1' and unknown ids are refused with nothing saved; otherwise exactly
   * that entry goes, and every other id looks up as before.
   */
  lemma DeleteRemovesOne(t: Table, id: string)
    requires UniqueIds(t)
    ensures var o := DeleteOutcome(t, id);
      (o.0 <==> id != "1" && exists k :: 0 <= k < |t| && t[k].0 == id) &&
      (!o.0 ==> o.1 == None) &&
      (o.0 ==>
        o.1.Some? && |o.1.value| == |t| - 1 && UniqueIds(o.1.value) &&
        UserWithId(o.1.value, id) == None &&
        (forall x :: x != id ==> UserWithId(o.1.value, x) == UserWithId(t, x)))
  {
    var o := DeleteOutcome(t, id);
    match IdIndex(t, id)
    case None =>
    case Some(i) =>
      if id != "1" {
        var t' := o.1.value;
        DeleteKeepsIds(t, id);
        forall k | 0 <= k < |t'| ensures t'[k].0 != id {
          var k' := if k < i then k else k + 1;
          assert t'[k] == t[k'];
          assert t[k'].0 != t[i].0;
        }
        IdIndexNone(t', id);
        forall x | x != id ensures UserWithId(t', x) == UserWithId(t, x) {
          match IdIndex(t, x)
          case None =>
            forall k | 0 <= k < |t'| ensures t'[k].0 != x {
              var k' := if k < i then k else k + 1;
              assert t'[k] == t[k'];
            }
            IdIndexNone(t', x);
          case Some(j) =>
            var j' := if j < i then j else j - 1;
            assert t'[j'] == t[j];
            UniqueIdAt(t', x, j');
        }
      }
  }

  /**
   * With unique usernames, verify_password is get_by_username followed by the hash check;
   * in any table the user it returns has the name and passes the check.
   */
  lemma VerifyIsLookupThenCheck(t: Table, username: string, password: string, check: (string, string) -> bool)
    ensures var c := CheckIndex(t, username, password, check);
      c.Some? ==> t[c.value].1.username == username && check(t[c.value].1.password, password)
    ensures UniqueNames(t) ==>
      var n := NameIndex(t, username);
      CheckIndex(t, username, password, check) ==
        (if n.Some? && check(t[n.value].1.password, password) then n else None)
  {
    if UniqueNames(t) {
      var n := NameIndex(t, username);
      var c := CheckIndex(t, username, password, check);
      if c.Some? {
        assert n.Some?;
        assert t[n.value].1.username == t[c.value].1.username;
        assert n.value == c.value;
      } else if n.Some? {
        assert !check(t[n.value].1.password, password);
      }
    }
  }
}
