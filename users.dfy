/**
 * The local credential store of the DCM (`UserStore` in core/users.py): an
 * insertion-ordered list of salted-hash records, with registration,
 * credential checking and a record count, bounded by `maxUsers`.
 */
module Users {
  import opened Wrappers
  import opened Hex
  import PyStr

  /** One stored account: nothing in it is plaintext. */
  datatype User = User(usernameHash: string, pwHash: string, saltUser: string, saltPw: string)

  /**
   * The digest the store uses: SHA-256 over the salt bytes followed by the
   * UTF-8 bytes of the value, written as hex. It is left abstract: any total
   * (hence deterministic) function of the salt and the value stands for it.
   */
  type Digest = (seq<Byte>, string) -> string

  /**
   * An idealised collision-free digest: for a fixed salt, different values
   * give different digests. Only the lemmas that name it rely on it.
   */
  ghost predicate ValueInjective(sha: Digest)
  {
    forall salt, v, w :: sha(salt, v) == sha(salt, w) ==> v == w
  }

  /**
   * A call either returns normally or raises the ValueError that
   * `bytes.fromhex` raises on a salt that is not hex; users.py catches it
   * nowhere, so it reaches the caller.
   */
  datatype Outcome<+T> = Returns(value: T) | RaisesValueError

  /**
   * `_hash_with_salt(value, salt_hex)`: it raises exactly when the salt is
   * not hex, and otherwise digests the bytes the salt text stands for.
   */
  function HashWithSalt(sha: Digest, value: string, saltHex: string): (r: Outcome<string>)
    ensures r.RaisesValueError? <==> FromHex(saltHex).None?
    ensures r.Returns? ==> r.value == sha(FromHex(saltHex).value, value)
  {
    match FromHex(saltHex)
    case None => RaisesValueError
    case Some(salt) => Returns(sha(salt, value))
  }

  /** A salt made by `token_hex` always reads back, so hashing with it never raises. */
  lemma HashWithTokenSalt(sha: Digest, value: string, salt: seq<Byte>)
    ensures HashWithSalt(sha, value, ToHex(salt)) == Returns(sha(salt, value))
  {
    FromHexToHex(salt);
  }

  predicate SaltReadable(rec: User)
  {
    FromHex(rec.saltUser).Some?
  }

  /** `rec` is the record of `name`: re-hashing `name` under `rec`'s salt gives `rec`'s hash. */
  predicate NameMatches(rec: User, name: string, sha: Digest)
  {
    HashWithSalt(sha, name, rec.saltUser) == Returns(rec.usernameHash)
  }

  predicate PasswordMatches(rec: User, password: string, sha: Digest)
  {
    HashWithSalt(sha, password, rec.saltPw) == Returns(rec.pwHash)
  }

  /** Records `lo` to `hi` (exclusive) were scanned without raising and without a match. */
  predicate ScannedClean(users: seq<User>, name: string, sha: Digest, lo: nat, hi: nat)
    requires lo <= hi <= |users|
  {
    forall j :: lo <= j < hi ==> SaltReadable(users[j]) && !NameMatches(users[j], name, sha)
  }

  /**
   * The scan of `_find_user` from position `i` on: the index of the first
   * matching record, `None` when no record matches, or the ValueError of the
   * first unreadable salt met before any match.
   */
  function FindFrom(users: seq<User>, name: string, sha: Digest, i: nat): (r: Outcome<Option<nat>>)
    requires i <= |users|
    ensures r.Returns? && r.value.Some? ==> i <= r.value.value < |users|
    decreases |users| - i
  {
    if i == |users| then Returns(None)
    else
      match HashWithSalt(sha, name, users[i].saltUser)
      case RaisesValueError => RaisesValueError
      case Returns(h) =>
        if h == users[i].usernameHash then Returns(Some(i)) else FindFrom(users, name, sha, i + 1)
  }

  /**
   * What the scan promises: a found index is the first record of `name`; no
   * match means every record was read and none is `name`'s; a ValueError
   * means an unreadable salt was met before any match.
   */
  lemma {:induction false} FindFromSpec(users: seq<User>, name: string, sha: Digest, i: nat)
    requires i <= |users|
    ensures var r := FindFrom(users, name, sha, i);
      && (r.Returns? && r.value.Some? ==>
            var k := r.value.value;
            NameMatches(users[k], name, sha) && ScannedClean(users, name, sha, i, k))
      && (r == Returns(None) ==> ScannedClean(users, name, sha, i, |users|))
      && (r.RaisesValueError? ==>
            exists k :: i <= k < |users| && !SaltReadable(users[k]) && ScannedClean(users, name, sha, i, k))
    decreases |users| - i
  {
    if i < |users| && HashWithSalt(sha, name, users[i].saltUser) != Returns(users[i].usernameHash) {
      FindFromSpec(users, name, sha, i + 1);
    }
  }

  /** The scan finds nothing exactly when every salt reads and no record is `name`'s. */
  lemma FindNone(users: seq<User>, name: string, sha: Digest)
    ensures Find(users, name, sha) == Returns(None) <==> ScannedClean(users, name, sha, 0, |users|)
  {
    FindFromSpec(users, name, sha, 0);
  }

  /** `_find_user(name)` over the whole list, as an index into it: a found index is a record of `name`. */
  function Find(users: seq<User>, name: string, sha: Digest): (r: Outcome<Option<nat>>)
    ensures r.Returns? && r.value.Some? ==> r.value.value < |users| && NameMatches(users[r.value.value], name, sha)
  {
    FindFromSpec(users, name, sha, 0);
    FindFrom(users, name, sha, 0)
  }

  /** Appending a record changes the scan only where the old list had no match. */
  lemma {:induction false} FindFromAppend(users: seq<User>, rec: User, name: string, sha: Digest, i: nat)
    requires i <= |users|
    ensures FindFrom(users + [rec], name, sha, i) ==
      if FindFrom(users, name, sha, i) == Returns(None) then FindFrom(users + [rec], name, sha, |users|)
      else FindFrom(users, name, sha, i)
    decreases |users| - i
  {
    if i < |users| {
      assert (users + [rec])[i] == users[i];
      FindFromAppend(users, rec, name, sha, i + 1);
    }
  }

  /** The scan of a list with one more record at the end. */
  lemma FindAppend(users: seq<User>, rec: User, name: string, sha: Digest)
    ensures Find(users + [rec], name, sha) ==
      if Find(users, name, sha) != Returns(None) then Find(users, name, sha)
      else match HashWithSalt(sha, name, rec.saltUser)
        case RaisesValueError => RaisesValueError
        case Returns(h) => if h == rec.usernameHash then Returns(Some(|users|)) else Returns(None)
  {
    FindFromAppend(users, rec, name, sha, 0);
    assert (users + [rec])[|users|] == rec;
  }

  // ---------- register ----------

  /** Why `register` refused, in the order it checks. */
  datatype Rejection = Required | ShortName | ShortPassword | Taken | LimitReached

  /** The message `register` returns with a refusal. */
  function Message(why: Rejection, maxUsers: int): (m: string)
  {
    match why
    case Required => "Username and password are required."
    case ShortName => "Username must be at least 3 characters."
    case ShortPassword => "Password must be at least 6 characters."
    case Taken => "That username is already taken."
    case LimitReached => "User limit reached (" + PyStr.IntToString(maxUsers) + ")."
  }

  /** The limit message, whatever the capacity, starts "User limit reached (" and ends ")." */
  lemma LimitMessagePrefix(m: int)
    ensures var x := Message(LimitReached, m);
      |x| > 22 && x[..20] == "User limit reached (" && x[|x| - 2..] == ")."
  {
    var prefix := "User limit reached (";
    assert Message(LimitReached, m) == prefix + PyStr.IntToString(m) + ").";
  }

  /**
   * Characters 0, 4 and 9 of the limit message, whatever the capacity:
   * those of "User limit", which no other message has at those places.
   */
  lemma LimitMessageKey(m: int)
    ensures var x := Message(LimitReached, m);
      |x| > 9 && x[0] == 'U' && x[4] == ' ' && x[9] == 't'
  {
    var prefix := "User limit reached (";
    assert Message(LimitReached, m) == prefix + PyStr.IntToString(m) + ").";
  }

  /** A caller can tell the refusals apart by their text alone: the five messages differ. */
  lemma MessagesDistinct(a: Rejection, b: Rejection, m: int, n: int)
    ensures Message(a, m) == Message(b, n) ==> a == b
  {
    LimitMessageKey(m);
    LimitMessageKey(n);
  }

  /** The limit message names the capacity it was given: different capacities, different texts. */
  lemma LimitMessageNamesCapacity(m: int, n: int)
    ensures Message(LimitReached, m) == Message(LimitReached, n) ==> m == n
  {
    if Message(LimitReached, m) == Message(LimitReached, n) {
      var x, y := PyStr.IntToString(m), PyStr.IntToString(n);
      var prefix := "User limit reached (";
      assert x == (prefix + x + ").")[|prefix|..|prefix| + |x|];
      assert |x| == |y|;
      assert y == (prefix + y + ").")[|prefix|..|prefix| + |y|];
      PyStr.IntToStringValue(m);
      PyStr.IntToStringValue(n);
    }
  }

  const Created := "Account created successfully."

  /** What `register` returns: `(ok, message)`. */
  datatype Reply = Reply(ok: bool, message: string)

  /**
   * The five checks of `register` on the already stripped `name`, first
   * failure wins; `Returns(None)` means all passed.
   */
  function Validate(users: seq<User>, maxUsers: int, sha: Digest, name: string, password: string)
    : (r: Outcome<Option<Rejection>>)
    ensures r == Returns(None) ==>
      |name| >= 3 && |password| >= 6 && |users| < maxUsers && ScannedClean(users, name, sha, 0, |users|)
  {
    FindNone(users, name, sha);
    if name == [] || password == [] then Returns(Some(Required))
    else if |name| < 3 then Returns(Some(ShortName))
    else if |password| < 6 then Returns(Some(ShortPassword))
    else
      match Find(users, name, sha)
      case RaisesValueError => RaisesValueError
      case Returns(Some(_)) => Returns(Some(Taken))
      case Returns(None) => if |users| >= maxUsers then Returns(Some(LimitReached)) else Returns(None)
  }

  /**
   * The order of the checks: each refusal happens exactly when its own check
   * fails and every earlier one passes, and registration goes ahead exactly
   * when all five pass. The password is the raw one; only the name is stripped.
   */
  lemma ValidationOrder(users: seq<User>, maxUsers: int, sha: Digest, name: string, password: string)
    ensures var r := Validate(users, maxUsers, sha, name, password);
      && (r == Returns(Some(Required)) <==> name == [] || password == [])
      && (r == Returns(Some(ShortName)) <==> name != [] && password != [] && |name| < 3)
      && (r == Returns(Some(ShortPassword)) <==> |name| >= 3 && password != [] && |password| < 6)
      && (r.RaisesValueError? <==> |name| >= 3 && |password| >= 6 && Find(users, name, sha).RaisesValueError?)
      && (r == Returns(Some(Taken)) <==>
            |name| >= 3 && |password| >= 6 && Find(users, name, sha).Returns? && Find(users, name, sha).value.Some?)
      && (r == Returns(Some(LimitReached)) <==>
            |name| >= 3 && |password| >= 6 && Find(users, name, sha) == Returns(None) && |users| >= maxUsers)
      && (r == Returns(None) <==>
            |name| >= 3 && |password| >= 6 && Find(users, name, sha) == Returns(None) && |users| < maxUsers)
  {
  }

  /**
   * The record a successful `register` appends, from the stripped name and
   * the two fresh salts: its salts read back, and it is the record of `name`
   * with password `password`.
   */
  function NewRecord(sha: Digest, name: string, password: string, saltUser: seq<Byte>, saltPw: seq<Byte>)
    : (r: User)
    ensures FromHex(r.saltUser) == Some(saltUser) && FromHex(r.saltPw) == Some(saltPw)
    ensures NameMatches(r, name, sha) && PasswordMatches(r, password, sha)
  {
    FromHexToHex(saltUser);
    FromHexToHex(saltPw);
    User(sha(saltUser, name), sha(saltPw, password), ToHex(saltUser), ToHex(saltPw))
  }

  // ---------- check_credentials ----------

  /** `check_credentials(name, password)`: the first record of `name` decides. */
  function Credentials(users: seq<User>, name: string, password: string, sha: Digest): (r: Outcome<bool>)
    ensures r == Returns(true) ==>
      exists k :: 0 <= k < |users| && NameMatches(users[k], name, sha) && PasswordMatches(users[k], password, sha)
    ensures Find(users, name, sha) == Returns(None) ==> r == Returns(false)
  {
    FindFromSpec(users, name, sha, 0);
    match Find(users, name, sha)
    case RaisesValueError => RaisesValueError
    case Returns(None) => Returns(false)
    case Returns(Some(k)) =>
      match HashWithSalt(sha, password, users[k].saltPw)
      case RaisesValueError => RaisesValueError
      case Returns(h) => Returns(h == users[k].pwHash)
  }

  /**
   * Both answers of `check_credentials`: true exactly when the first record
   * of `name` has `password`'s digest; false exactly when `name` has no
   * record, or its first record has a readable salt and another digest.
   */
  lemma CredentialsOutcome(users: seq<User>, name: string, password: string, sha: Digest)
    ensures var f := Find(users, name, sha);
      && (Credentials(users, name, password, sha) == Returns(true) <==>
            f.Returns? && f.value.Some? && PasswordMatches(users[f.value.value], password, sha))
      && (Credentials(users, name, password, sha) == Returns(false) <==>
            f == Returns(None) ||
            (f.Returns? && f.value.Some? && FromHex(users[f.value.value].saltPw).Some?
             && !PasswordMatches(users[f.value.value], password, sha)))
  {
  }

  // ---------- properties of register followed by other calls ----------

  /**
   * After a successful registration of `name`, checking `name` with any
   * `attempt` compares the attempt's digest with the password's under the
   * new password salt. Determinism of the digest is enough.
   */
  lemma LoginAfterRegister(users: seq<User>, maxUsers: int, sha: Digest, name: string, password: string,
                           saltUser: seq<Byte>, saltPw: seq<Byte>, attempt: string)
    requires Validate(users, maxUsers, sha, name, password) == Returns(None)
    ensures Credentials(users + [NewRecord(sha, name, password, saltUser, saltPw)], name, attempt, sha)
      == Returns(sha(saltPw, attempt) == sha(saltPw, password))
  {
    var rec := NewRecord(sha, name, password, saltUser, saltPw);
    FindAppend(users, rec, name, sha);
    HashWithTokenSalt(sha, name, saltUser);
    HashWithTokenSalt(sha, attempt, saltPw);
    assert (users + [rec])[|users|] == rec;
  }

  /** `register(u, p)` succeeding makes `check_credentials(strip(u), p)` true. */
  lemma RegisterThenLogin(users: seq<User>, maxUsers: int, sha: Digest, username: string, password: string,
                          saltUser: seq<Byte>, saltPw: seq<Byte>)
    requires Validate(users, maxUsers, sha, PyStr.Strip(username), password) == Returns(None)
    ensures var name := PyStr.Strip(username);
      Credentials(users + [NewRecord(sha, name, password, saltUser, saltPw)], name, password, sha) == Returns(true)
  {
    LoginAfterRegister(users, maxUsers, sha, PyStr.Strip(username), password, saltUser, saltPw, password);
  }

  /** With a collision-free digest, any other password is refused for the new account. */
  lemma WrongPasswordRefused(users: seq<User>, maxUsers: int, sha: Digest, name: string, password: string,
                             saltUser: seq<Byte>, saltPw: seq<Byte>, attempt: string)
    requires ValueInjective(sha)
    requires Validate(users, maxUsers, sha, name, password) == Returns(None)
    requires attempt != password
    ensures Credentials(users + [NewRecord(sha, name, password, saltUser, saltPw)], name, attempt, sha)
      == Returns(false)
  {
    LoginAfterRegister(users, maxUsers, sha, name, password, saltUser, saltPw, attempt);
  }

  /**
   * With a collision-free digest, registering `name` does not change the
   * outcome of checking any other name: an unknown user stays unknown.
   */
  lemma OtherNamesUnaffected(users: seq<User>, maxUsers: int, sha: Digest, name: string, password: string,
                             saltUser: seq<Byte>, saltPw: seq<Byte>, other: string, attempt: string)
    requires ValueInjective(sha)
    requires Validate(users, maxUsers, sha, name, password) == Returns(None)
    requires other != name
    ensures Credentials(users + [NewRecord(sha, name, password, saltUser, saltPw)], other, attempt, sha)
      == Credentials(users, other, attempt, sha)
  {
    var rec := NewRecord(sha, name, password, saltUser, saltPw);
    FindAppend(users, rec, other, sha);
    HashWithTokenSalt(sha, other, saltUser);
    assert sha(saltUser, other) != sha(saltUser, name);
    match Find(users, other, sha)
    case Returns(Some(k)) =>
      assert (users + [rec])[k] == users[k];
    case _ =>
  }

  /**
   * A second registration of the same stripped name is refused as taken,
   * whatever the password, once the password passes its own checks.
   */
  lemma DuplicateRefused(users: seq<User>, maxUsers: int, sha: Digest, username: string, password: string,
                         saltUser: seq<Byte>, saltPw: seq<Byte>, username2: string, password2: string)
    requires Validate(users, maxUsers, sha, PyStr.Strip(username), password) == Returns(None)
    requires PyStr.Strip(username2) == PyStr.Strip(username)
    ensures var name := PyStr.Strip(username);
      Validate(users + [NewRecord(sha, name, password, saltUser, saltPw)], maxUsers, sha, name, password2)
      == Returns(Some(if password2 == [] then Required else if |password2| < 6 then ShortPassword else Taken))
  {
    var name := PyStr.Strip(username);
    FindAppend(users, NewRecord(sha, name, password, saltUser, saltPw), name, sha);
    HashWithTokenSalt(sha, name, saltUser);
  }

  /** Some name is the name of both records. */
  ghost predicate SameName(a: User, b: User, sha: Digest)
  {
    exists w :: NameMatches(a, w, sha) && NameMatches(b, w, sha)
  }

  /** No name is the name of two records. */
  ghost predicate UniqueNames(users: seq<User>, sha: Digest)
  {
    forall i, j :: 0 <= i < j < |users| ==> !SameName(users[i], users[j], sha)
  }

  /** With a collision-free digest, a successful registration keeps names unique. */
  lemma RegisterKeepsNamesUnique(users: seq<User>, maxUsers: int, sha: Digest, name: string, password: string,
                                 saltUser: seq<Byte>, saltPw: seq<Byte>)
    requires ValueInjective(sha)
    requires UniqueNames(users, sha)
    requires Validate(users, maxUsers, sha, name, password) == Returns(None)
    ensures UniqueNames(users + [NewRecord(sha, name, password, saltUser, saltPw)], sha)
  {
    var rec := NewRecord(sha, name, password, saltUser, saltPw);
    var all := users + [rec];
    forall i, j, w | 0 <= i < j < |all| && NameMatches(all[i], w, sha)
      ensures !NameMatches(all[j], w, sha)
    {
      assert all[i] == users[i];
      if j < |users| {
        assert all[j] == users[j];
        assert !SameName(users[i], users[j], sha);
      } else {
        FindNone(users, name, sha);
        assert w != name;
        HashWithTokenSalt(sha, w, saltUser);
        assert sha(saltUser, w) != sha(saltUser, name);
      }
    }
  }

  // ---------- the store ----------

  /** What `_load` finds at the store's path. */
  datatype StoredFile = Missing | Unreadable | Decoded(records: seq<User>)

  class UserStore {
    const maxUsers: int
    /** The digest behind `_hash_with_salt`. */
    const sha: Digest
    var users: seq<User>
    /** What the last `_save` wrote to the path, or what was found there. */
    ghost var disk: StoredFile

    /** `count()`: the number of records. */
    function Count(): (n: nat)
      reads this
      ensures n == |users|
    {
      |users|
    }

    ghost predicate WithinCapacity()
      reads this
    {
      |users| <= maxUsers
    }

    /** `UserStore(path, max_users=10)`: `file` is what lies at `path`. */
    constructor (sha: Digest, file: StoredFile, maxUsers: int := 10)
      ensures this.maxUsers == maxUsers && this.sha == sha
      ensures users == if file.Decoded? then file.records else []
      ensures disk == if file.Missing? then Decoded([]) else file
    {
      this.maxUsers := maxUsers;
      this.sha := sha;
      users := [];
      disk := file;
      new;
      Load(file);
    }

    /**
     * `_load`: a missing file is first created holding the current list;
     * anything unreadable leaves an empty list and the file as it was.
     */
    method Load(file: StoredFile)
      requires file == disk
      modifies this
      ensures disk == if file.Missing? then Decoded(old(users)) else file
      ensures users == match file
        case Missing => old(users)
        case Unreadable => []
        case Decoded(records) => records
    {
      var contents := file;
      if contents.Missing? {
        Save();
        contents := Decoded(users);
      }
      users := if contents.Decoded? then contents.records else [];
    }

    /** `_save`: the whole list is written over the file. */
    method Save()
      modifies this`disk
      ensures disk == Decoded(users)
    {
      disk := Decoded(users);
    }

    /** `_find_user(name)`: the first record of `name`, by index. */
    method FindUser(name: string) returns (r: Outcome<Option<nat>>)
      ensures r == Find(users, name, sha)
    {
      var i := 0;
      while i < |users|
        invariant i <= |users|
        invariant Find(users, name, sha) == FindFrom(users, name, sha, i)
      {
        var h := HashWithSalt(sha, name, users[i].saltUser);
        if h.RaisesValueError? {
          return RaisesValueError;
        }
        if h.value == users[i].usernameHash {
          return Returns(Some(i));
        }
        i := i + 1;
      }
      return Returns(None);
    }

    /**
     * `register(username, password)`; `saltUser` and `saltPw` are the 16
     * random bytes each `secrets.token_hex(16)` call draws.
     */
    method Register(username: string, password: string, saltUser: seq<Byte>, saltPw: seq<Byte>)
      returns (r: Outcome<Reply>)
      requires |saltUser| == 16 && |saltPw| == 16
      modifies this
      ensures var name := PyStr.Strip(username);
        match Validate(old(users), maxUsers, sha, name, password)
        case RaisesValueError =>
          r == RaisesValueError && users == old(users) && disk == old(disk)
        case Returns(Some(why)) =>
          r == Returns(Reply(false, Message(why, maxUsers))) && users == old(users) && disk == old(disk)
        case Returns(None) =>
          r == Returns(Reply(true, Created))
          && users == old(users) + [NewRecord(sha, name, password, saltUser, saltPw)]
          && disk == Decoded(users)
      ensures r == Returns(Reply(true, Created)) <==> Count() == old(Count()) + 1
      ensures r != Returns(Reply(true, Created)) ==> users == old(users)
      ensures old(WithinCapacity()) ==> WithinCapacity()
      ensures r == Returns(Reply(true, Created)) ==>
        Credentials(users, PyStr.Strip(username), password, sha) == Returns(true)
    {
      var name := PyStr.Strip(username);
      ghost var verdict := Validate(users, maxUsers, sha, name, password);
      if name == [] || password == [] {
        assert verdict == Returns(Some(Required));
        return Returns(Reply(false, Message(Required, maxUsers)));
      }
      if |name| < 3 {
        assert verdict == Returns(Some(ShortName));
        return Returns(Reply(false, Message(ShortName, maxUsers)));
      }
      if |password| < 6 {
        assert verdict == Returns(Some(ShortPassword));
        return Returns(Reply(false, Message(ShortPassword, maxUsers)));
      }
      var found := FindUser(name);
      if found.RaisesValueError? {
        assert verdict == RaisesValueError;
        return RaisesValueError;
      }
      if found.value.Some? {
        assert verdict == Returns(Some(Taken));
        return Returns(Reply(false, Message(Taken, maxUsers)));
      }
      if Count() >= maxUsers {
        assert verdict == Returns(Some(LimitReached));
        return Returns(Reply(false, Message(LimitReached, maxUsers)));
      }
      assert verdict == Returns(None);
      var su := ToHex(saltUser);
      var sp := ToHex(saltPw);
      var userHash := HashWithSalt(sha, name, su);
      var pwHash := HashWithSalt(sha, password, sp);
      HashWithTokenSalt(sha, name, saltUser);
      HashWithTokenSalt(sha, password, saltPw);
      ghost var before := users;
      users := users + [User(userHash.value, pwHash.value, su, sp)];
      Save();
      RegisterThenLogin(before, maxUsers, sha, username, password, saltUser, saltPw);
      return Returns(Reply(true, Created));
    }

    /** `check_credentials(username, password)`; the name is used as given, not stripped. */
    method CheckCredentials(username: string, password: string) returns (r: Outcome<bool>)
      ensures r == Credentials(users, username, password, sha)
    {
      var found := FindUser(username);
      if found.RaisesValueError? {
        return RaisesValueError;
      }
      if found.value.None? {
        return Returns(false);
      }
      var u := users[found.value.value];
      var h := HashWithSalt(sha, password, u.saltPw);
      if h.RaisesValueError? {
        return RaisesValueError;
      }
      return Returns(h.value == u.pwHash);
    }
  }
}
