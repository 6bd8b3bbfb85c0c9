/**
 * Clients of the store: the sign-up and sign-in sequences the application's
 * pages drive, stated as contracts that follow from the store's own.
 */
module Scenarios {
  import opened Wrappers
  import opened Hex
  import PyStr
  import opened Users

  /**
   * A fresh store with room for ten: "alice" registers, then tries to
   * register again with another password.
   */
  method SignUpScenario(sha: Digest, s1: seq<Byte>, s2: seq<Byte>, s3: seq<Byte>, s4: seq<Byte>)
    returns (created: Outcome<Reply>, again: Outcome<Reply>)
    requires |s1| == 16 && |s2| == 16 && |s3| == 16 && |s4| == 16
    ensures created == Returns(Reply(true, "Account created successfully."))
    ensures again == Returns(Reply(false, "That username is already taken."))
  {
    var store := new UserStore(sha, Missing);
    PyStr.StripKeepsTrimmed("alice");
    assert Validate([], 10, sha, "alice", "secret1") == Returns(None);
    created := store.Register("alice", "secret1", s1, s2);
    ghost var users := [NewRecord(sha, "alice", "secret1", s1, s2)];
    assert store.users == users;
    DuplicateRefused([], 10, sha, "alice", "secret1", s1, s2, "alice", "other12");
    again := store.Register("alice", "other12", s3, s4);
  }

  /** A name of two characters is refused, before anything else is looked at. */
  method ShortNameScenario(sha: Digest, file: StoredFile, maxUsers: int, s1: seq<Byte>, s2: seq<Byte>)
    returns (short: Outcome<Reply>)
    requires |s1| == 16 && |s2| == 16
    ensures short == Returns(Reply(false, "Username must be at least 3 characters."))
  {
    var store := new UserStore(sha, file, maxUsers);
    PyStr.StripCharacterized(" ab ", 1, 3);
    assert PyStr.Strip(" ab ") == "ab";
    short := store.Register(" ab ", "secret1", s1, s2);
  }

  /**
   * After "alice" registers with "secret1": her sign-in succeeds, a wrong
   * password fails, and "bob", who never registered, fails the same way.
   */
  method SignInScenario(sha: Digest, s1: seq<Byte>, s2: seq<Byte>)
    returns (good: Outcome<bool>, wrong: Outcome<bool>, unknown: Outcome<bool>)
    requires ValueInjective(sha)
    requires |s1| == 16 && |s2| == 16
    ensures good == Returns(true)
    ensures wrong == Returns(false)
    ensures unknown == Returns(false)
  {
    var store := new UserStore(sha, Missing);
    PyStr.StripKeepsTrimmed("alice");
    assert Validate([], 10, sha, "alice", "secret1") == Returns(None);
    var created := store.Register("alice", "secret1", s1, s2);
    assert store.users == [NewRecord(sha, "alice", "secret1", s1, s2)];
    good := store.CheckCredentials("alice", "secret1");
    WrongPasswordRefused([], 10, sha, "alice", "secret1", s1, s2, "wrongpw");
    wrong := store.CheckCredentials("alice", "wrongpw");
    OtherNamesUnaffected([], 10, sha, "alice", "secret1", s1, s2, "bob", "secret1");
    assert Credentials([], "bob", "secret1", sha) == Returns(false);
    unknown := store.CheckCredentials("bob", "secret1");
  }

  /**
   * Starting the application again over the file a store last saved: the
   * new store holds the same records, so the count and every sign-in answer
   * are those of the old store.
   */
  method Reopen(store: UserStore) returns (reopened: UserStore)
    requires store.disk == Decoded(store.users)
    ensures fresh(reopened) && reopened.maxUsers == store.maxUsers && reopened.sha == store.sha
    ensures reopened.users == store.users && reopened.disk == store.disk
    ensures reopened.Count() == store.Count()
    ensures forall name, password ::
      Credentials(reopened.users, name, password, reopened.sha) == Credentials(store.users, name, password, store.sha)
  {
    reopened := new UserStore(store.sha, Decoded(store.users), store.maxUsers);
  }

  /** "alice" registers; after a restart the store still has one record and her password still signs in. */
  method RestartScenario(sha: Digest, s1: seq<Byte>, s2: seq<Byte>)
    returns (countBefore: nat, countAfter: nat, signIn: Outcome<bool>)
    requires |s1| == 16 && |s2| == 16
    ensures countBefore == 1 && countAfter == 1
    ensures signIn == Returns(true)
  {
    var store := new UserStore(sha, Missing);
    PyStr.StripKeepsTrimmed("alice");
    assert Validate([], 10, sha, "alice", "secret1") == Returns(None);
    var created := store.Register("alice", "secret1", s1, s2);
    countBefore := store.Count();
    var reopened := Reopen(store);
    countAfter := reopened.Count();
    signIn := reopened.CheckCredentials("alice", "secret1");
  }

  /**
   * Ten different names fill a store with room for ten; every one is
   * accepted, and "extra" is then refused with the limit message.
   */
  method LimitScenario(sha: Digest, names: seq<string>, password: string,
                       saltsUser: seq<seq<Byte>>, saltsPw: seq<seq<Byte>>)
    returns (replies: seq<Outcome<Reply>>, last: Outcome<Reply>)
    requires ValueInjective(sha)
    requires |names| == 10 && |saltsUser| == 11 && |saltsPw| == 11
    requires forall i :: 0 <= i < 11 ==> |saltsUser[i]| == 16 && |saltsPw[i]| == 16
    requires forall i :: 0 <= i < 10 ==> PyStr.Strip(names[i]) == names[i] && |names[i]| >= 3
    requires forall i, j :: 0 <= i < j < 10 ==> names[i] != names[j]
    requires "extra" !in names
    requires |password| >= 6
    ensures |replies| == 10 && forall i :: 0 <= i < 10 ==> replies[i] == Returns(Reply(true, Created))
    ensures last == Returns(Reply(false, "User limit reached (10)."))
  {
    var store := new UserStore(sha, Missing);
    replies := Fill(store, names, password, saltsUser, saltsPw);
    PyStr.StripKeepsTrimmed("extra");
    NoOtherRecordMatches(store.users, sha, names, password, saltsUser, saltsPw, "extra");
    assert Validate(store.users, 10, sha, "extra", password) == Returns(Some(LimitReached));
    LimitMessageText();
    last := store.Register("extra", password, saltsUser[10], saltsPw[10]);
  }

  lemma LimitMessageText()
    ensures Message(LimitReached, 10) == "User limit reached (10)."
  {
    assert PyStr.IntToString(10) == "10";
  }

  /** Registers each of `names` in turn on an empty store. */
  method Fill(store: UserStore, names: seq<string>, password: string,
              saltsUser: seq<seq<Byte>>, saltsPw: seq<seq<Byte>>)
    returns (replies: seq<Outcome<Reply>>)
    requires ValueInjective(store.sha) && store.users == []
    requires |names| <= store.maxUsers && |names| <= |saltsUser| && |names| <= |saltsPw|
    requires forall i :: 0 <= i < |names| ==> |saltsUser[i]| == 16 && |saltsPw[i]| == 16
    requires forall i :: 0 <= i < |names| ==> PyStr.Strip(names[i]) == names[i] && |names[i]| >= 3
    requires forall i, j :: 0 <= i < j < |names| ==> names[i] != names[j]
    requires |password| >= 6
    modifies store
    ensures |replies| == |names| && forall i :: 0 <= i < |names| ==> replies[i] == Returns(Reply(true, Created))
    ensures |store.users| == |names|
    ensures forall j :: 0 <= j < |names| ==>
      store.users[j] == NewRecord(store.sha, names[j], password, saltsUser[j], saltsPw[j])
  {
    replies := [];
    var i := 0;
    while i < |names|
      invariant i <= |names| && |replies| == i && |store.users| == i
      invariant forall j :: 0 <= j < i ==> replies[j] == Returns(Reply(true, Created))
      invariant forall j :: 0 <= j < i ==>
        store.users[j] == NewRecord(store.sha, names[j], password, saltsUser[j], saltsPw[j])
    {
      NoOtherRecordMatches(store.users, store.sha, names, password, saltsUser, saltsPw, names[i]);
      var r := RegisterFresh(store, names[i], password, saltsUser[i], saltsPw[i]);
      replies := replies + [r];
      i := i + 1;
    }
  }

  /** A valid name that no record matches is accepted while there is room. */
  method RegisterFresh(store: UserStore, name: string, password: string, saltUser: seq<Byte>, saltPw: seq<Byte>)
    returns (r: Outcome<Reply>)
    requires |saltUser| == 16 && |saltPw| == 16
    requires PyStr.Strip(name) == name && |name| >= 3 && |password| >= 6
    requires |store.users| < store.maxUsers && Find(store.users, name, store.sha) == Returns(None)
    modifies store
    ensures r == Returns(Reply(true, Created))
    ensures store.users == old(store.users) + [NewRecord(store.sha, name, password, saltUser, saltPw)]
  {
    assert Validate(store.users, store.maxUsers, store.sha, name, password) == Returns(None);
    r := store.Register(name, password, saltUser, saltPw);
  }

  /** With a collision-free digest, a name none of the records was made from matches none of them. */
  lemma NoOtherRecordMatches(users: seq<User>, sha: Digest, names: seq<string>, password: string,
                             saltsUser: seq<seq<Byte>>, saltsPw: seq<seq<Byte>>, name: string)
    requires ValueInjective(sha)
    requires |users| <= |names| && |users| <= |saltsUser| && |users| <= |saltsPw|
    requires forall j :: 0 <= j < |users| ==>
      users[j] == NewRecord(sha, names[j], password, saltsUser[j], saltsPw[j])
    requires forall j :: 0 <= j < |users| ==> names[j] != name
    ensures Find(users, name, sha) == Returns(None)
  {
    FindNone(users, name, sha);
    forall j | 0 <= j < |users|
      ensures SaltReadable(users[j]) && !NameMatches(users[j], name, sha)
    {
      HashWithTokenSalt(sha, name, saltsUser[j]);
      assert sha(saltsUser[j], name) != sha(saltsUser[j], names[j]);
    }
  }
}
