# DCM credential store, modelled in Dafny

The DCM application keeps its local accounts in `UserStore`, in
`DCM/src/core/users.py`. A store is a list of `User` records kept in
insertion order, together with a capacity `max_users`. Each record holds four
strings: the salted SHA-256 digest of the user name, the salted digest of the
password, and the two salts, written in hex. No plaintext is stored.

The store offers three operations:

- `register` strips the name. It then applies five checks in a fixed order
  and returns `(False, message)` at the first one that fails. If all pass, it
  draws two fresh salts, appends the new record and rewrites the file.
- `check_credentials` finds the first record whose salted name digest matches
  the name it is given. It then compares the password's digest under that
  record's password salt.
- `count` returns the number of records.

Files:

- `users.dfy` (module `Users`) holds the record, the salted hash, the
  specification functions for the scan (`Find`), the checks of `register`
  (`Validate`) and `check_credentials` (`Credentials`), and the lemmas that
  relate several calls. It also holds the class `UserStore`. The class has a
  `users` field that `Register` reassigns, and a ghost `disk` field that
  stands for the file `_save` writes. `FindUser` is the scanning loop of
  `_find_user`, proved against `Find`.
- `hex.dfy` (module `Hex`) models `bytes.fromhex` as `FromHex` and
  `token_hex` / `bytes.hex` as `ToHex`. `FromHex` returns `None` where Python
  raises `ValueError`. A salt the store wrote itself always reads back.
- `pystr.dfy` (module `PyStr`) models `str.strip()` over Python's whitespace
  set. It also models `str(int)`, which appears in the limit message.
- `scenarios.dfy` (module `Scenarios`) holds whole sequences of calls with
  their exact replies. These cover sign-up, sign-in, a short name on any
  store, filling a store to its limit, and a restart over the saved file.
  It also holds the helper steps those sequences use: `Reopen`, `Fill` and
  `RegisterFresh`.
- `wrappers.dfy` holds `Option`.

The hash is not modelled. The store gets an arbitrary total function
`sha: Digest`, from salt bytes and a value to a digest string. Most
properties follow from that function being deterministic, which every Dafny
function is. The few properties that need a collision-free digest take
`ValueInjective(sha)` as an explicit hypothesis.

A stored salt that is not valid hex makes `bytes.fromhex` raise. Nothing in
`users.py` catches that error, so it reaches the caller. The model keeps this
path as `Outcome.RaisesValueError`. Only a file written by something other
than the store can produce it.

## Model

| member | source | states |
|---|---|---|
| Users.HashWithSalt | DCM/src/core/users.py:14-17 | `_hash_with_salt` raises exactly when the salt text is not hex. Otherwise it is the digest of the bytes that text stands for, followed by the value. |
| Users.HashWithTokenSalt | DCM/src/core/users.py:14-17 | Hashing under a salt that `token_hex` produced never raises, and yields the digest of the salt's own bytes and the value. |
| Hex.FromHexToHex | DCM/src/core/users.py:16 | Reading the hex text of any byte string with `FromHex` gives back exactly those bytes. |
| Hex.FromHex | DCM/src/core/users.py:16 | A successful parse yields at most half as many bytes as the text has characters. |
| Hex.FromHexExamples | DCM/src/core/users.py:16 | An odd digit count and a non-hex digit are both refused; whitespace before a pair is skipped, and either case is read. |
| Hex.ToHex | DCM/src/core/users.py:72-73 | A 16-byte salt is written as 32 characters, all hex digits and none of them upper case. |
| Users.FindFrom | DCM/src/core/users.py:48-53 | A found index lies between the scan's start and the end of the list. |
| Users.FindFromSpec | DCM/src/core/users.py:46-53 | A found index is a record of the name, and every earlier record was readable and not the name's. No match means every record was readable and none is the name's. A ValueError means an unreadable salt came before any match. |
| Users.Find | DCM/src/core/users.py:46-53 | `_find_user` over the whole list: a found index is in the list, and that record is the name's. |
| Users.FindNone | DCM/src/core/users.py:48-53 | The scan finds nothing exactly when every salt reads and no record is the name's. |
| Users.FindAppend | DCM/src/core/users.py:48-53 | Appending a record changes the scan's result only when the old list had no match. In that case the result is decided by the new record alone. |
| Users.UserStore.FindUser | DCM/src/core/users.py:46-53 | The loop returns what `Find` specifies, so the first match wins. The method reads the store and changes nothing. |
| Users.Validate | DCM/src/core/users.py:59-69 | The five checks of `register`. When all pass, the name has at least 3 characters, the password at least 6, there is room, and every record was scanned without a match. |
| Users.MessagesDistinct | DCM/src/core/users.py:60-69 | The five refusal messages are pairwise different, so each reply names its reason. |
| Users.LimitMessageNamesCapacity | DCM/src/core/users.py:68-69 | The limit message determines the `max_users` it shows. |
| Users.LimitMessagePrefix | DCM/src/core/users.py:69 | Whatever the capacity, the limit message starts with "User limit reached (" and ends with ").". |
| Users.LimitMessageKey | DCM/src/core/users.py:69 | Whatever the capacity, characters 0, 4 and 9 of the limit message are 'U', ' ' and 't', as in "User limit". No other message has that combination. |
| Users.ValidationOrder | DCM/src/core/users.py:59-69 | Each refusal happens exactly when its own check fails and every earlier check passes. Registration goes ahead exactly when all five pass. Empty name or password comes first, then a name under 3, a password under 6, a taken name, and the capacity. The password is checked raw. |
| Users.UserStore.Register | DCM/src/core/users.py:58-80 | The reply and the new state follow `Validate` on the stripped name. A refusal gives its exact message and leaves the list and the file unchanged, and so does a ValueError. A success appends exactly `NewRecord(sha, strip(u), p, saltUser, saltPw)` and saves the whole list. The count grows by one exactly on success. `count <= max_users` is kept. The new account then logs in with the stripped name. |
| Users.NewRecord | DCM/src/core/users.py:72-78 | The appended record's salts read back as the drawn bytes. The record is the record of the stripped name and has the password's digest. |
| Users.RegisterThenLogin | DCM/src/core/users.py:66-86 | After a successful `register(u, p)`, `check_credentials(strip(u), p)` is true. Determinism alone is enough. |
| Users.LoginAfterRegister | DCM/src/core/users.py:75-86 | After a successful registration, checking the name with any attempt compares the attempt's digest with the password's, under the new password salt. |
| Users.WrongPasswordRefused | DCM/src/core/users.py:82-86 | With a collision-free digest, any other password is refused for the new account. |
| Users.OtherNamesUnaffected | DCM/src/core/users.py:66-86 | With a collision-free digest, registering a name changes nothing for any other name. |
| Users.DuplicateRefused | DCM/src/core/users.py:59-67 | A second registration with the same stripped name is refused as taken, whatever its password, once that password passes its own checks. |
| Users.RegisterKeepsNamesUnique | DCM/src/core/users.py:66-78 | With a collision-free digest, a successful registration keeps every name the name of at most one record. |
| Users.Credentials | DCM/src/core/users.py:82-86 | A true answer means some record matches both the name and the password. An unknown name gives false. |
| Users.CredentialsOutcome | DCM/src/core/users.py:82-86 | Both directions: true exactly when the first record of the name has the password's digest. False exactly when the name is unknown, or its first record has another digest under a readable salt. |
| Users.UserStore.CheckCredentials | DCM/src/core/users.py:82-86 | The method computes `Credentials` on the current list and changes nothing. |
| Users.UserStore.Count | DCM/src/core/users.py:56 | `count()` is the number of records in the list. |
| Users.UserStore.constructor | DCM/src/core/users.py:23-27 | The capacity defaults to 10, as `max_users` does, and is fixed along with the digest. The list is what `_load` read. A missing file is created empty. |
| Users.UserStore.Load | DCM/src/core/users.py:30-38 | A missing file is first written with the current list. Records that decode are taken as they are. Anything that does not decode leaves an empty list and the file as it was. |
| Users.UserStore.Save | DCM/src/core/users.py:40-43 | The file afterwards holds exactly the current list. |
| PyStr.Strip | DCM/src/core/users.py:59 | The result is no longer than the input, and when it is non-empty it neither starts nor ends with whitespace. |
| PyStr.StripLeading | DCM/src/core/users.py:59 | The left strip is no longer than its input, and a non-empty result does not start with whitespace. |
| PyStr.StripTrailing | DCM/src/core/users.py:59 | The right strip is no longer than its input, and a non-empty result does not end with whitespace. |
| PyStr.StripCharacterized | DCM/src/core/users.py:59 | When only whitespace lies outside `s[i..j]`, and that slice neither starts nor ends with whitespace, `strip()` gives exactly that slice. |
| PyStr.StripLeadingSpec | DCM/src/core/users.py:59 | The left strip removes a prefix that is all whitespace and stops at a non-space character. |
| PyStr.StripTrailingSpec | DCM/src/core/users.py:59 | The right strip removes a suffix that is all whitespace and stops at a non-space character. |
| PyStr.StripAllSpace | DCM/src/core/users.py:59-61 | A name made only of whitespace strips to the empty name, so it is refused as required. |
| PyStr.NatToString | DCM/src/core/users.py:69 | `str(n)` for `n >= 0` is a non-empty string of digits with no leading zero. |
| PyStr.IntToString | DCM/src/core/users.py:69 | `str(n)` starts with a minus sign exactly when `n` is negative, and every other character is a digit. |
| PyStr.NatToStringValue | DCM/src/core/users.py:69 | The decimal text of a natural number reads back as that number. |
| PyStr.IntToStringValue | DCM/src/core/users.py:69 | The text of `max_users` in the limit message is its sign and decimal digits. |
| Scenarios.SignUpScenario | DCM/src/core/users.py:58-80 | On a fresh store, "alice" with a 7-character password is created. A second attempt with another password is answered "That username is already taken." |
| Scenarios.ShortNameScenario | DCM/src/core/users.py:59-63 | On any store, " ab " strips to a 2-character name and is refused with the length message. |
| Scenarios.SignInScenario | DCM/src/core/users.py:82-86 | After "alice" registers, her password signs in. With a collision-free digest, a wrong password fails, and so does a name that never registered. |
| Scenarios.LimitScenario | DCM/src/core/users.py:68-69 | With a collision-free digest, ten distinct valid names fill a store of capacity 10 and are all accepted. An eleventh is refused with "User limit reached (10)." |
| Scenarios.Reopen | DCM/src/core/users.py:23-43 | A store built over the file another store last saved holds the same records. So `count()` and every `check_credentials` answer carry over a restart. |
| Scenarios.RestartScenario | DCM/src/core/users.py:23-86 | "alice" registers and the application restarts. The count is still 1 and her password still signs in. |
| Scenarios.RegisterFresh | DCM/src/core/users.py:58-80 | A valid, stripped name that no record matches, registered while there is room, is accepted and appends exactly its record. |
| Scenarios.Fill | DCM/src/core/users.py:78 | With a collision-free digest, on an empty store with room for them all, registering distinct valid stripped names in turn gives one success each. The list is then exactly their records, in order. |
| Scenarios.NoOtherRecordMatches | DCM/src/core/users.py:48-53 | With a collision-free digest, a name that none of the records was made from matches none of them. |

## Left out

- The file format is left out: JSON encoding and decoding, `os.makedirs`, the path, and the `indent=2` layout. `_load`'s reading is a choice the constructor is given: `Missing`, `Unreadable` or `Decoded(records)`. `Unreadable` covers every error raised inside the `try` at users.py:33-38. For example: a path that cannot be opened, a file that is not UTF-8 or not JSON, a top level other than an object, a `"users"` value that is not a list (such as `5`, `null` or a non-empty object), an entry that is not an object, and an entry with a missing or extra key. In the source each of these leaves an empty list.
- Records whose fields are not strings are left out. `User(**u)` at users.py:36 does not check types, so an entry such as `{"username_hash": 1, "pw_hash": 2, "salt_user": "00", "salt_pw": "00"}` loads and counts toward `max_users`. Its name digest never equals a string, so it never matches. A salt that is a number or `null` makes `bytes.fromhex` raise `TypeError` out of `register` and `check_credentials` when the scan reaches it. The model's `User` holds four strings and cannot express such records or that error.
- A Python string holding a lone surrogate makes `value.encode("utf-8")` at users.py:17 raise `UnicodeEncodeError`. A Dafny `char` cannot hold a surrogate, so the model has no such input.
- Write failures are left out. `_save` is assumed to succeed. If it raised after the append at users.py:78, the list would keep the new record while the file did not, and `register` would raise instead of replying.
- The hash internals are abstract: SHA-256, the UTF-8 encoding and `hexdigest`. Collision-freeness is a hypothesis, not a fact.
- The ValueError's message and position in the text are not modelled, only its occurrence.
- Randomness: the salt bytes `secrets.token_hex(16)` draws are parameters of `Register`.
- Users.UserStore.FindUser returns the index of the matching record, not the `User` object. `register` tests the result for truth, and a `User` dataclass is always true, so the index carries the same information.
- Users.UserStore.Register states the capacity bound only on condition of the count before the call. `_load` does not check the count against `max_users`, so a file can hold more records than that.
- Users.UserStore.Register does not state that names stay unique in its own `ensures`. That holds only with a collision-free digest, and is proved separately as `Users.RegisterKeepsNamesUnique`.
- `check_credentials` does not strip the name it is given; the login page strips it before calling. The model follows users.py, and the page is not part of this model.
- Concurrency is out of scope: two stores, or two processes, sharing one file.
- The PySide6 pages, the confirm-password check of the registration page, and `egram.py` hold no store logic and are not part of this model.
