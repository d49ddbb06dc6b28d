# User entity of the Bolt content-management core, in Dafny

This project models the `User` entity (`src/Entity/User.php`). The entity is
a Doctrine-mapped account record with Symfony validation constraints. The
model covers the parts of it that behave, rather than just hold data:

- **The role view** (`getRoles`). The stored roles go through
  `array_unique`, or `["ROLE_USER"]` is used when nothing is stored.
  `array_unique` keeps the key of each element it retains, so the view is
  modelled as a list of `(key, role)` entries: `Roles.Unique`.
- **Credential erasure** (`eraseCredentials`). It clears the transient
  plaintext password and nothing else.
- **The session triple** (`serialize` / `unserialize`). It saves and restores
  `[id, username, password]`.
- **The user/token back-reference** (`setUserAuthToken`). This is modelled
  over a small world of references (`AuthLink`).
- **The field constraints** on `displayName`, `username`, `email` and
  `plainPassword`, written as predicates (`Validation`). They include PHP's
  `trim` and the PCRE meaning of `/^[a-z0-9_]+$/` (`Text`).
- **The initial state and the setters.** Each setter is stated as a frame
  condition: one field changes and every other field is equal
  (`UserEntity.AgreeExcept`).

The record is immutable, and every operation is a pure function from the old
user to the new one. A PHP property that was never assigned is `None`.
Getters with a non-nullable return type throw a `TypeError` on such a
property, and they return `Failure` here.

Observations the proofs make precise:

- **The username pattern accepts one trailing line feed.** Without the `D`
  modifier, PCRE's `$` also matches just before a final `"\n"`. So `"ab\n"`
  satisfies every username constraint (`Validation.TrailingLineFeedUsernameValid`).
- **`unserialize` rejects only objects.** An object payload arrives as a
  `__PHP_Incomplete_Class`, and destructuring it throws before any property
  is written. Any scalar, `false` from a string that does not parse
  included, destructures to `null` for `id`, `username` and `password`.
  A restored username is not re-validated either
  (`Validation.UnserializeBypassesValidation`). A deserialiser that failed
  closed would reject every malformed payload. This one does not, and the
  model follows the code.
- **The relation is not kept consistent.** `setUserAuthToken` only updates
  the owning side of the new token. Re-linking a user that already holds a
  token leaves the old token pointing at the user
  (`AuthLink.RelinkLeavesStaleBackReference`). So the relation is not
  mutually consistent by construction, and the model follows the code.
- **Unsetting the token throws.** `setUserAuthToken(null)` calls `getUser()`
  on null, after clearing the user's side (see Findings).
- **`setStatus` stores any string.** Status is not a closed set.
- **`eraseCredentials` sets `plainPassword` to `null`**, not to an empty
  string.

## Model

| member | source | states |
|---|---|---|
| Text.TrimEmptyIff | src/Entity/User.php:37 | a value is blank under the `trim` normalizer exactly when every character is one of PHP's default trim characters |
| Text.TrimIsSlice | src/Entity/User.php:37 | the trim normalizer yields a contiguous slice of its input; everything outside the slice is a trim character and the slice's ends are not |
| Text.UsernamePatternIff | src/Entity/User.php:49 | `/^[a-z0-9_]+$/` matches exactly the non-empty `[a-z0-9_]` strings and those same strings followed by one line feed |
| Text.TrailingLineFeedMatches | src/Entity/User.php:49 | the pattern accepts "ab\n" but rejects "ab\n\n" and a lone "\n" |
| Roles.Unique | src/Entity/User.php:199 | every entry `array_unique` returns is the first occurrence of its value, under its original key |
| Roles.UniqueKeysIncrease | src/Entity/User.php:199 | the retained entries keep the input order: their keys strictly increase |
| Roles.UniqueCovers | src/Entity/User.php:199 | every value of the input is among the retained values |
| Roles.UniqueKeepsFirstOccurrences | src/Entity/User.php:199 | every first occurrence of a value is retained with its own key |
| Roles.UniqueDistinct | src/Entity/User.php:199 | the values `array_unique` returns contain no duplicates |
| Roles.UniqueSameElements | src/Entity/User.php:199 | `array_unique` returns exactly the set of values of its input |
| Roles.UniqueOfDistinct | src/Entity/User.php:199 | on a list without duplicates, `array_unique` returns every element under its own key |
| Roles.UniqueIdempotent | src/Entity/User.php:199 | de-duplicating the de-duplicated values changes nothing |
| Roles.UniqueExample | src/Entity/User.php:199 | ["ROLE_ADMIN","ROLE_ADMIN","ROLE_EDITOR"] becomes [0 => "ROLE_ADMIN", 2 => "ROLE_EDITOR"] |
| UserEntity.AgreeEverywhereIsEqual | src/Entity/User.php:31-107 | two users that agree on every declared property are the same user, so the frame conditions leave no field unstated |
| UserEntity.NewUser | src/Entity/User.php:83-111 | a fresh user has an empty role list, status "enabled", and every other property unassigned |
| UserEntity.SetDisplayName | src/Entity/User.php:118-121 | stores the display name and changes no other field |
| UserEntity.SetUsername | src/Entity/User.php:138-143 | stores the slug of the argument and changes no other field |
| UserEntity.SetEmail | src/Entity/User.php:150-153 | stores the e-mail and changes no other field |
| UserEntity.SetPassword | src/Entity/User.php:160-163 | stores the password hash and changes no other field |
| UserEntity.SetPlainPassword | src/Entity/User.php:170-175 | stores the plaintext password and changes no other field |
| UserEntity.SetStatus | src/Entity/User.php:177-180 | stores any string as the status, unchecked, and changes no other field |
| UserEntity.SetRoles | src/Entity/User.php:202-205 | stores the role list verbatim and changes no other field |
| UserEntity.SetLastIp | src/Entity/User.php:265-270 | stores the last IP (possibly null) and changes no other field |
| UserEntity.SetLocale | src/Entity/User.php:277-282 | stores the scalar the helper extracts from the argument and changes no other field |
| UserEntity.SetBackendTheme | src/Entity/User.php:289-294 | stores the theme (possibly null) and changes no other field |
| UserEntity.Required | src/Entity/User.php:113-116 | a getter with a non-nullable return type returns the property when it is set and throws a TypeError naming it when it is not |
| UserEntity.FreshUserGetters | src/Entity/User.php:109-158 | on a fresh user `getId`, `getDisplayName`, `getUsername`, `getEmail` and `getPassword` throw, while the status is "enabled" and there is no plaintext password |
| UserEntity.SetThenGet | src/Entity/User.php:118-185 | a getter returns what its setter stored |
| UserEntity.GetRoles | src/Entity/User.php:190-200 | the view is never empty; it is exactly [0 => "ROLE_USER"] when nothing is stored; otherwise it has the stored set of roles, no duplicates, every first occurrence under its key, every entry equal to the stored value at its key, and the entries in stored order (keys strictly increasing) |
| UserEntity.SetRolesKeepsDuplicates | src/Entity/User.php:190-205 | storing ["ROLE_ADMIN","ROLE_ADMIN"] keeps both entries, while the view shows one |
| UserEntity.GetRolesOfDistinct | src/Entity/User.php:190-200 | when the stored roles are non-empty and distinct, the view's values are the stored list itself |
| UserEntity.EraseCredentials | src/Entity/User.php:226-229 | the plaintext password becomes null and every other field is unchanged |
| UserEntity.EraseCredentialsProperties | src/Entity/User.php:226-229 | erasure keeps the hash and the role view, is idempotent, and undoes any preceding `setPlainPassword` |
| Session.SerializeDependsOnlyOnTriple | src/Entity/User.php:234-237 | two users serialise identically exactly when they agree on id, username and password |
| Session.Unserialize | src/Entity/User.php:242-246 | an object payload throws and writes nothing; a triple writes its three values and a scalar writes null to all three; no other field is ever written |
| Session.RoundTrip | src/Entity/User.php:234-246 | restoring `u`'s payload into any user gives `u`'s id, username and password and keeps everything else of the target |
| Session.RoundTripSelf | src/Entity/User.php:234-246 | restoring a user's own payload into it leaves it unchanged |
| Session.PayloadRoundTrip | src/Entity/User.php:234-246 | serialising a user restored from a payload gives that payload back |
| Validation.DisplayNameValidIff | src/Entity/User.php:37-38 | the display name is valid exactly when it is set, is 2 to 50 characters long before trimming, and has a character that is not whitespace |
| Validation.UsernameValidIff | src/Entity/User.php:47-49 | the username is valid exactly when it is set, is 2 to 50 characters long, and is all `[a-z0-9_]`, optionally with one trailing line feed |
| Validation.TrailingLineFeedUsernameValid | src/Entity/User.php:47-49 | the username "ab\n" passes every username constraint |
| Validation.PlainPasswordValidIff | src/Entity/User.php:73 | the plaintext password is valid exactly when it is null or at least six characters long |
| Validation.FreshUserInvalid | src/Entity/User.php:37-58 | a fresh user fails the display-name, username and e-mail constraints and passes the password constraint |
| Validation.EraseCredentialsKeepsValid | src/Entity/User.php:226-229 | erasure always satisfies the password constraint and never makes a valid user invalid |
| Validation.SetPlainPasswordValidity | src/Entity/User.php:170-175 | after `setPlainPassword(p)` the password constraint holds exactly when `p` has at least six characters |
| Validation.StatusIsUnconstrained | src/Entity/User.php:177-180 | no constraint depends on the status, so storing any string, even one naming no status, leaves validity unchanged |
| Validation.UnserializeBypassesValidation | src/Entity/User.php:242-246 | restoring any payload whose username is non-empty and outside the pattern succeeds and yields a user that fails the username constraint |
| AuthLink.SetUserAuthToken | src/Entity/User.php:301-312 | with a token: the user holds it, its back-reference is the user, `setUser` is called exactly when the back-reference differed, and nothing else changes; with null: it throws after clearing the user's side |
| AuthLink.LinkFreePairKeepsConsistent | src/Entity/User.php:301-312 | linking a token-less user to an owner-less token keeps all links consistent |
| AuthLink.RelinkIsNoOp | src/Entity/User.php:307-309 | linking an already linked pair changes nothing and does not call `setUser` |
| AuthLink.RelinkLeavesStaleBackReference | src/Entity/User.php:303-309 | in any consistent world, linking a user that holds a token to a different token leaves the old token pointing at the user, so the world is no longer consistent |
| AuthLink.NullTokenFails | src/Entity/User.php:305-307 | unsetting throws, and the previous token still points at the user while the user no longer points at it |
| AuthLink.SetUserAuthTokenIntended | src/Entity/User.php:305-309 | the corrected setter: with a token it behaves as written; with null it clears the user's side, and it clears the previous token's back-reference exactly when that still pointed at the user |
| AuthLink.IntendedUnsetKeepsConsistent | src/Entity/User.php:305-309 | in a consistent world, the corrected unset keeps every link consistent and leaves no token pointing at the user |

## Left out

- `setUsername`'s slug normalisation: it is the external Cocur Slugify library. The slug function is a parameter of `UserEntity.SetUsername` with no claimed properties.
- `setLocale`'s `Json::findScalar`: the helper is not part of this model. It is a parameter of `UserEntity.SetLocale` with no claimed properties.
- The `Email` constraint's grammar (src/Entity/User.php:59): it belongs to the validator library. It is the `isEmail` parameter of `Validation.Valid`. The `NotBlank` on the e-mail is modelled.
- `UniqueEntity` on e-mail and username: it is a database-wide check across many records.
- The `Length(min=6)` on `plainPassword` is read as rejecting the empty string, as Symfony 5's default `allowEmptyString: false` does. Symfony 4.x's default (`true`) accepts `""`. The validator version is not part of this model.
- Strings are sequences of Unicode characters, while PHP strings are bytes. This is exact for valid UTF-8: `Length` counts code points (`mb_strlen`), and the trim characters, `[a-z0-9_]` and "\n" never occur inside a multi-byte sequence. Invalid UTF-8 cannot be represented. `Length` would report it as an invalid-charset violation.
- Session.Unserialize: the notices are not modelled. Destructuring an array shorter than three raises an "Undefined offset"/"Undefined array key" notice or warning. A string that does not parse makes `unserialize` raise a notice. The model maps missing elements to `null` and `false` to three nulls, and returns normally. A debug error handler that turns notices into exceptions would throw instead.
- `lastseenAt`: a `DateTimeInterface` holder with no logic.
- `toArray`: reflection over the object's properties.
- `getSalt`: it returns a constant null.
- The nullable getters: they return the stored option. `__toString` is `getDisplayName`.
- The fluent `return $this` of setters: each function returns the updated user instead.
- PHP's `serialize` byte format: the payload is an abstract triple, and `allowed_classes => false` shows up only as the `AnObject` case. Array elements past the third are not represented.
- Session.Unserialize: a triple whose elements have the wrong type cannot be represented. Examples are a string or array as the id, or an integer as the username. The code stores such values, because the properties are untyped. A later `getId(): int` or `getUsername(): string` then throws a TypeError under `strict_types`. The model only admits `null`, an integer id and string username and password.
- Stored roles are a list of strings. Arrays with non-sequential keys, and non-string values (which `array_unique` compares by their string form), are not modelled.
- Column lengths (191, 100, 30) and the rest of the ORM mapping and cascades: persistence is not modelled.
- `UserAuthToken`: it is not part of this model beyond its back-reference. Its `setUser` is taken to store its argument.
- `src/Event/PostEvent.php`: a holder that stores and returns an array. Its behaviour is the external event dispatcher's.

## Findings

| source | as written | input that shows it | evidently intended | confidence | as-written member | corrected member |
|---|---|---|---|---|---|---|
| src/Entity/User.php:305-308 | with a null argument, `$userAuthToken->getUser()` is called on null and throws, after the user's token property has already been cleared | `setUserAuthToken(null)` on a user linked to a token | "unset the owning side": clear the previous token's back-reference when it points at this user | high; not executed | AuthLink.NullTokenFails | AuthLink.SetUserAuthTokenIntended |
