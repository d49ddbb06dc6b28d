/** The field constraints declared on the entity, evaluated the way the
    validator evaluates them. The e-mail grammar belongs to the validator
    library and is a parameter. */
module Validation {
  import opened Wrappers
  import opened Text
  import opened UserEntity
  import opened Session

  /** `NotBlank(normalizer="trim")`: `null` and strings that trim to ""
      are blank. */
  predicate NotBlank(v: Option<string>) {
    v.Some? && Trim(v.value) != []
  }

  /** `Length(min, max)`: `null` is not checked; otherwise the character
      count, untrimmed, must lie within the bounds. */
  predicate LengthWithin(v: Option<string>, min: nat, max: Option<nat>) {
    v.None? || (min <= |v.value| && (max.None? || |v.value| <= max.value))
  }

  /** `Regex("/^[a-z0-9_]+$/")`: `null` and "" are not checked. */
  predicate MatchesUsernameRegex(v: Option<string>) {
    v.None? || v.value == [] || MatchesUsernamePattern(v.value)
  }

  /** `Email`: `null` and "" are not checked; the grammar is `isEmail`. */
  predicate EmailFormat(v: Option<string>, isEmail: string -> bool) {
    v.None? || v.value == [] || isEmail(v.value)
  }

  predicate DisplayNameValid(u: User) {
    NotBlank(u.displayName) && LengthWithin(u.displayName, 2, Some(50))
  }

  predicate UsernameValid(u: User) {
    NotBlank(u.username) && LengthWithin(u.username, 2, Some(50)) && MatchesUsernameRegex(u.username)
  }

  predicate EmailValid(u: User, isEmail: string -> bool) {
    NotBlank(u.email) && EmailFormat(u.email, isEmail)
  }

  predicate PlainPasswordValid(u: User) {
    LengthWithin(u.plainPassword, 6, None)
  }

  /** Every constraint the entity declares holds. */
  predicate Valid(u: User, isEmail: string -> bool) {
    DisplayNameValid(u) && UsernameValid(u) && EmailValid(u, isEmail) && PlainPasswordValid(u)
  }

  /** The display name: present, 2 to 50 characters counted before
      trimming, and at least one character that is not whitespace. */
  lemma DisplayNameValidIff(u: User)
    ensures DisplayNameValid(u) <==>
      u.displayName.Some? && 2 <= |u.displayName.value| <= 50 &&
      exists i :: 0 <= i < |u.displayName.value| && !IsTrimChar(u.displayName.value[i])
  {
    if u.displayName.Some? {
      TrimEmptyIff(u.displayName.value);
    }
  }

  /** The username: present, 2 to 50 characters, and `[a-z0-9_]` only,
      except that one trailing line feed is let through by the pattern's
      `$`. */
  lemma UsernameValidIff(u: User)
    ensures UsernameValid(u) <==>
      u.username.Some? && 2 <= |u.username.value| <= 50 &&
      (AllSlugChars(u.username.value) ||
       (u.username.value[|u.username.value| - 1] == '\n' && AllSlugChars(u.username.value[..|u.username.value| - 1])))
  {
    if u.username.Some? {
      var s := u.username.value;
      UsernamePatternIff(s);
      if 2 <= |s| <= 50 && MatchesUsernamePattern(s) {
        PatternMatchNotBlank(s);
      }
      assert UsernameValid(u) <==> 2 <= |s| <= 50 && MatchesUsernamePattern(s);
    }
  }

  /** A concrete username with a trailing line feed passes every username
      constraint. */
  lemma TrailingLineFeedUsernameValid(u: User)
    requires u.username == Some("ab\n")
    ensures UsernameValid(u)
  {
    UsernameValidIff(u);
    var s := "ab\n";
    assert AllSlugChars(s[..2]);
  }

  /** The plaintext password: absent, or at least six characters. */
  lemma PlainPasswordValidIff(u: User)
    ensures PlainPasswordValid(u) <==> u.plainPassword.None? || |u.plainPassword.value| >= 6
  {
  }

  /** A fresh user is not valid: its display name, username and e-mail are
      unset, which `NotBlank` rejects. */
  lemma FreshUserInvalid(isEmail: string -> bool)
    ensures !DisplayNameValid(NewUser()) && !UsernameValid(NewUser()) && !EmailValid(NewUser(), isEmail)
    ensures PlainPasswordValid(NewUser())
  {
  }

  /** Erasing credentials never invalidates a user, and always leaves the
      plaintext-password constraint satisfied. */
  lemma EraseCredentialsKeepsValid(u: User, isEmail: string -> bool)
    ensures PlainPasswordValid(EraseCredentials(u))
    ensures Valid(u, isEmail) ==> Valid(EraseCredentials(u), isEmail)
  {
  }

  /** Setting a short plaintext password makes any user invalid; setting a
      long enough one satisfies that constraint. */
  lemma SetPlainPasswordValidity(u: User, p: string)
    ensures PlainPasswordValid(SetPlainPassword(u, p)) <==> |p| >= 6
  {
  }

  /** No constraint applies to the status: storing any string, including
      one that names no `UserStatus`, leaves validity as it was. */
  lemma StatusIsUnconstrained(u: User, status: string, isEmail: string -> bool)
    ensures Valid(u, isEmail) <==> Valid(SetStatus(u, status), isEmail)
  {
    var r := SetStatus(u, status);
    assert r.displayName == u.displayName && r.username == u.username
      && r.email == u.email && r.plainPassword == u.plainPassword;
  }

  /** Restoring a session bypasses the constraints: whatever the user was,
      a payload carrying a non-empty username outside the pattern is taken
      as is, and the result fails the username constraint. */
  lemma UnserializeBypassesValidation(u: User, p: Payload)
    requires p.username.Some? && p.username.value != [] && !MatchesUsernamePattern(p.username.value)
    ensures Unserialize(u, Triple(p)).Success?
    ensures !UsernameValid(Unserialize(u, Triple(p)).value)
  {
  }
}
