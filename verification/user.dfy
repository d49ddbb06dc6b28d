/** The `User` entity: its fields, the state of a fresh instance, the
    accessors and the two derived behaviours (the role view and credential
    erasure). A PHP property that was never assigned reads as `None`. */
module UserEntity {
  import opened Wrappers
  import opened Roles

  /** Identity of a `UserAuthToken` object. */
  type TokenRef = nat

  /** The value of `UserStatus::ENABLED`, the column default of `status`. */
  const StatusEnabled: string := "enabled"

  datatype User = User(
    id: Option<int>,
    displayName: Option<string>,
    username: Option<string>,
    email: Option<string>,
    password: Option<string>,       // the password hash
    plainPassword: Option<string>,  // transient, never persisted
    roles: seq<Role>,               // stored roles, verbatim
    lastIp: Option<string>,
    locale: Option<string>,
    backendTheme: Option<string>,
    status: string,
    userAuthToken: Option<TokenRef>)

  /** The fields of a user, used to state frame conditions uniformly. */
  datatype Field =
    | Id | DisplayName | Username | Email | Password | PlainPassword
    | RolesField | LastIp | Locale | BackendTheme | Status | AuthToken

  datatype FieldValue =
    | IntValue(i: Option<int>)
    | TextValue(t: Option<string>)
    | ListValue(l: seq<Role>)
    | TokenValue(k: Option<TokenRef>)

  function FieldOf(u: User, f: Field): FieldValue {
    match f
    case Id => IntValue(u.id)
    case DisplayName => TextValue(u.displayName)
    case Username => TextValue(u.username)
    case Email => TextValue(u.email)
    case Password => TextValue(u.password)
    case PlainPassword => TextValue(u.plainPassword)
    case RolesField => ListValue(u.roles)
    case LastIp => TextValue(u.lastIp)
    case Locale => TextValue(u.locale)
    case BackendTheme => TextValue(u.backendTheme)
    case Status => TextValue(Some(u.status))
    case AuthToken => TokenValue(u.userAuthToken)
  }

  /** `u` and `v` agree on every field outside `fs`. */
  ghost predicate AgreeExcept(u: User, v: User, fs: set<Field>) {
    forall f :: f !in fs ==> FieldOf(u, f) == FieldOf(v, f)
  }

  /** Agreeing on every field is equality: the field list is complete, so
      `AgreeExcept` frame conditions leave nothing unstated. */
  lemma AgreeEverywhereIsEqual(u: User, v: User)
    requires AgreeExcept(u, v, {})
    ensures u == v
  {
    assert FieldOf(u, Id) == FieldOf(v, Id);
    assert FieldOf(u, DisplayName) == FieldOf(v, DisplayName);
    assert FieldOf(u, Username) == FieldOf(v, Username);
    assert FieldOf(u, Email) == FieldOf(v, Email);
    assert FieldOf(u, Password) == FieldOf(v, Password);
    assert FieldOf(u, PlainPassword) == FieldOf(v, PlainPassword);
    assert FieldOf(u, RolesField) == FieldOf(v, RolesField);
    assert FieldOf(u, LastIp) == FieldOf(v, LastIp);
    assert FieldOf(u, Locale) == FieldOf(v, Locale);
    assert FieldOf(u, BackendTheme) == FieldOf(v, BackendTheme);
    assert FieldOf(u, Status) == FieldOf(v, Status);
    assert FieldOf(u, AuthToken) == FieldOf(v, AuthToken);
  }

  /** A freshly constructed user: every property unassigned except the
      empty role list and the "enabled" status. */
  function NewUser(): (u: User)
    ensures u.roles == [] && u.status == StatusEnabled
    ensures forall f :: f != RolesField && f != Status ==> FieldOf(u, f) in {IntValue(None), TextValue(None), TokenValue(None)}
  {
    User(None, None, None, None, None, None, [], None, None, None, StatusEnabled, None)
  }

  // ---------------------------------------------------------------------
  // Setters: each stores its argument in one field and touches nothing else.

  function SetDisplayName(u: User, displayName: string): (r: User)
    ensures r.displayName == Some(displayName)
    ensures AgreeExcept(u, r, {DisplayName})
  {
    u.(displayName := Some(displayName))
  }

  /** `setUsername` stores the slug of its argument; the slug generator is
      an external library and is a parameter here, with no claimed
      properties. */
  function SetUsername(u: User, username: string, slugify: string -> string): (r: User)
    ensures r.username == Some(slugify(username))
    ensures AgreeExcept(u, r, {Username})
  {
    u.(username := Some(slugify(username)))
  }

  function SetEmail(u: User, email: string): (r: User)
    ensures r.email == Some(email)
    ensures AgreeExcept(u, r, {Email})
  {
    u.(email := Some(email))
  }

  function SetPassword(u: User, password: string): (r: User)
    ensures r.password == Some(password)
    ensures AgreeExcept(u, r, {Password})
  {
    u.(password := Some(password))
  }

  function SetPlainPassword(u: User, plainPassword: string): (r: User)
    ensures r.plainPassword == Some(plainPassword)
    ensures AgreeExcept(u, r, {PlainPassword})
  {
    u.(plainPassword := Some(plainPassword))
  }

  /** `setStatus` stores any string: there is no check against the
      statuses `UserStatus` defines. */
  function SetStatus(u: User, status: string): (r: User)
    ensures r.status == status
    ensures AgreeExcept(u, r, {Status})
  {
    u.(status := status)
  }

  /** `setRoles` stores the list verbatim, duplicates and all. */
  function SetRoles(u: User, roles: seq<Role>): (r: User)
    ensures r.roles == roles
    ensures AgreeExcept(u, r, {RolesField})
  {
    u.(roles := roles)
  }

  function SetLastIp(u: User, lastIp: Option<string>): (r: User)
    ensures r.lastIp == lastIp
    ensures AgreeExcept(u, r, {LastIp})
  {
    u.(lastIp := lastIp)
  }

  /** `setLocale` stores what the external `Json::findScalar` helper makes
      of its argument; the helper is a parameter with no claimed
      properties. */
  function SetLocale(u: User, locale: Option<string>, findScalar: Option<string> -> Option<string>): (r: User)
    ensures r.locale == findScalar(locale)
    ensures AgreeExcept(u, r, {Locale})
  {
    u.(locale := findScalar(locale))
  }

  function SetBackendTheme(u: User, backendTheme: Option<string>): (r: User)
    ensures r.backendTheme == backendTheme
    ensures AgreeExcept(u, r, {BackendTheme})
  {
    u.(backendTheme := backendTheme)
  }

  // ---------------------------------------------------------------------
  // Getters. Those declared with a non-nullable return type throw a
  // TypeError when the property holds null (as it does until assigned).

  datatype GetterError = NullReturned(field: Field)

  function Required<T>(v: Option<T>, f: Field): (r: Result<T, GetterError>)
    ensures r.Success? <==> v.Some?
    ensures r.Success? ==> r.value == v.value
    ensures r.Failure? ==> r.error == NullReturned(f)
  {
    match v
    case Some(x) => Success(x)
    case None => Failure(NullReturned(f))
  }

  function GetId(u: User): Result<int, GetterError> {
    Required(u.id, Id)
  }

  function GetDisplayName(u: User): Result<string, GetterError> {
    Required(u.displayName, DisplayName)
  }

  function GetUsername(u: User): Result<string, GetterError> {
    Required(u.username, Username)
  }

  function GetEmail(u: User): Result<string, GetterError> {
    Required(u.email, Email)
  }

  function GetPassword(u: User): Result<string, GetterError> {
    Required(u.password, Password)
  }

  /** A fresh user has none of the non-nullable properties set, so each of
      their getters throws; `getStatus` and `getRoles` answer. */
  lemma FreshUserGetters()
    ensures GetId(NewUser()).Failure? && GetDisplayName(NewUser()).Failure?
    ensures GetUsername(NewUser()).Failure? && GetEmail(NewUser()).Failure?
    ensures GetPassword(NewUser()).Failure?
    ensures NewUser().status == "enabled" && NewUser().plainPassword.None?
  {
  }

  /** Reading back a value through its getter returns what was stored. */
  lemma SetThenGet(u: User, s: string)
    ensures GetDisplayName(SetDisplayName(u, s)) == Success(s)
    ensures GetEmail(SetEmail(u, s)) == Success(s)
    ensures GetPassword(SetPassword(u, s)) == Success(s)
    ensures SetPlainPassword(u, s).plainPassword == Some(s)
    ensures SetStatus(u, s).status == s
  {
  }

  // ---------------------------------------------------------------------
  // Derived behaviour.

  /** `getRoles`: the stored roles, or `[DefaultRole]` when none are
      stored, passed through `array_unique` (keys preserved). It is a pure
      view: the stored list is never written back. */
  function GetRoles(u: User): (r: seq<Entry>)
    ensures |r| >= 1
    ensures u.roles == [] ==> r == [(0, DefaultRole)]
    ensures u.roles != [] ==> forall x :: x in Values(r) <==> x in u.roles
    ensures Distinct(Values(r))
    ensures forall a, b :: 0 <= a < b < |r| ==> r[a].0 < r[b].0
    ensures u.roles != [] ==> forall i :: 0 <= i < |u.roles| && FirstAt(u.roles, i) ==> (i, u.roles[i]) in r
    ensures forall k :: 0 <= k < |r| ==> u.roles != [] ==> r[k].0 < |u.roles| && r[k].1 == u.roles[r[k].0]
  {
    var stored := if u.roles == [] then [DefaultRole] else u.roles;
    UniqueSameElements(stored);
    UniqueDistinct(stored);
    UniqueKeepsFirstOccurrences(stored);
    UniqueKeysIncrease(stored);
    assert stored[0] in Values(Unique(stored));
    Unique(stored)
  }

  /** `setRoles` keeps duplicates in storage; only the view removes them. */
  lemma SetRolesKeepsDuplicates(u: User)
    ensures |SetRoles(u, ["ROLE_ADMIN", "ROLE_ADMIN"]).roles| == 2
    ensures GetRoles(SetRoles(u, ["ROLE_ADMIN", "ROLE_ADMIN"])) == [(0, "ROLE_ADMIN")]
  {
    var s: seq<Role> := ["ROLE_ADMIN", "ROLE_ADMIN"];
    assert s[..1] == ["ROLE_ADMIN"];
    assert s[..1][..0] == [];
    assert Unique(s[..1]) == [(0, "ROLE_ADMIN")];
    assert "ROLE_ADMIN" in s[..1];
    assert Unique(s) == [(0, "ROLE_ADMIN")];
  }

  /** The view of a stored list that has no duplicates is that list. */
  lemma GetRolesOfDistinct(u: User)
    requires u.roles != [] && Distinct(u.roles)
    ensures Values(GetRoles(u)) == u.roles
  {
    UniqueOfDistinct(u.roles);
  }

  /** `eraseCredentials`: forget the plaintext password and nothing else. */
  function EraseCredentials(u: User): (r: User)
    ensures r.plainPassword.None?
    ensures AgreeExcept(u, r, {PlainPassword})
  {
    u.(plainPassword := None)
  }

  /** Erasure keeps the hash and the role view, and erasing twice is the
      same as erasing once. */
  lemma EraseCredentialsProperties(u: User, p: string)
    ensures EraseCredentials(u).password == u.password
    ensures GetRoles(EraseCredentials(u)) == GetRoles(u)
    ensures EraseCredentials(EraseCredentials(u)) == EraseCredentials(u)
    ensures EraseCredentials(SetPlainPassword(u, p)) == EraseCredentials(u)
  {
  }
}
