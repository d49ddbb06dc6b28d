/** The compact session form of a user (`\Serializable`): the triple
    `[id, username, password]`. PHP's byte encoding is abstracted away; a
    payload is what `unserialize` hands back. */
module Session {
  import opened Wrappers
  import opened UserEntity

  /** The three values `serialize` writes, in order. */
  datatype Payload = Payload(id: Option<int>, username: Option<string>, password: Option<string>)

  /** What PHP's `unserialize` produces from a session string: the array
      written by `Serialize`; a scalar (a string that does not parse
      yields `false`); or an object, which with `allowed_classes => false`
      arrives as a `__PHP_Incomplete_Class`. Array elements past the third
      are never read, so they are not represented. */
  datatype Decoded = Triple(p: Payload) | Scalar | AnObject

  /** List destructuring of an object that is not `ArrayAccess` throws
      before any property is assigned. */
  datatype SessionError = CannotUseObjectAsArray

  /** The fields the session form carries. */
  const SessionFields: set<Field> := {Id, Username, Password}

  /** `serialize`: the triple `[id, username, password]`. */
  function Serialize(u: User): Payload {
    Payload(u.id, u.username, u.password)
  }

  /** The payload is the triple and nothing more: two users that agree on
      `id`, `username` and `password` serialise identically, whatever else
      differs, and users that differ on one of them do not. */
  lemma SerializeDependsOnlyOnTriple(u: User, v: User)
    ensures Serialize(u) == Serialize(v) <==>
      forall f :: f in SessionFields ==> FieldOf(u, f) == FieldOf(v, f)
  {
    if forall f :: f in SessionFields ==> FieldOf(u, f) == FieldOf(v, f) {
      assert FieldOf(u, Id) == FieldOf(v, Id);
      assert FieldOf(u, Username) == FieldOf(v, Username);
      assert FieldOf(u, Password) == FieldOf(v, Password);
    }
  }

  /** `unserialize`: list destructuring into the three properties. An
      object throws before anything is assigned, so the user is left as it
      was. Any other shape is accepted: destructuring a scalar assigns
      `null` to all three. No other property is ever written. */
  function Unserialize(u: User, d: Decoded): (r: Result<User, SessionError>)
    ensures r.Failure? <==> d.AnObject?
    ensures r.Success? ==> AgreeExcept(u, r.value, SessionFields)
    ensures d.Triple? ==> r.Success? && r.value.id == d.p.id && r.value.username == d.p.username && r.value.password == d.p.password
    ensures d.Scalar? ==> r.Success? && r.value.id.None? && r.value.username.None? && r.value.password.None?
  {
    match d
    case AnObject => Failure(CannotUseObjectAsArray)
    case Scalar => Success(u.(id := None, username := None, password := None))
    case Triple(p) => Success(u.(id := p.id, username := p.username, password := p.password))
  }

  /** Round trip: restoring a session into any user `v` succeeds and yields
      `u`'s identity and credential hash, and `v`'s everything else. */
  lemma RoundTrip(u: User, v: User)
    ensures Unserialize(v, Triple(Serialize(u))).Success?
    ensures var r := Unserialize(v, Triple(Serialize(u))).value;
      r.id == u.id && r.username == u.username && r.password == u.password
      && AgreeExcept(v, r, SessionFields)
  {
  }

  /** Restoring a user's own session into it changes nothing. */
  lemma RoundTripSelf(u: User)
    ensures Unserialize(u, Triple(Serialize(u))) == Success(u)
  {
    AgreeEverywhereIsEqual(Unserialize(u, Triple(Serialize(u))).value, u);
  }

  /** The other direction: every payload survives being restored and
      serialised again, so the triple is the whole payload. */
  lemma PayloadRoundTrip(v: User, p: Payload)
    ensures Unserialize(v, Triple(p)).Success?
    ensures Serialize(Unserialize(v, Triple(p)).value) == p
  {
  }
}
