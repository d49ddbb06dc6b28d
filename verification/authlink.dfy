/** The one-to-one link between a user and its `UserAuthToken`. Objects
    are identified by reference: a world maps each user reference to the
    user's state and each token reference to the token's back-reference.
    `UserAuthToken` itself is not part of this model beyond that
    back-reference; its `setUser` is taken to store its argument. */
module AuthLink {
  import opened Wrappers
  import opened UserEntity

  type UserRef = nat

  /** The owning side of the relation: the token's `user` property. */
  datatype Token = Token(user: Option<UserRef>)

  datatype World = World(users: map<UserRef, User>, tokens: map<TokenRef, Token>)

  /** The result of a successful call: the new world, and whether the
      token's `setUser` was invoked. */
  datatype Step = Step(world: World, setUserCalled: bool)

  /** Calling a method on `null` throws; the assignment that preceded the
      call has already happened, so the error carries that world. */
  datatype LinkError = NullDereference(partial: World)

  /** Both sides of every link agree: a user's token points back at it,
      and a token's user points at the token. */
  ghost predicate Consistent(w: World) {
    && (forall u :: u in w.users && w.users[u].userAuthToken.Some? ==>
          w.users[u].userAuthToken.value in w.tokens && w.tokens[w.users[u].userAuthToken.value].user == Some(u))
    && (forall t :: t in w.tokens && w.tokens[t].user.Some? ==>
          w.tokens[t].user.value in w.users && w.users[w.tokens[t].user.value].userAuthToken == Some(t))
  }

  /** Nothing but `me`'s token property and `t`'s back-reference differs. */
  ghost predicate OnlyLinkChanged(w: World, w': World, me: UserRef, t: Option<TokenRef>)
    requires me in w.users && me in w'.users
  {
    && w'.users.Keys == w.users.Keys && w'.tokens.Keys == w.tokens.Keys
    && (forall u :: u in w.users && u != me ==> w'.users[u] == w.users[u])
    && (forall k :: k in w.tokens && Some(k) != t ==> w'.tokens[k] == w.tokens[k])
    && AgreeExcept(w.users[me], w'.users[me], {AuthToken})
  }

  /** `setUserAuthToken` as written: store the token, then, if the token's
      back-reference is not this user, point it here. With a null argument
      the store happens and then `getUser()` is called on null. */
  function SetUserAuthToken(w: World, me: UserRef, t: Option<TokenRef>): (r: Result<Step, LinkError>)
    requires me in w.users
    requires t.Some? ==> t.value in w.tokens
    ensures r.Failure? <==> t.None?
    ensures r.Failure? ==> me in r.error.partial.users && r.error.partial.users[me].userAuthToken.None?
                           && OnlyLinkChanged(w, r.error.partial, me, None)
    ensures r.Success? ==> var w' := r.value.world;
      && me in w'.users && w'.users[me].userAuthToken == t
      && t.value in w'.tokens && w'.tokens[t.value].user == Some(me)
      && OnlyLinkChanged(w, w', me, t)
      && (r.value.setUserCalled <==> w.tokens[t.value].user != Some(me))
      && (!r.value.setUserCalled ==> w'.tokens == w.tokens)
  {
    var w1 := w.(users := w.users[me := w.users[me].(userAuthToken := t)]);
    match t
    case None => Failure(NullDereference(w1))
    case Some(k) =>
      if w.tokens[k].user != Some(me) then
        Success(Step(w1.(tokens := w.tokens[k := Token(Some(me))]), true))
      else
        Success(Step(w1, false))
  }

  /** Linking a user that has no token to a token that has no user keeps
      every link in the world consistent. */
  lemma LinkFreePairKeepsConsistent(w: World, me: UserRef, t: TokenRef)
    requires Consistent(w)
    requires me in w.users && w.users[me].userAuthToken.None?
    requires t in w.tokens && w.tokens[t].user.None?
    ensures SetUserAuthToken(w, me, Some(t)).Success?
    ensures Consistent(SetUserAuthToken(w, me, Some(t)).value.world)
  {
    var w' := SetUserAuthToken(w, me, Some(t)).value.world;
    forall u | u in w'.users && w'.users[u].userAuthToken.Some?
      ensures w'.users[u].userAuthToken.value in w'.tokens
      ensures w'.tokens[w'.users[u].userAuthToken.value].user == Some(u)
    {
      if u != me {
        assert w'.users[u] == w.users[u];
        assert w.users[u].userAuthToken != Some(t);
      }
    }
  }

  /** Re-linking an already linked pair changes nothing and does not call
      `setUser`. */
  lemma RelinkIsNoOp(w: World, me: UserRef, t: TokenRef)
    requires me in w.users && w.users[me].userAuthToken == Some(t)
    requires t in w.tokens && w.tokens[t].user == Some(me)
    ensures SetUserAuthToken(w, me, Some(t)) == Success(Step(w, false))
  {
    assert w.users[me].(userAuthToken := Some(t)) == w.users[me];
    assert w.users[me := w.users[me]] == w.users;
  }

  /** Linking a user that already holds another token leaves the old
      token's back-reference pointing at the user: the world is no longer
      consistent. */
  lemma RelinkLeavesStaleBackReference(w: World, me: UserRef, previous: TokenRef, t: TokenRef)
    requires Consistent(w)
    requires me in w.users && w.users[me].userAuthToken == Some(previous)
    requires t in w.tokens && t != previous
    ensures SetUserAuthToken(w, me, Some(t)).Success?
    ensures var w' := SetUserAuthToken(w, me, Some(t)).value.world;
      previous in w'.tokens && w'.tokens[previous].user == Some(me) && !Consistent(w')
  {
    var w' := SetUserAuthToken(w, me, Some(t)).value.world;
    assert w'.tokens[previous] == w.tokens[previous];
    assert w'.users[me].userAuthToken == Some(t);
  }

  /** As written, unsetting fails: the call throws after clearing the
      user's side, and a token that pointed at the user still does. */
  lemma NullTokenFails(w: World, me: UserRef, previous: TokenRef)
    requires Consistent(w)
    requires me in w.users && w.users[me].userAuthToken == Some(previous)
    ensures SetUserAuthToken(w, me, None).Failure?
    ensures var p := SetUserAuthToken(w, me, None).error.partial;
      previous in p.tokens && p.tokens[previous].user == Some(me) && !Consistent(p)
  {
    var p := SetUserAuthToken(w, me, None).error.partial;
    assert p.tokens[previous].user == Some(me);
    assert p.users[me].userAuthToken.None?;
  }

  /** The behaviour the comment "set (or unset) the owning side of the
      relation" describes: with a token, as written; with null, clear the
      user's side and, if the previous token still points at this user,
      clear its back-reference too. */
  function SetUserAuthTokenIntended(w: World, me: UserRef, t: Option<TokenRef>): (r: Step)
    requires me in w.users
    requires t.Some? ==> t.value in w.tokens
    ensures me in r.world.users && r.world.users[me].userAuthToken == t
    ensures t.Some? ==> r == SetUserAuthToken(w, me, t).value
    ensures t.None? ==> OnlyLinkChanged(w, r.world, me, w.users[me].userAuthToken)
    ensures t.None? ==> var previous := w.users[me].userAuthToken;
      (r.setUserCalled <==> previous.Some? && previous.value in w.tokens && w.tokens[previous.value].user == Some(me))
      && (r.setUserCalled ==> r.world.tokens[previous.value].user.None?)
    ensures t.None? && !r.setUserCalled ==> r.world.tokens == w.tokens
  {
    match t
    case Some(_) => SetUserAuthToken(w, me, t).value
    case None =>
      var w1 := w.(users := w.users[me := w.users[me].(userAuthToken := None)]);
      var previous := w.users[me].userAuthToken;
      if previous.Some? && previous.value in w.tokens && w.tokens[previous.value].user == Some(me) then
        Step(w1.(tokens := w.tokens[previous.value := Token(None)]), true)
      else
        Step(w1, false)
  }

  /** In a consistent world the intended unset keeps every link consistent
      and leaves no token pointing at the user. */
  lemma IntendedUnsetKeepsConsistent(w: World, me: UserRef)
    requires Consistent(w) && me in w.users
    ensures var w' := SetUserAuthTokenIntended(w, me, None).world;
      Consistent(w') && forall k :: k in w'.tokens ==> w'.tokens[k].user != Some(me)
  {
    var w' := SetUserAuthTokenIntended(w, me, None).world;
    forall k | k in w'.tokens && w'.tokens[k].user.Some?
      ensures w'.tokens[k].user.value in w'.users
      ensures w'.users[w'.tokens[k].user.value].userAuthToken == Some(k)
    {
      assert w.tokens[k].user.Some?;
      assert w.tokens[k].user != Some(me);
    }
  }
}
