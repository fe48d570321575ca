/** The subscription checks of api/serializers/users.py and the
    subscription list of api/views/users.py. */
module UserSerializers {
  import opened Common
  import opened Seqs
  import opened Models

  const AlreadySubscribedMessage := "Вы уже подписаны на этого пользователя"
  const SelfSubscribeMessage := "Нельзя подписываться на самого себя!"

  /** UserGetSerializer.get_is_subscribed: false for an anonymous viewer,
      otherwise whether the viewer follows obj. */
  predicate IsSubscribed(viewer: Viewer, follows: seq<Follow>, obj: UserId)
    ensures viewer.Anonymous? ==> !IsSubscribed(viewer, follows, obj)
    ensures IsSubscribed(viewer, follows, obj) ==> exists i :: 0 <= i < |follows| && follows[i] == Follow(viewer.id, obj)
  {
    viewer.Authenticated? && Follow(viewer.id, obj) in follows
  }

  /** UserSubscriptionsViewSet.get_queryset, `User.objects.filter(following__user=user)`:
      the users that user follows. */
  function Subscriptions(t: Tables, user: UserId): (r: set<UserId>)
    ensures r <= t.users.Keys
    ensures forall x :: x in r <==> x in t.users && IsSubscribed(Authenticated(user), t.follows, x)
  {
    set x | x in t.users && Follow(user, x) in t.follows
  }

  /** UserSubscribeSerializer's checks in the order DRF runs them: the
      UniqueTogetherValidator of Meta.validators, then validate. */
  function ValidateSubscription(follows: seq<Follow>, user: UserId, author: UserId): (r: Outcome)
    ensures r.Pass? <==> Follow(user, author) !in follows && user != author
    ensures Follow(user, author) in follows ==> r == Fail(Duplicate(AlreadySubscribedMessage))
    ensures Follow(user, author) !in follows && user == author ==> r == Fail(SelfFollow(SelfSubscribeMessage))
  {
    if Follow(user, author) in follows then Fail(Duplicate(AlreadySubscribedMessage))
    else if user == author then Fail(SelfFollow(SelfSubscribeMessage))
    else Pass
  }

  /** A subscription the checks accept keeps every constraint when written. */
  lemma AcceptedSubscriptionConsistent(t: Tables, user: UserId, author: UserId, lower: string -> string, isWordChar: char -> bool)
    requires Consistent(t, lower, isWordChar) && user in t.users && author in t.users
    requires ValidateSubscription(t.follows, user, author).Pass?
    ensures Consistent(AddFollow(t, Follow(user, author)), lower, isWordChar)
  {
    AddFollowConsistent(t, Follow(user, author), lower, isWordChar);
  }

  /** For an existing user x, the viewer's is_subscribed flag on x is true
      exactly when x is in the viewer's subscription list; an anonymous
      viewer's flag is always false. */
  lemma IsSubscribedIffListed(t: Tables, viewer: Viewer, x: UserId)
    requires x in t.users
    ensures viewer.Anonymous? ==> !IsSubscribed(viewer, t.follows, x)
    ensures viewer.Authenticated? ==> (IsSubscribed(viewer, t.follows, x) <==> x in Subscriptions(t, viewer.id))
  {
  }

  /** After user subscribes to author the flag is on and the list gains
      author; every other viewer's flags and lists are as before. */
  lemma SubscribeEffect(t: Tables, user: UserId, author: UserId)
    requires author in t.users
    ensures IsSubscribed(Authenticated(user), AddFollow(t, Follow(user, author)).follows, author)
    ensures Subscriptions(AddFollow(t, Follow(user, author)), user) == Subscriptions(t, user) + {author}
    ensures forall v, x :: v != user || x != author ==>
      (IsSubscribed(Authenticated(v), AddFollow(t, Follow(user, author)).follows, x) <==> IsSubscribed(Authenticated(v), t.follows, x))
  {
    var t' := AddFollow(t, Follow(user, author));
    assert t'.follows[|t.follows|] == Follow(user, author);
  }

  /** After user unsubscribes from author the flag is off and the list loses
      author; every other viewer's flags are as before. */
  lemma UnsubscribeEffect(t: Tables, user: UserId, author: UserId)
    ensures !IsSubscribed(Authenticated(user), RemoveFollow(t, Follow(user, author)).follows, author)
    ensures Subscriptions(RemoveFollow(t, Follow(user, author)), user) == Subscriptions(t, user) - {author}
    ensures forall v, x :: v != user || x != author ==>
      (IsSubscribed(Authenticated(v), RemoveFollow(t, Follow(user, author)).follows, x) <==> IsSubscribed(Authenticated(v), t.follows, x))
  {
  }
}
