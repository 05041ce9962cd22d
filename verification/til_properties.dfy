/** Properties of the TIL contract that relate several calls: the
    well-formedness every transition keeps, what the timelines return on a
    well-formed state, and the algebra of follow and unfollow. */
module TilProperties {
  import opened Wrappers
  import opened Panics
  import opened Paging
  import opened Til

  // ---------------------------------------------------------------------
  // Invariant preservation

  /** In a well-formed index the accounts with an entry are exactly the
      accounts that have written a post. */
  lemma AuthorsHaveEntries(c: Contract, u: Account)
    requires UserIndexExact(c)
    ensures u in c.userPosts <==> |IdsBy(c.posts, u)| > 0
    ensures u !in c.userPosts ==> IdsBy(c.posts, u) == []
    ensures UserPostIds(c, u) == IdsBy(c.posts, u)
  {
    var ids := IdsBy(c.posts, u);
    if |ids| > 0 {
      assert c.posts[ids[0]].user == u;
    }
  }

  /** After a post, the id list of one account is still exactly its posts. */
  lemma CreatePostKeepsUserList(c: Contract, signer: Account, now: nat, content: string, u: Account)
    requires UserIndexExact(c)
    requires CreatePost(c, signer, now, content).result.Success?
    requires u in CreatePost(c, signer, now, content).state.userPosts
    ensures var c' := CreatePost(c, signer, now, content).state;
            c'.userPosts[u] == IdsBy(c'.posts, u)
  {
    var o := CreatePost(c, signer, now, content);
    IdsByAppend(c.posts, o.result.value, u);
    if u == signer {
      AuthorsHaveEntries(c, signer);
    }
  }

  /** Appending a post keeps `user_posts` exact. */
  lemma {:induction false} CreatePostKeepsIndex(c: Contract, signer: Account, now: nat, content: string)
    requires UserIndexExact(c)
    ensures UserIndexExact(CreatePost(c, signer, now, content).state)
  {
    var o := CreatePost(c, signer, now, content);
    if o.result.Success? {
      var c' := o.state;
      var p := o.result.value;
      forall u | u in c'.userPosts
        ensures c'.userPosts[u] == IdsBy(c'.posts, u)
      {
        CreatePostKeepsUserList(c, signer, now, content, u);
      }
      forall u | u in c'.userPosts
        ensures |c'.userPosts[u]| > 0
      {
        if u != signer {
          assert c'.userPosts[u] == c.userPosts[u];
        }
      }
      forall i | 0 <= i < |c'.posts|
        ensures c'.posts[i].user in c'.userPosts
      {
        if i < |c.posts| {
          assert c'.posts[i] == c.posts[i];
        }
      }
    }
  }

  lemma {:induction false} CreatePostKeepsValid(c: Contract, signer: Account, now: nat, content: string)
    requires Valid(c)
    ensures Valid(CreatePost(c, signer, now, content).state)
  {
    var o := CreatePost(c, signer, now, content);
    CreatePostKeepsIndex(c, signer, now, content);
    if o.result.Success? {
      var c' := o.state;
      forall i | 0 <= i < |c'.posts|
        ensures c'.posts[i].id == i
      {
        if i < |c.posts| {
          assert c'.posts[i] == c.posts[i];
        }
      }
      forall a, b
        ensures IsFollow(c', a, b) <==> HasFollower(c', b, a)
      {
        assert IsFollow(c', a, b) == IsFollow(c, a, b);
        assert HasFollower(c', b, a) == HasFollower(c, b, a);
      }
    }
  }

  lemma FollowKeepsValid(c: Contract, me: Account, user: Account)
    requires Valid(c)
    ensures Valid(Follow(c, me, user))
  {
  }

  lemma UnfollowKeepsValid(c: Contract, me: Account, user: Account)
    requires Valid(c)
    ensures Valid(Unfollow(c, me, user))
  {
  }

  /** The state-changing calls a signer can make. */
  datatype Call =
    | CreatePostCall(signer: Account, now: nat, content: string)
    | FollowCall(me: Account, user: Account)
    | UnfollowCall(me: Account, user: Account)

  /** The state after one call; a call that panics changes nothing. */
  function Apply(c: Contract, call: Call): Contract {
    match call
    case CreatePostCall(signer, now, content) => CreatePost(c, signer, now, content).state
    case FollowCall(me, user) => Follow(c, me, user)
    case UnfollowCall(me, user) => Unfollow(c, me, user)
  }

  /** The state after a history of calls on a freshly deployed contract. */
  function Run(calls: seq<Call>): Contract {
    if |calls| == 0 then Default() else Apply(Run(calls[..|calls| - 1]), calls[|calls| - 1])
  }

  lemma {:induction false} RunValid(calls: seq<Call>)
    ensures Valid(Run(calls))
  {
    if |calls| == 0 {
      DefaultValid();
    } else {
      var c := Run(calls[..|calls| - 1]);
      RunValid(calls[..|calls| - 1]);
      match calls[|calls| - 1]
      case CreatePostCall(signer, now, content) => CreatePostKeepsValid(c, signer, now, content);
      case FollowCall(me, user) => FollowKeepsValid(c, me, user);
      case UnfollowCall(me, user) => UnfollowKeepsValid(c, me, user);
    }
  }

  // ---------------------------------------------------------------------
  // Timelines

  /** On a well-formed state the public timeline lists posts by descending
      id, starting just below the skipped ones. */
  lemma PublicTimelineNewestFirst(c: Contract, page: nat, pageSize: nat)
    requires PostIdsMatch(c.posts)
    ensures var r := PublicTimeline(c, page, pageSize);
            && (r.Failure? <==> pageSize > MaxPageSize)
            && (r.Success? ==> forall k :: 0 <= k < |r.value| ==>
                  r.value[k].id == |c.posts| - Skipped(page, pageSize) - 1 - k)
  {
  }

  /** A page of ids that all name posts of `user` names posts of `user`. */
  lemma {:induction false} PageKeepsAuthor(posts: seq<Post>, user: Account, all: seq<PostId>, page: nat, pageSize: nat)
    requires pageSize <= MaxPageSize
    requires AuthoredBy(posts, user, all)
    ensures AuthoredBy(posts, user, Page(all, page, pageSize).value)
  {
    var ids := Page(all, page, pageSize).value;
    var top := |all| - Skipped(page, pageSize) - 1;
    forall k | 0 <= k < |ids|
      ensures ids[k] < |posts| && posts[ids[k]].user == user
    {
      assert ids[k] == all[top - k];
    }
  }

  /** A page of an increasing id list is decreasing. */
  lemma {:induction false} PageOfIncreasingDecreases(all: seq<PostId>, page: nat, pageSize: nat)
    requires pageSize <= MaxPageSize
    requires StrictlyIncreasing(all)
    ensures var ids := Page(all, page, pageSize).value;
            forall j, k :: 0 <= j < k < |ids| ==> ids[j] > ids[k]
  {
    var ids := Page(all, page, pageSize).value;
    var top := |all| - Skipped(page, pageSize) - 1;
    forall j, k | 0 <= j < k < |ids|
      ensures ids[j] > ids[k]
    {
      assert ids[j] == all[top - j] && ids[k] == all[top - k];
    }
  }

  /** Looking up a page of ids that all name posts of `user` cannot fail,
      and gives the posts of the page in page order. */
  lemma {:induction false} LookupPage(posts: seq<Post>, user: Account, all: seq<PostId>, page: nat, pageSize: nat)
    requires pageSize <= MaxPageSize
    requires AuthoredBy(posts, user, all)
    ensures var r := LookupAll(posts, Page(all, page, pageSize).value);
            && r.Success?
            && |r.value| == PageLen(|all|, page, pageSize)
            && forall k :: 0 <= k < |r.value| ==>
                 r.value[k] == posts[all[|all| - Skipped(page, pageSize) - 1 - k]]
  {
    var ids := Page(all, page, pageSize).value;
    PageKeepsAuthor(posts, user, all, page, pageSize);
    var r := LookupAll(posts, ids);
    forall k | 0 <= k < |r.value|
      ensures r.value[k] == posts[all[|all| - Skipped(page, pageSize) - 1 - k]]
    {
      assert r.value[k] == posts[ids[k]];
    }
  }

  /** On a well-formed state `user_timeline` never reaches its unwrap panic,
      and lists only posts of `user`, by descending id, as many as the page
      of the user's id list holds. */
  lemma {:induction false} UserTimelineAuthored(c: Contract, user: Account, page: nat, pageSize: nat)
    requires Valid(c)
    ensures var r := UserTimeline(c, user, page, pageSize);
            && (r.Failure? <==> user in c.userPosts && pageSize > MaxPageSize)
            && (r.Success? ==> |r.value| == PageLen(|IdsBy(c.posts, user)|, page, pageSize))
            && (r.Success? ==> forall k :: 0 <= k < |r.value| ==> r.value[k].user == user)
            && (r.Success? ==> forall j, k :: 0 <= j < k < |r.value| ==> r.value[j].id > r.value[k].id)
  {
    if user in c.userPosts && pageSize <= MaxPageSize {
      var all := c.userPosts[user];
      assert all == IdsBy(c.posts, user);
      var ids := Page(all, page, pageSize).value;
      PageKeepsAuthor(c.posts, user, all, page, pageSize);
      PageOfIncreasingDecreases(all, page, pageSize);
      assert UserTimeline(c, user, page, pageSize) == LookupAll(c.posts, ids);
    } else if user !in c.userPosts {
      AuthorsHaveEntries(c, user);
    }
  }

  /** With an exact index a successful `user_timeline` page holds the window
      of the user's stored id list that `paged_vector` selects: entry `k` is
      the post whose id is `k` places below the skipped newest ones. By
      `AuthorsHaveEntries` that list is the reference list `IdsBy`. */
  lemma {:induction false} UserTimelineWindow(c: Contract, user: Account, page: nat, pageSize: nat)
    requires UserIndexExact(c)
    ensures var r := UserTimeline(c, user, page, pageSize);
            var all := UserPostIds(c, user);
            r.Success? ==>
              && |r.value| == PageLen(|all|, page, pageSize)
              && forall k :: 0 <= k < |r.value| ==>
                   r.value[k] == c.posts[all[|all| - Skipped(page, pageSize) - 1 - k]]
  {
    if user in c.userPosts && pageSize <= MaxPageSize {
      var all := c.userPosts[user];
      assert AuthoredBy(c.posts, user, all);
      EntryWindow(c, user, all, page, pageSize);
    }
  }

  /** `UserTimelineWindow` for an entry holding `all`. */
  lemma {:induction false} EntryWindow(c: Contract, user: Account, all: seq<PostId>, page: nat, pageSize: nat)
    requires pageSize <= MaxPageSize
    requires user in c.userPosts && c.userPosts[user] == all
    requires AuthoredBy(c.posts, user, all)
    ensures var r := UserTimeline(c, user, page, pageSize);
            && r.Success?
            && |r.value| == PageLen(|all|, page, pageSize)
            && forall k :: 0 <= k < |r.value| ==>
                 r.value[k] == c.posts[all[|all| - Skipped(page, pageSize) - 1 - k]]
  {
    LookupPage(c.posts, user, all, page, pageSize);
    assert UserTimeline(c, user, page, pageSize) == LookupAll(c.posts, Page(all, page, pageSize).value);
  }

  /** `user_timeline` never reaches its unwrap panic on a state any history
      of calls can produce. */
  lemma UserTimelineNeverUnwrapsNone(calls: seq<Call>, user: Account, page: nat, pageSize: nat)
    ensures UserTimeline(Run(calls), user, page, pageSize) != Failure(UnwrapOnNone)
  {
    RunValid(calls);
    UserTimelineAuthored(Run(calls), user, page, pageSize);
  }

  /** A new post heads the first page of the public timeline. */
  lemma NewPostHeadsPublicTimeline(c: Contract, signer: Account, now: nat, content: string, pageSize: nat)
    requires 1 <= pageSize <= MaxPageSize
    requires Utf8Len(content) <= MaxContentLen
    ensures var o := CreatePost(c, signer, now, content);
            var pub := PublicTimeline(o.state, 1, pageSize);
            && o.result.Success?
            && pub.Success? && |pub.value| >= 1 && pub.value[0] == o.result.value
  {
  }

  /** A new post heads the first page of its author's timeline. */
  lemma {:induction false} NewPostHeadsUserTimeline(c: Contract, signer: Account, now: nat, content: string, pageSize: nat)
    requires UserIndexExact(c)
    requires 1 <= pageSize <= MaxPageSize
    requires Utf8Len(content) <= MaxContentLen
    ensures var o := CreatePost(c, signer, now, content);
            var mine := UserTimeline(o.state, signer, 1, pageSize);
            && o.result.Success?
            && mine.Success? && |mine.value| >= 1 && mine.value[0] == o.result.value
  {
    var o := CreatePost(c, signer, now, content);
    var c' := o.state;
    var all := c'.userPosts[signer];
    var ids := Page(all, 1, pageSize).value;
    assert ids[0] == all[|all| - 1] == |c.posts|;
    CreatePostKeepsIndex(c, signer, now, content);
    assert all == IdsBy(c'.posts, signer);
    PageKeepsAuthor(c'.posts, signer, all, 1, pageSize);
    assert UserTimeline(c', signer, 1, pageSize) == LookupAll(c'.posts, ids);
  }

  // ---------------------------------------------------------------------
  // The follow graph

  lemma FollowIdempotent(c: Contract, me: Account, user: Account)
    ensures Follow(Follow(c, me, user), me, user) == Follow(c, me, user)
  {
  }

  lemma UnfollowIdempotent(c: Contract, me: Account, user: Account)
    ensures Unfollow(Unfollow(c, me, user), me, user) == Unfollow(c, me, user)
  {
    var once := Unfollow(c, me, user);
    if me in c.followings {
      assert once.followings[me] - {user} == once.followings[me];
    }
    if user in c.followers {
      assert once.followers[user] - {me} == once.followers[user];
    }
  }

  /** Unfollowing right after following gives back the follow relation of
      before, when `me` did not follow `user` already. */
  lemma FollowThenUnfollowRestoresRelation(c: Contract, me: Account, user: Account)
    requires !IsFollow(c, me, user)
    requires !HasFollower(c, user, me)
    ensures var r := Unfollow(Follow(c, me, user), me, user);
            && (forall a, b :: IsFollow(r, a, b) <==> IsFollow(c, a, b))
            && (forall a, b :: HasFollower(r, a, b) <==> HasFollower(c, a, b))
  {
  }

  /** On a well-formed state the followers listing and the followings listing
      describe one relation. */
  lemma FollowersListFollowers(c: Contract, user: Account, page: nat, pageSize: nat, order: seq<Account>)
    requires Mirror(c)
    requires user in c.followers ==> Lists(order, c.followers[user])
    ensures var r := Followers(c, user, page, pageSize, order);
            r.Success? ==> forall k :: 0 <= k < |r.value| ==> IsFollow(c, r.value[k], user)
  {
  }

  /** `is_follow(user1, user2)` agrees with the `followings` listing of
      `user1`: it holds exactly when `user2` is listed on some page of
      full size. */
  lemma IsFollowIffListed(c: Contract, user1: Account, user2: Account, order: seq<Account>)
    requires user1 in c.followings ==> Lists(order, c.followings[user1])
    ensures IsFollow(c, user1, user2) <==>
            exists page: nat :: 1 <= page && Followings(c, user1, page, MaxPageSize, order).Success?
                                  && user2 in Followings(c, user1, page, MaxPageSize, order).value
  {
    if IsFollow(c, user1, user2) {
      var i :| 0 <= i < |order| && order[i] == user2;
      var j := |order| - 1 - i;
      EveryItemOnSomePage(order, MaxPageSize, j);
      var page := j / MaxPageSize + 1;
      var r := Followings(c, user1, page, MaxPageSize, order);
      assert r.value[j % MaxPageSize] == user2;
    }
  }

  /** The follow maps after `me` follows `user` and then `user2`. */
  lemma FollowTwoMaps(me: Account, user: Account, user2: Account)
    requires user != user2 && me != user && me != user2
    ensures var c := Follow(Follow(Default(), me, user), me, user2);
            && c.followings == map[me := {user, user2}]
            && c.followers == map[user := {me}, user2 := {me}]
  {
    var none: set<Account> := {};
    assert none + {user} == {user} && none + {me} == {me};
    var c1 := Follow(Default(), me, user);
    assert c1.followings == map[me := {user}];
    assert c1.followers == map[user := {me}];
    var c := Follow(c1, me, user2);
    assert {user} + {user2} == {user, user2};
    assert c.followings == c1.followings[me := {user, user2}];
    assert c.followers == c1.followers[user2 := {me}];
  }

  lemma ListsTwo(a: Account, b: Account, s: set<Account>)
    requires a != b && s == {a, b}
    ensures Lists([a, b], s)
  {
  }

  lemma ListsOne(a: Account, s: set<Account>)
    requires s == {a}
    ensures Lists([a], s)
  {
  }

  /** The follow scenario of the contract's own unit test: `me` follows
      `user` and then `user2`. With storage order `[user, user2]` (the order
      the set appends in, which this model takes as a parameter), the first
      page of `followings(me)` lists `user2` before `user`; `followers(user)`
      lists `me` alone, and `followers(me)` is empty. */
  lemma FollowTwoListsNewestFirst(me: Account, user: Account, user2: Account)
    requires user != user2 && me != user && me != user2
    ensures var c := Follow(Follow(Default(), me, user), me, user2);
            && Lists([user, user2], c.followings[me])
            && Followings(c, me, 1, MaxPageSize, [user, user2]) == Success([user2, user])
            && Lists([me], c.followers[user])
            && Followers(c, user, 1, MaxPageSize, [me]) == Success([me])
            && Followers(c, me, 1, MaxPageSize, []) == Success([])
  {
    FollowTwoMaps(me, user, user2);
    var c := Follow(Follow(Default(), me, user), me, user2);
    ListsTwo(user, user2, c.followings[me]);
    ListsOne(me, c.followers[user]);
    assert [user, user2][0..2] == [user, user2];
    assert Reverse([user, user2]) == [user2, user];
    assert Page([user, user2], 1, MaxPageSize) == Success([user2, user]);
    assert [me][0..1] == [me];
    assert Reverse([me]) == [me];
    assert Page([me], 1, MaxPageSize) == Success([me]);
  }
}
