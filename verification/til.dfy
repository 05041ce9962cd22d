/** The TIL contract: an append-only log of posts, a per-author index of post
    ids, and a follow graph kept twice, once from each side. Every public
    method is a pure transition; the signer account and the block timestamp,
    which the contract reads from its runtime, are parameters here. */
module Til {
  import opened Wrappers
  import opened Panics
  import opened Paging

  type Account = string
  type PostId = nat

  /** Longest accepted post content, in UTF-8 bytes. */
  const MaxContentLen: nat := 300

  /** A post; `createdAt` is the block timestamp in nanoseconds. */
  datatype Post = Post(id: PostId, content: string, user: Account, createdAt: nat)

  datatype Contract = Contract(
    posts: seq<Post>,
    userPosts: map<Account, seq<PostId>>,
    followings: map<Account, set<Account>>,
    followers: map<Account, set<Account>>)

  /** What a state-changing call leaves behind and what it returns. */
  datatype Outcome<T> = Outcome(state: Contract, result: Result<T, Panic>)

  /** The contract as it is first deployed. */
  function Default(): Contract {
    Contract([], map[], map[], map[])
  }

  // ---------------------------------------------------------------------
  // Content length

  /** Bytes UTF-8 uses to encode one Unicode scalar value. */
  function Utf8Width(c: char): (w: nat)
    ensures 1 <= w <= 4
  {
    var v := c as int;
    if v < 0x80 then 1 else if v < 0x800 then 2 else if v < 0x1_0000 then 3 else 4
  }

  /** `String::len`: the UTF-8 byte length of a string. */
  function Utf8Len(s: string): (n: nat)
    ensures |s| <= n <= 4 * |s|
  {
    if |s| == 0 then 0 else Utf8Len(s[..|s| - 1]) + Utf8Width(s[|s| - 1])
  }

  /** `Post::new`: a post stamped with the block time, or a panic when the
      content is over the byte limit. */
  function NewPost(id: PostId, content: string, user: Account, now: nat): (r: Result<Post, Panic>)
    ensures r.Failure? <==> Utf8Len(content) > MaxContentLen
    ensures r.Failure? ==> r.error == ContentTooLong
    ensures r.Success? ==> r.value.id == id && r.value.content == content
                           && r.value.user == user && r.value.createdAt == now
  {
    if Utf8Len(content) > MaxContentLen then Failure(ContentTooLong)
    else Success(Post(id, content, user, now))
  }

  /** Every content of at most 75 characters is accepted, and none of more
      than 300 characters is, whatever the characters are. */
  lemma ContentLimitInCharacters(id: PostId, content: string, user: Account, now: nat)
    ensures |content| <= MaxContentLen / 4 ==> NewPost(id, content, user, now).Success?
    ensures |content| > MaxContentLen ==> NewPost(id, content, user, now).Failure?
  {
  }

  // ---------------------------------------------------------------------
  // The per-author index

  /** Every id in `ids` names a stored post written by `u`. */
  ghost predicate AuthoredBy(posts: seq<Post>, u: Account, ids: seq<PostId>) {
    forall k :: 0 <= k < |ids| ==> ids[k] < |posts| && posts[ids[k]].user == u
  }

  ghost predicate StrictlyIncreasing(ids: seq<PostId>) {
    forall j, k :: 0 <= j < k < |ids| ==> ids[j] < ids[k]
  }

  /** The ids of the posts `u` wrote, oldest first: what `user_posts` should
      hold for `u`. */
  function IdsBy(posts: seq<Post>, u: Account): (r: seq<PostId>)
    ensures AuthoredBy(posts, u, r)
    ensures StrictlyIncreasing(r)
    ensures forall i :: 0 <= i < |posts| && posts[i].user == u ==> i in r
  {
    if |posts| == 0 then []
    else
      var last := |posts| - 1;
      IdsBy(posts[..last], u) + (if posts[last].user == u then [last] else [])
  }

  lemma IdsByAppend(posts: seq<Post>, p: Post, u: Account)
    ensures IdsBy(posts + [p], u) == IdsBy(posts, u) + (if p.user == u then [|posts|] else [])
  {
    assert (posts + [p])[..|posts|] == posts;
  }

  /** The id list of `u`, empty when `u` has never posted. */
  function UserPostIds(c: Contract, u: Account): seq<PostId> {
    if u in c.userPosts then c.userPosts[u] else []
  }

  // ---------------------------------------------------------------------
  // The follow graph

  /** `is_follow(user1, user2)`: whether `user1` follows `user2`. */
  predicate IsFollow(c: Contract, user1: Account, user2: Account) {
    user1 in c.followings && user2 in c.followings[user1]
  }

  /** Whether the followers side records `follower` under `user`. */
  predicate HasFollower(c: Contract, user: Account, follower: Account) {
    user in c.followers && follower in c.followers[user]
  }

  // ---------------------------------------------------------------------
  // Well-formedness

  ghost predicate PostIdsMatch(posts: seq<Post>) {
    forall i :: 0 <= i < |posts| ==> posts[i].id == i
  }

  /** `user_posts` lists, for every author and only for authors, exactly the
      ids of their posts in the order they were written. An entry is only
      ever created by a post, so no entry is empty. */
  ghost predicate UserIndexExact(c: Contract) {
    && (forall u :: u in c.userPosts ==> c.userPosts[u] == IdsBy(c.posts, u))
    && (forall u :: u in c.userPosts ==> |c.userPosts[u]| > 0)
    && (forall i :: 0 <= i < |c.posts| ==> c.posts[i].user in c.userPosts)
  }

  /** The two sides of the follow graph agree. */
  ghost predicate Mirror(c: Contract) {
    forall a, b :: IsFollow(c, a, b) <==> HasFollower(c, b, a)
  }

  ghost predicate Valid(c: Contract) {
    PostIdsMatch(c.posts) && UserIndexExact(c) && Mirror(c)
  }

  lemma DefaultValid()
    ensures Valid(Default())
  {
  }

  /** What `user_timeline`'s `unwrap` relies on: every listed id names a
      stored post, and that post was written by the user it is listed under. */
  lemma ValidIndexSound(c: Contract, u: Account, k: nat)
    requires Valid(c)
    requires u in c.userPosts && k < |c.userPosts[u]|
    ensures c.userPosts[u][k] < |c.posts|
    ensures c.posts[c.userPosts[u][k]].user == u
    ensures c.posts[c.userPosts[u][k]].id == c.userPosts[u][k]
  {
  }

  // ---------------------------------------------------------------------
  // Transitions

  /** `create_post`, signed by `signer` in a block stamped `now`. */
  function CreatePost(c: Contract, signer: Account, now: nat, content: string): (o: Outcome<Post>)
    ensures o.result.Failure? <==> Utf8Len(content) > MaxContentLen
    ensures o.result.Failure? ==> o.state == c && o.result.error == ContentTooLong
    ensures o.result.Success? ==>
              && o.result.value == Post(|c.posts|, content, signer, now)
              && o.state.posts == c.posts + [o.result.value]
              && signer in o.state.userPosts
              && o.state.userPosts[signer] == UserPostIds(c, signer) + [|c.posts|]
              && (forall u :: u != signer ==> (u in o.state.userPosts <==> u in c.userPosts))
              && (forall u :: u != signer && u in c.userPosts ==> o.state.userPosts[u] == c.userPosts[u])
              && o.state.followings == c.followings
              && o.state.followers == c.followers
  {
    match NewPost(|c.posts|, content, signer, now)
    case Failure(e) => Outcome(c, Failure(e))
    case Success(post) =>
      var ups := UserPostIds(c, signer) + [post.id];
      Outcome(c.(posts := c.posts + [post], userPosts := c.userPosts[signer := ups]), Success(post))
  }

  /** `follow(user)`, signed by `me`. */
  function Follow(c: Contract, me: Account, user: Account): (r: Contract)
    ensures IsFollow(r, me, user) && HasFollower(r, user, me)
    ensures forall a, b :: (a, b) != (me, user) ==> (IsFollow(r, a, b) <==> IsFollow(c, a, b))
    ensures forall a, b :: (a, b) != (user, me) ==> (HasFollower(r, a, b) <==> HasFollower(c, a, b))
    ensures r.posts == c.posts && r.userPosts == c.userPosts
    ensures r.followings.Keys == c.followings.Keys + {me} && r.followers.Keys == c.followers.Keys + {user}
  {
    var followings := if me in c.followings then c.followings[me] else {};
    var followers := if user in c.followers then c.followers[user] else {};
    c.(followings := c.followings[me := followings + {user}],
       followers := c.followers[user := followers + {me}])
  }

  /** `unfollow(user)`, signed by `me`. An account with no entry on a side
      leaves that side untouched. */
  function Unfollow(c: Contract, me: Account, user: Account): (r: Contract)
    ensures !IsFollow(r, me, user) && !HasFollower(r, user, me)
    ensures forall a, b :: (a, b) != (me, user) ==> (IsFollow(r, a, b) <==> IsFollow(c, a, b))
    ensures forall a, b :: (a, b) != (user, me) ==> (HasFollower(r, a, b) <==> HasFollower(c, a, b))
    ensures r.posts == c.posts && r.userPosts == c.userPosts
    ensures r.followings.Keys == c.followings.Keys && r.followers.Keys == c.followers.Keys
  {
    var c1 := if me in c.followings
              then c.(followings := c.followings[me := c.followings[me] - {user}])
              else c;
    if user in c1.followers
    then c1.(followers := c1.followers[user := c1.followers[user] - {me}])
    else c1
  }

  // ---------------------------------------------------------------------
  // Queries

  /** `public_timeline`: a page of all posts, newest first. */
  function PublicTimeline(c: Contract, page: nat, pageSize: nat): (r: Result<seq<Post>, Panic>)
    ensures r.Failure? <==> pageSize > MaxPageSize
    ensures r.Failure? ==> r.error == PageSizeTooLarge
    ensures r.Success? ==> |r.value| == PageLen(|c.posts|, page, pageSize)
    ensures r.Success? ==> forall k :: 0 <= k < |r.value| ==>
              r.value[k] == c.posts[|c.posts| - Skipped(page, pageSize) - 1 - k]
  {
    Page(c.posts, page, pageSize)
  }

  /** `.map(|id| self.posts.get(*id).unwrap())`: the posts named by `ids`, or
      the unwrap panic when one of them is not stored. */
  function LookupAll(posts: seq<Post>, ids: seq<PostId>): (r: Result<seq<Post>, Panic>)
    ensures r.Success? <==> forall k :: 0 <= k < |ids| ==> ids[k] < |posts|
    ensures r.Failure? ==> r.error == UnwrapOnNone
    ensures r.Success? ==> |r.value| == |ids|
    ensures r.Success? ==> forall k :: 0 <= k < |ids| ==> r.value[k] == posts[ids[k]]
  {
    if |ids| == 0 then Success([])
    else if ids[0] >= |posts| then Failure(UnwrapOnNone)
    else match LookupAll(posts, ids[1..])
      case Failure(e) => Failure(e)
      case Success(rest) => Success([posts[ids[0]]] + rest)
  }

  /** `user_timeline`: a page of the posts of `user`, newest first. A user
      with no entry gets nothing, whatever the page size. */
  function UserTimeline(c: Contract, user: Account, page: nat, pageSize: nat): (r: Result<seq<Post>, Panic>)
    ensures user !in c.userPosts ==> r == Success([])
    ensures user in c.userPosts && pageSize > MaxPageSize ==> r == Failure(PageSizeTooLarge)
  {
    if user in c.userPosts then
      match Page(c.userPosts[user], page, pageSize)
      case Failure(e) => Failure(e)
      case Success(ids) => LookupAll(c.posts, ids)
    else Success([])
  }

  /** True when `order` lists every member of `s` exactly once; the storage
      order of an `UnorderedSet` is such a listing. */
  ghost predicate Lists(order: seq<Account>, s: set<Account>) {
    && (forall a :: a in order <==> a in s)
    && (forall i, j :: 0 <= i < j < |order| ==> order[i] != order[j])
  }

  /** A listing of a set has as many entries as the set has members. */
  lemma {:induction false} ListsCount(order: seq<Account>, s: set<Account>)
    requires Lists(order, s)
    ensures |order| == |s|
  {
    if |order| == 0 {
      assert forall a :: a !in s;
    } else {
      var n := |order| - 1;
      var last := order[n];
      assert last in s;
      var rest := s - {last};
      forall a ensures a in order[..n] <==> a in rest {
        if a in order[..n] {
          var i :| 0 <= i < n && order[..n][i] == a;
          assert order[i] != order[n];
        }
        if a in rest {
          var i :| 0 <= i < |order| && order[i] == a;
          assert order[..n][i] == a;
        }
      }
      ListsCount(order[..n], rest);
    }
  }

  /** `followings(user, …)`, where `order` is the storage order of the
      accounts `user` follows. */
  function Followings(c: Contract, user: Account, page: nat, pageSize: nat, order: seq<Account>)
    : (r: Result<seq<Account>, Panic>)
    requires user in c.followings ==> Lists(order, c.followings[user])
    ensures user !in c.followings ==> r == Success([])
    ensures user in c.followings ==> (r.Failure? <==> pageSize > MaxPageSize)
    ensures user in c.followings ==> |order| == |c.followings[user]|
    ensures user in c.followings && r.Success? ==> |r.value| == PageLen(|order|, page, pageSize)
    ensures user in c.followings && r.Success? ==> forall k :: 0 <= k < |r.value| ==>
              r.value[k] == order[|order| - Skipped(page, pageSize) - 1 - k]
    ensures r.Success? ==> forall k :: 0 <= k < |r.value| ==> IsFollow(c, user, r.value[k])
    ensures r.Success? ==> forall j, k :: 0 <= j < k < |r.value| ==> r.value[j] != r.value[k]
  {
    if user in c.followings then
      ListsCount(order, c.followings[user]);
      PageKeepsDistinct(order, page, pageSize);
      Page(order, page, pageSize)
    else Success([])
  }

  /** `followers(user, …)`, where `order` is the storage order of the
      accounts following `user`. */
  function Followers(c: Contract, user: Account, page: nat, pageSize: nat, order: seq<Account>)
    : (r: Result<seq<Account>, Panic>)
    requires user in c.followers ==> Lists(order, c.followers[user])
    ensures user !in c.followers ==> r == Success([])
    ensures user in c.followers ==> (r.Failure? <==> pageSize > MaxPageSize)
    ensures user in c.followers ==> |order| == |c.followers[user]|
    ensures user in c.followers && r.Success? ==> |r.value| == PageLen(|order|, page, pageSize)
    ensures user in c.followers && r.Success? ==> forall k :: 0 <= k < |r.value| ==>
              r.value[k] == order[|order| - Skipped(page, pageSize) - 1 - k]
    ensures r.Success? ==> forall k :: 0 <= k < |r.value| ==> HasFollower(c, user, r.value[k])
    ensures r.Success? ==> forall j, k :: 0 <= j < k < |r.value| ==> r.value[j] != r.value[k]
  {
    if user in c.followers then
      ListsCount(order, c.followers[user]);
      PageKeepsDistinct(order, page, pageSize);
      Page(order, page, pageSize)
    else Success([])
  }
}
