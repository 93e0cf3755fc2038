/**
 * The user and post documents as the controllers read and write them.
 * The schemas themselves (backend/models/User.js and backend/models/Post.js)
 * are not part of this model: the fields below are the ones the controllers
 * use, and the schemas' own validators are not modelled.
 */
module Records {
  import opened Common

  datatype User = User(
    id: Id,
    name: string,
    email: string,
    bio: string,
    avatar: string,
    followers: seq<Id>,
    following: seq<Id>,
    isOnline: bool,
    lastSeen: nat,
    isAdmin: bool,
    isBanned: bool,
    isVerified: bool,
    createdAt: nat)

  datatype Comment = Comment(id: Id, user: Id, content: string)

  datatype Post = Post(
    id: Id,
    author: Id,
    content: string,
    image: string,
    tags: seq<string>,
    isPublic: bool,
    likes: seq<Id>,
    comments: seq<Comment>,
    createdAt: nat)

  /** `User.findById`: the index of the user with this id, or -1. */
  function FindUser(us: seq<User>, id: Id): (i: int)
    ensures -1 <= i < |us|
    ensures i >= 0 ==> us[i].id == id && forall k :: 0 <= k < i ==> us[k].id != id
    ensures i == -1 ==> forall k :: 0 <= k < |us| ==> us[k].id != id
  {
    if us == [] then -1
    else if us[0].id == id then 0
    else
      var k := FindUser(us[1..], id);
      if k < 0 then -1 else k + 1
  }

  /** `Post.findById`: the index of the post with this id, or -1. */
  function FindPost(ps: seq<Post>, id: Id): (i: int)
    ensures -1 <= i < |ps|
    ensures i >= 0 ==> ps[i].id == id && forall k :: 0 <= k < i ==> ps[k].id != id
    ensures i == -1 ==> forall k :: 0 <= k < |ps| ==> ps[k].id != id
  {
    if ps == [] then -1
    else if ps[0].id == id then 0
    else
      var k := FindPost(ps[1..], id);
      if k < 0 then -1 else k + 1
  }

  /** `post.comments.find(c => c._id.toString() === commentId)`, as an index. */
  function FindComment(cs: seq<Comment>, id: Id): (i: int)
    ensures -1 <= i < |cs|
    ensures i >= 0 ==> cs[i].id == id && forall k :: 0 <= k < i ==> cs[k].id != id
    ensures i == -1 ==> forall k :: 0 <= k < |cs| ==> cs[k].id != id
  {
    if cs == [] then -1
    else if cs[0].id == id then 0
    else
      var k := FindComment(cs[1..], id);
      if k < 0 then -1 else k + 1
  }

  predicate UserExists(us: seq<User>, id: Id)
  {
    exists k :: 0 <= k < |us| && us[k].id == id
  }

  /** No two users share an id (MongoDB's `_id` is unique). */
  predicate UniqueIds(us: seq<User>)
  {
    forall i, j :: 0 <= i < j < |us| ==> us[i].id != us[j].id
  }

  /**
   * The follow graph is consistent: `b` is in `a`'s following list exactly
   * when `a` is in `b`'s followers list.
   */
  predicate FollowConsistent(us: seq<User>)
  {
    forall i, j :: 0 <= i < |us| && 0 <= j < |us| ==>
      (us[j].id in us[i].following <==> us[i].id in us[j].followers)
  }

  /** Post ids are unique, as MongoDB's `_id`. */
  predicate UniquePostIds(ps: seq<Post>)
  {
    forall i, j :: 0 <= i < j < |ps| ==> ps[i].id != ps[j].id
  }

  /** Users in the order they registered (the store's order). */
  predicate UsersOldestFirst(us: seq<User>)
  {
    forall i, j :: 0 <= i < j < |us| ==> us[i].createdAt <= us[j].createdAt
  }

  /** Posts in the order they were created (the store's order). */
  predicate PostsOldestFirst(ps: seq<Post>)
  {
    forall i, j :: 0 <= i < j < |ps| ==> ps[i].createdAt <= ps[j].createdAt
  }

  /** Keeping some older posts in order and then the newest one keeps the creation order. */
  lemma PostsOldestFirstSnoc(ps: seq<Post>, rest: seq<Post>)
    requires ps != []
    requires forall p :: p in rest ==> p in ps[..|ps| - 1]
    requires PostsOldestFirst(ps[..|ps| - 1]) ==> PostsOldestFirst(rest)
    ensures PostsOldestFirst(ps) ==> PostsOldestFirst(rest + [ps[|ps| - 1]])
  {
    if PostsOldestFirst(ps) {
      assert PostsOldestFirst(ps[..|ps| - 1]);
      var r := rest + [ps[|ps| - 1]];
      forall i, j | 0 <= i < j < |r|
        ensures r[i].createdAt <= r[j].createdAt
      {
        if j == |rest| {
          assert r[i] == rest[i] && rest[i] in rest;
          var t :| 0 <= t < |ps| - 1 && ps[t] == rest[i];
        }
      }
    }
  }

  /** Ordered by `createdAt` descending, what `.sort({ createdAt: -1 })` yields. */
  predicate PostsNewestFirst(ps: seq<Post>)
  {
    forall i, j :: 0 <= i < j < |ps| ==> ps[i].createdAt >= ps[j].createdAt
  }
}
