/**
 * backend/controllers/postController.js: creating, listing, editing and
 * deleting posts, the like toggle and comments. Each handler that writes
 * is a method on the database that reassigns the stored post; the
 * per-field rules it applies are specified by functions with their own
 * lemmas (the like toggle undoes itself, an added comment can be removed
 * again, an update is idempotent).
 */
module Posts {
  import opened Common
  import opened Records
  import opened Db

  // ---------------------------------------------------------------------------
  // createPost

  /**
   * `createPost`: a new post by the requester, with image `''` unless a
   * non-empty one is given, no tags unless given, and public unless
   * `isPublic` is given. No likes and no comments. Always 201. The new id
   * is fresh, as every ObjectId MongoDB assigns is.
   */
  method CreatePost(db: Database, me: Id, content: string, image: Option<string>,
                    tags: Option<seq<string>>, isPublic: Option<bool>, newId: Id)
    returns (r: Reply<Post>)
    requires db.Valid()
    requires forall k :: 0 <= k < |db.posts| ==> db.posts[k].id != newId
    modifies db
    ensures db.Valid()
    ensures r.Ok? && r.status == StatusCreated
    ensures r.body.id == newId && r.body.author == me && r.body.content == content
    ensures r.body.image == (if image.Some? then image.value else "")
    ensures r.body.tags == (if tags.Some? then tags.value else [])
    ensures r.body.isPublic == (isPublic.None? || isPublic.value)
    ensures r.body.likes == [] && r.body.comments == [] && r.body.createdAt == old(db.clock)
    ensures db.posts == old(db.posts) + [r.body]
    ensures db.users == old(db.users) && db.messages == old(db.messages) && db.clock == old(db.clock)
  {
    var img := if image.Some? && image.value != "" then image.value else "";
    var ts := if tags.Some? then tags.value else [];
    var pub := if isPublic.Some? then isPublic.value else true;
    var p := Post(newId, me, content, img, ts, pub, [], [], db.clock);
    db.posts := db.posts + [p];
    r := Ok(StatusCreated, p);
  }

  // ---------------------------------------------------------------------------
  // getPostById

  /** `getPostById`: the post with this id, or 404. */
  function GetPostById(ps: seq<Post>, id: Id): (r: Reply<Post>)
    ensures r.Error? <==> forall k :: 0 <= k < |ps| ==> ps[k].id != id
    ensures r.Error? ==> r.status == StatusNotFound
    ensures r.Ok? ==> r.status == StatusOk && r.body in ps && r.body.id == id
  {
    var i := FindPost(ps, id);
    if i < 0 then Error(StatusNotFound) else Ok(StatusOk, ps[i])
  }

  /** A post created under an id no stored post has is the one `getPostById` then finds. */
  lemma CreatedPostFound(ps: seq<Post>, p: Post)
    requires forall k :: 0 <= k < |ps| ==> ps[k].id != p.id
    ensures GetPostById(ps + [p], p.id) == Ok(StatusOk, p)
  {
    assert (ps + [p])[|ps|] == p;
  }

  // ---------------------------------------------------------------------------
  // getPosts

  /** The public posts of `ps` whose author is one of `authors`, in store order. */
  function PublicBy(ps: seq<Post>, authors: seq<Id>): (r: seq<Post>)
    ensures |r| <= |ps|
    ensures forall p :: p in r <==> p in ps && p.isPublic && p.author in authors
    ensures PostsOldestFirst(ps) ==> PostsOldestFirst(r)
  {
    if ps == [] then []
    else
      var last := ps[|ps| - 1];
      var rest := PublicBy(ps[..|ps| - 1], authors);
      assert ps == ps[..|ps| - 1] + [last];
      if last.isPublic && last.author in authors then
        PostsOldestFirstSnoc(ps, rest);
        rest + [last]
      else rest
  }

  /**
   * The authors a feed query admits: only `userId` when one is given (a
   * non-empty string), otherwise the requester's following list and the
   * requester. `None` when the requester's record is missing, where the
   * handler dereferences `null` and replies 500.
   */
  function FeedAuthors(us: seq<User>, me: Id, userId: Option<Id>): (r: Option<seq<Id>>)
    ensures userId.Some? && userId.value != "" ==> r == Some([userId.value])
    ensures (userId.None? || userId.value == "") ==>
      (r.None? <==> !UserExists(us, me))
    ensures (userId.None? || userId.value == "") && r.Some? ==>
      forall a :: a in r.value <==> a == me || a in us[FindUser(us, me)].following
  {
    if userId.Some? && userId.value != "" then Some([userId.value])
    else
      var i := FindUser(us, me);
      if i < 0 then None else Some(us[i].following + [me])
  }

  /**
   * `getPosts`: page `page` (default 1) of `limit` (default 10) public
   * posts of the admitted authors, newest first, with the page count and
   * the total number of matching posts.
   */
  function GetPosts(us: seq<User>, ps: seq<Post>, me: Id, userId: Option<Id>,
                    page: Option<nat>, limit: Option<nat>): (r: Reply<Page<Post>>)
    ensures r.Error? <==> FeedAuthors(us, me, userId).None?
    ensures r.Error? ==> r.status == StatusServerError
    ensures r.Ok? ==>
      var authors := FeedAuthors(us, me, userId).value;
      var p := OrDefault(page, 1);
      var l := OrDefault(limit, 10);
      && r.status == StatusOk
      && r.body.currentPage == p
      && r.body.total == |PublicBy(ps, authors)|
      && r.body.totalPages == CeilDiv(r.body.total, l)
      && |r.body.items| <= l
      && (forall q :: q in r.body.items ==> q in ps && q.isPublic && q.author in authors)
      && IsNewestPage(r.body.items, PublicBy(ps, authors), p, l)
  {
    var authors := FeedAuthors(us, me, userId);
    if authors.None? then Error(StatusServerError)
    else
      var p := OrDefault(page, 1);
      var l := OrDefault(limit, 10);
      Ok(StatusOk, NewestPage(PublicBy(ps, authors.value), p, l))
  }

  /** Any window of posts stored in creation order, taken newest first, is newest first. */
  lemma {:induction false} NewestWindowOfPosts(s: seq<Post>, skip: nat, limit: nat)
    requires PostsOldestFirst(s)
    ensures PostsNewestFirst(Window(Reverse(s), skip, limit))
  {
    var w := Window(Reverse(s), skip, limit);
    forall i, j | 0 <= i < j < |w| ensures w[i].createdAt >= w[j].createdAt {
      assert w[i] == s[|s| - 1 - (skip + i)];
      assert w[j] == s[|s| - 1 - (skip + j)];
    }
  }

  /** A page of posts stored in creation order, taken newest first, is newest first. */
  lemma NewestPageOfPosts(s: seq<Post>, page: nat, limit: nat)
    requires page >= 1 && limit >= 1
    requires PostsOldestFirst(s)
    ensures PostsNewestFirst(NewestPage(s, page, limit).items)
  {
    NewestWindowOfPosts(s, (page - 1) * limit, limit);
  }

  /** With posts stored in creation order, every page of the feed is newest first. */
  lemma GetPostsNewestFirst(us: seq<User>, ps: seq<Post>, me: Id, userId: Option<Id>,
                            page: Option<nat>, limit: Option<nat>)
    requires PostsOldestFirst(ps)
    requires FeedAuthors(us, me, userId).Some?
    ensures PostsNewestFirst(GetPosts(us, ps, me, userId, page, limit).body.items)
  {
    NewestPageOfPosts(PublicBy(ps, FeedAuthors(us, me, userId).value), OrDefault(page, 1), OrDefault(limit, 10));
  }

  // ---------------------------------------------------------------------------
  // updatePost

  /**
   * The fields `updatePost` assigns: content only when a non-empty one is
   * given, tags whenever given, image and visibility whenever given (an
   * empty image and `false` included).
   */
  function Updated(p: Post, content: Option<string>, image: Option<string>,
                   tags: Option<seq<string>>, isPublic: Option<bool>): (q: Post)
  {
    p.(content := if content.Some? && content.value != "" then content.value else p.content,
       image := if image.Some? then image.value else p.image,
       tags := if tags.Some? then tags.value else p.tags,
       isPublic := if isPublic.Some? then isPublic.value else p.isPublic)
  }

  /**
   * An update leaves identity, author, likes, comments and creation time
   * alone; each editable field either takes the given value or keeps the old one.
   */
  lemma UpdatedFields(p: Post, content: Option<string>, image: Option<string>,
                      tags: Option<seq<string>>, isPublic: Option<bool>)
    ensures var q := Updated(p, content, image, tags, isPublic);
      && q.id == p.id && q.author == p.author && q.likes == p.likes
      && q.comments == p.comments && q.createdAt == p.createdAt
      && ((content.None? || content.value == "") ==> q.content == p.content)
      && (content.Some? && content.value != "" ==> q.content == content.value)
      && (image.Some? ==> q.image == image.value) && (image.None? ==> q.image == p.image)
      && (tags.Some? ==> q.tags == tags.value) && (tags.None? ==> q.tags == p.tags)
      && (isPublic.Some? ==> q.isPublic == isPublic.value) && (isPublic.None? ==> q.isPublic == p.isPublic)
  {
  }

  /** Sending the same update twice has the effect of sending it once. */
  lemma UpdatedIdempotent(p: Post, content: Option<string>, image: Option<string>,
                          tags: Option<seq<string>>, isPublic: Option<bool>)
    ensures var q := Updated(p, content, image, tags, isPublic);
      Updated(q, content, image, tags, isPublic) == q
  {
  }

  /** An update with no fields (or only an empty content) changes nothing. */
  lemma UpdatedNothing(p: Post, content: Option<string>)
    requires content.None? || content.value == ""
    ensures Updated(p, content, None, None, None) == p
  {
  }

  /**
   * `updatePost`: 404 for an unknown post, 401 unless the requester wrote
   * it; otherwise the post is replaced by its updated version in place.
   */
  method UpdatePost(db: Database, me: Id, postId: Id, content: Option<string>, image: Option<string>,
                    tags: Option<seq<string>>, isPublic: Option<bool>)
    returns (r: Reply<Post>)
    requires db.Valid()
    modifies db
    ensures db.Valid()
    ensures db.users == old(db.users) && db.messages == old(db.messages) && db.clock == old(db.clock)
    ensures var i := FindPost(old(db.posts), postId);
      && (r.status == StatusNotFound <==> i < 0)
      && (r.status == StatusUnauthorized <==> i >= 0 && old(db.posts)[i].author != me)
      && (r.Ok? <==> i >= 0 && old(db.posts)[i].author == me)
      && (r.Error? ==> db.posts == old(db.posts))
      && (r.Ok? ==>
            && r.status == StatusOk
            && r.body == Updated(old(db.posts)[i], content, image, tags, isPublic)
            && db.posts == old(db.posts)[i := r.body])
  {
    var i := FindPost(db.posts, postId);
    if i < 0 {
      return Error(StatusNotFound);
    }
    var post := db.posts[i];
    if post.author != me {
      return Error(StatusUnauthorized);
    }
    if content.Some? && content.value != "" {
      post := post.(content := content.value);
    }
    if image.Some? {
      post := post.(image := image.value);
    }
    if tags.Some? {
      post := post.(tags := tags.value);
    }
    if isPublic.Some? {
      post := post.(isPublic := isPublic.value);
    }
    ReplaceKeepsOrder(db.posts, i, post);
    db.posts := db.posts[i := post];
    r := Ok(StatusOk, post);
  }

  // ---------------------------------------------------------------------------
  // deletePost

  /**
   * `deletePost`: 404 for an unknown post, 401 unless the requester wrote
   * it; otherwise the post is removed and the others keep their order.
   */
  method DeletePost(db: Database, me: Id, postId: Id) returns (r: Reply<()>)
    requires db.Valid()
    modifies db
    ensures db.Valid()
    ensures db.users == old(db.users) && db.messages == old(db.messages) && db.clock == old(db.clock)
    ensures var i := FindPost(old(db.posts), postId);
      && (r.status == StatusNotFound <==> i < 0)
      && (r.status == StatusUnauthorized <==> i >= 0 && old(db.posts)[i].author != me)
      && (r.Ok? <==> i >= 0 && old(db.posts)[i].author == me)
      && (r.Error? ==> db.posts == old(db.posts))
      && (r.Ok? ==> r.status == StatusOk && db.posts == RemoveAt(old(db.posts), i))
  {
    var i := FindPost(db.posts, postId);
    if i < 0 {
      return Error(StatusNotFound);
    }
    if db.posts[i].author != me {
      return Error(StatusUnauthorized);
    }
    RemoveAtKeepsOrder(db.posts, i);
    db.posts := RemoveAt(db.posts, i);
    r := Ok(StatusOk, ());
  }

  /**
   * Removing the post `deletePost` found leaves no post with that id (ids
   * being unique), and every other post is still there.
   */
  lemma DeletedPostGone(ps: seq<Post>, id: Id)
    requires UniquePostIds(ps)
    requires FindPost(ps, id) >= 0
    ensures var rest := RemoveAt(ps, FindPost(ps, id));
      && GetPostById(rest, id).Error?
      && forall p :: p in ps && p.id != id ==> p in rest
  {
    var i := FindPost(ps, id);
    var rest := RemoveAt(ps, i);
    forall k | 0 <= k < |rest| ensures rest[k].id != id {
      if k < i { assert rest[k] == ps[k]; } else { assert rest[k] == ps[k + 1]; }
    }
    forall p | p in ps && p.id != id ensures p in rest {
      var k :| 0 <= k < |ps| && ps[k] == p;
      if k < i { assert rest[k] == p; } else { assert k != i; assert rest[k - 1] == p; }
    }
  }

  /** Removing a post keeps the store in creation order. */
  lemma RemoveAtKeepsOrder(ps: seq<Post>, i: nat)
    requires i < |ps| && PostsOldestFirst(ps)
    ensures PostsOldestFirst(RemoveAt(ps, i))
  {
    var r := RemoveAt(ps, i);
    forall a, b | 0 <= a < b < |r| ensures r[a].createdAt <= r[b].createdAt {
      var a' := if a < i then a else a + 1;
      var b' := if b < i then b else b + 1;
      assert r[a] == ps[a'] && r[b] == ps[b'];
    }
  }

  // ---------------------------------------------------------------------------
  // likePost

  /**
   * The like toggle: the first occurrence of `u` is spliced out when `u`
   * has liked the post, otherwise `u` is pushed at the end.
   */
  function ToggleLike(likes: seq<Id>, u: Id): (r: seq<Id>)
  {
    var k := IndexOf(likes, u);
    if k > -1 then RemoveAt(likes, k) else likes + [u]
  }

  /** The toggle changes the number of `u`'s likes by exactly one and nobody else's. */
  lemma ToggleLikeCounts(likes: seq<Id>, u: Id)
    ensures var r := ToggleLike(likes, u);
      && (u in likes ==> multiset(r)[u] == multiset(likes)[u] - 1)
      && (u !in likes ==> multiset(r)[u] == 1)
      && forall v :: v != u ==> multiset(r)[v] == multiset(likes)[v]
  {
    var k := IndexOf(likes, u);
    if k > -1 {
      assert likes == likes[..k] + [u] + likes[k + 1..];
      assert RemoveAt(likes, k) == likes[..k] + likes[k + 1..];
    }
  }

  /** In a sequence without duplicates an element present occurs exactly once. */
  lemma NoDupOnce(s: seq<Id>, u: Id)
    requires NoDup(s) && u in s
    ensures multiset(s)[u] == 1
  {
    var k := IndexOf(s, u);
    assert s == s[..k] + [u] + s[k + 1..];
    assert u !in s[..k];
    forall j | k + 1 <= j < |s| ensures s[j] != u {
      assert s[k] == u;
    }
  }

  /** The toggle leaves everybody else's like alone. */
  lemma ToggleLikeOthers(likes: seq<Id>, u: Id)
    ensures var r := ToggleLike(likes, u);
      forall v :: v != u ==> (v in r <==> v in likes)
  {
    var r := ToggleLike(likes, u);
    ToggleLikeCounts(likes, u);
    forall v | v != u ensures v in r <==> v in likes {
      assert v in r <==> multiset(r)[v] > 0;
      assert v in likes <==> multiset(likes)[v] > 0;
    }
  }

  /** Splicing an element out keeps a sequence duplicate-free. */
  lemma RemoveAtNoDup(s: seq<Id>, k: nat)
    requires k < |s| && NoDup(s)
    ensures NoDup(RemoveAt(s, k))
  {
    var r := RemoveAt(s, k);
    forall a, b | 0 <= a < b < |r| ensures r[a] != r[b] {
      var a' := if a < k then a else a + 1;
      var b' := if b < k then b else b + 1;
      assert r[a] == s[a'] && r[b] == s[b'];
    }
  }

  /** Without duplicate likes, the toggle flips `u`'s membership and keeps the likes duplicate-free. */
  lemma ToggleLikeFlips(likes: seq<Id>, u: Id)
    requires NoDup(likes)
    ensures var r := ToggleLike(likes, u);
      && (u in r <==> u !in likes)
      && (forall v :: v != u ==> (v in r <==> v in likes))
      && NoDup(r)
  {
    var r := ToggleLike(likes, u);
    ToggleLikeCounts(likes, u);
    ToggleLikeOthers(likes, u);
    if u in likes {
      NoDupOnce(likes, u);
      assert multiset(r)[u] == 0;
      RemoveAtNoDup(likes, IndexOf(likes, u));
    } else {
      assert r == likes + [u];
    }
  }

  /** Liking a post and then toggling again restores its likes exactly. */
  lemma ToggleLikeTwice(likes: seq<Id>, u: Id)
    requires u !in likes
    ensures ToggleLike(ToggleLike(likes, u), u) == likes
  {
    var once := likes + [u];
    assert once[..|likes|] == likes;
    assert once[|likes|] == u;
    assert IndexOf(once, u) == |likes|;
    assert RemoveAt(once, |likes|) == likes;
  }

  /** Replacing a post by one with the same id and creation time keeps the store ordered and its ids unique. */
  lemma ReplaceKeepsOrder(ps: seq<Post>, i: nat, q: Post)
    requires i < |ps| && PostsOldestFirst(ps) && q.createdAt == ps[i].createdAt
    requires UniquePostIds(ps) && q.id == ps[i].id
    ensures PostsOldestFirst(ps[i := q])
    ensures UniquePostIds(ps[i := q])
  {
  }

  /** The toggle as `likePost` performs it: `indexOf`, then `splice` or `push`. */
  method Toggle(likes: seq<Id>, u: Id) returns (r: seq<Id>)
    ensures r == ToggleLike(likes, u)
  {
    r := likes;
    var likeIndex := IndexOf(r, u);
    if likeIndex > -1 {
      r := RemoveAt(r, likeIndex);
    } else {
      r := r + [u];
    }
  }

  /** `likePost`: 404 for an unknown post, otherwise the like toggle; replies with the new likes. */
  method LikePost(db: Database, me: Id, postId: Id) returns (r: Reply<seq<Id>>)
    requires db.Valid()
    modifies db
    ensures db.Valid()
    ensures db.users == old(db.users) && db.messages == old(db.messages) && db.clock == old(db.clock)
    ensures var i := FindPost(old(db.posts), postId);
      && (r.Error? <==> i < 0)
      && (r.Error? ==> r.status == StatusNotFound && db.posts == old(db.posts))
      && (r.Ok? ==>
            && r.status == StatusOk
            && r.body == ToggleLike(old(db.posts)[i].likes, me)
            && db.posts == old(db.posts)[i := old(db.posts)[i].(likes := r.body)])
  {
    var i := FindPost(db.posts, postId);
    if i < 0 {
      return Error(StatusNotFound);
    }
    var post := db.posts[i];
    var likes := Toggle(post.likes, me);
    ReplaceKeepsOrder(db.posts, i, post.(likes := likes));
    db.posts := db.posts[i := post.(likes := likes)];
    r := Ok(StatusOk, likes);
  }

  // ---------------------------------------------------------------------------
  // addComment / removeComment

  /**
   * `addComment`: 404 for an unknown post; otherwise the comment by the
   * requester is put in front of the others and is the reply.
   */
  method AddComment(db: Database, me: Id, postId: Id, content: string, newId: Id)
    returns (r: Reply<Comment>)
    requires db.Valid()
    modifies db
    ensures db.Valid()
    ensures db.users == old(db.users) && db.messages == old(db.messages) && db.clock == old(db.clock)
    ensures var i := FindPost(old(db.posts), postId);
      && (r.Error? <==> i < 0)
      && (r.Error? ==> r.status == StatusNotFound && db.posts == old(db.posts))
      && (r.Ok? ==>
            && r.status == StatusOk
            && r.body == Comment(newId, me, content)
            && db.posts == old(db.posts)[i := old(db.posts)[i].(comments := [r.body] + old(db.posts)[i].comments)])
  {
    var i := FindPost(db.posts, postId);
    if i < 0 {
      return Error(StatusNotFound);
    }
    var post := db.posts[i];
    var c := Comment(newId, me, content);
    var comments := [c] + post.comments;
    ReplaceKeepsOrder(db.posts, i, post.(comments := comments));
    db.posts := db.posts[i := post.(comments := comments)];
    r := Ok(StatusOk, comments[0]);
  }

  /**
   * `removeComment`: 404 for an unknown post or comment, 401 unless the
   * requester wrote the comment or the post; otherwise the first comment
   * with that id is removed, the rest keep their order, and the reply is
   * the remaining comments.
   */
  method RemoveComment(db: Database, me: Id, postId: Id, commentId: Id)
    returns (r: Reply<seq<Comment>>)
    requires db.Valid()
    modifies db
    ensures db.Valid()
    ensures db.users == old(db.users) && db.messages == old(db.messages) && db.clock == old(db.clock)
    ensures var i := FindPost(old(db.posts), postId);
      var k := if i < 0 then -1 else FindComment(old(db.posts)[i].comments, commentId);
      && (r.status == StatusNotFound <==> i < 0 || k < 0)
      && (r.status == StatusUnauthorized <==>
            i >= 0 && k >= 0 && old(db.posts)[i].comments[k].user != me && old(db.posts)[i].author != me)
      && (r.Ok? <==>
            i >= 0 && k >= 0 && (old(db.posts)[i].comments[k].user == me || old(db.posts)[i].author == me))
      && (r.Error? ==> db.posts == old(db.posts))
      && (r.Ok? ==>
            && r.status == StatusOk
            && r.body == RemoveAt(old(db.posts)[i].comments, k)
            && db.posts == old(db.posts)[i := old(db.posts)[i].(comments := r.body)])
  {
    var i := FindPost(db.posts, postId);
    if i < 0 {
      return Error(StatusNotFound);
    }
    var post := db.posts[i];
    var k := FindComment(post.comments, commentId);
    if k < 0 {
      return Error(StatusNotFound);
    }
    if post.comments[k].user != me && post.author != me {
      return Error(StatusUnauthorized);
    }
    var comments := RemoveAt(post.comments, k);
    ReplaceKeepsOrder(db.posts, i, post.(comments := comments));
    db.posts := db.posts[i := post.(comments := comments)];
    r := Ok(StatusOk, comments);
  }

  /**
   * A comment added under a fresh id can be removed again by its writer,
   * and removing it restores the comments exactly.
   */
  lemma AddThenRemoveComment(cs: seq<Comment>, c: Comment)
    requires forall k :: 0 <= k < |cs| ==> cs[k].id != c.id
    ensures FindComment([c] + cs, c.id) == 0
    ensures RemoveAt([c] + cs, FindComment([c] + cs, c.id)) == cs
  {
    assert ([c] + cs)[0] == c;
  }

  /**
   * Removal takes out exactly the comment found: with unique comment ids
   * it is gone afterwards and every other comment stays.
   */
  lemma RemovedCommentGone(cs: seq<Comment>, id: Id)
    requires forall a, b :: 0 <= a < b < |cs| ==> cs[a].id != cs[b].id
    requires FindComment(cs, id) >= 0
    ensures var rest := RemoveAt(cs, FindComment(cs, id));
      && FindComment(rest, id) == -1
      && forall c :: c in cs && c.id != id ==> c in rest
  {
    var k := FindComment(cs, id);
    var rest := RemoveAt(cs, k);
    forall j | 0 <= j < |rest| ensures rest[j].id != id {
      if j < k { assert rest[j] == cs[j]; } else { assert rest[j] == cs[j + 1]; }
    }
    forall c | c in cs && c.id != id ensures c in rest {
      var j :| 0 <= j < |cs| && cs[j] == c;
      if j < k { assert rest[j] == c; } else { assert j != k; assert rest[j - 1] == c; }
    }
  }
}
