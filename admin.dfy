/**
 * backend/controllers/adminController.js behind
 * backend/middlewares/adminAuthMiddleware.js: the admin's user list,
 * deleting a user with everything that points at it, the ban and verify
 * toggles, and the dashboard counts.
 */
module Admin {
  import opened Common
  import opened Records
  import opened Db
  import opened Users

  // ---------------------------------------------------------------------------
  // adminAuth

  /**
   * `adminAuth`: 401 without an authenticated user, 403 for a user who is
   * not an admin; `None` lets the request through.
   */
  function AdminGuard(requester: Option<User>): (r: Option<nat>)
    ensures r.None? <==> requester.Some? && requester.value.isAdmin
    ensures requester.None? ==> r == Some(StatusUnauthorized)
    ensures requester.Some? && !requester.value.isAdmin ==> r == Some(StatusForbidden)
  {
    if requester.None? then Some(StatusUnauthorized)
    else if !requester.value.isAdmin then Some(StatusForbidden)
    else None
  }

  // ---------------------------------------------------------------------------
  // getAllUsers

  /** Every user matching the search (the requester included), in store order. */
  function AllMatching(us: seq<User>, search: string): (r: seq<User>)
    ensures |r| <= |us|
    ensures forall u :: u in r <==> u in us && MatchesSearch(u, search)
    ensures UsersOldestFirst(us) ==> UsersOldestFirst(r)
  {
    if us == [] then []
    else
      var last := us[|us| - 1];
      var rest := AllMatching(us[..|us| - 1], search);
      assert us == us[..|us| - 1] + [last];
      if MatchesSearch(last, search) then
        OldestFirstSnoc(us, rest);
        rest + [last]
      else rest
  }

  /**
   * `getAllUsers`: page `page` (default 1) of `limit` (default 20) users
   * matching `search`, newest first, with the total and the page count.
   */
  function GetAllUsers(us: seq<User>, search: Option<string>, page: Option<nat>, limit: Option<nat>)
    : (r: Page<User>)
    ensures var s := if search.Some? then search.value else "";
      && r.currentPage == OrDefault(page, 1)
      && |r.items| <= OrDefault(limit, 20)
      && (forall u :: u in r.items ==> u in us && MatchesSearch(u, s))
      && r.total == |AllMatching(us, s)|
      && r.totalPages == CeilDiv(r.total, OrDefault(limit, 20))
      && IsNewestPage(r.items, AllMatching(us, s), OrDefault(page, 1), OrDefault(limit, 20))
  {
    var s := if search.Some? then search.value else "";
    NewestPage(AllMatching(us, s), OrDefault(page, 1), OrDefault(limit, 20))
  }

  /** Without a search every user is counted. */
  lemma {:induction false} AllMatchingEverybody(us: seq<User>)
    ensures AllMatching(us, "") == us
  {
    if us != [] {
      var init, last := us[..|us| - 1], us[|us| - 1];
      assert MatchesSearch(last, "");
      calc {
        AllMatching(us, "");
        AllMatching(init, "") + [last];
        { AllMatchingEverybody(init); }
        init + [last];
        us;
      }
    }
  }

  /** Without a search, `totalUsers` is the number of users and the pages cover them all. */
  lemma GetAllUsersTotal(us: seq<User>, page: Option<nat>, limit: Option<nat>)
    ensures GetAllUsers(us, None, page, limit).total == |us|
  {
    AllMatchingEverybody(us);
  }

  /** With users stored in registration order, every page of `getAllUsers` is newest first. */
  lemma GetAllUsersNewestFirst(us: seq<User>, search: Option<string>, page: Option<nat>, limit: Option<nat>)
    requires UsersOldestFirst(us)
    ensures var items := GetAllUsers(us, search, page, limit).items;
      forall i, j :: 0 <= i < j < |items| ==> items[i].createdAt >= items[j].createdAt
  {
    var s := if search.Some? then search.value else "";
    NewestPageOfUsers(AllMatching(us, s), OrDefault(page, 1), OrDefault(limit, 20));
  }

  // ---------------------------------------------------------------------------
  // deleteUser

  /** The posts not written by `author` (`Post.deleteMany({ author })` keeps these), in store order. */
  function PostsNotBy(ps: seq<Post>, author: Id): (r: seq<Post>)
    ensures |r| <= |ps|
    ensures forall p :: p in r <==> p in ps && p.author != author
    ensures PostsOldestFirst(ps) ==> PostsOldestFirst(r)
    ensures UniquePostIds(ps) ==> UniquePostIds(r)
  {
    if ps == [] then []
    else
      var last := ps[|ps| - 1];
      var rest := PostsNotBy(ps[..|ps| - 1], author);
      assert ps == ps[..|ps| - 1] + [last];
      if last.author != author then
        PostsOldestFirstSnoc(ps, rest);
        UniquePostIdsSnoc(ps, rest);
        rest + [last]
      else rest
  }

  /** Keeping some of the older posts without repeated ids and then the newest one keeps the ids unique. */
  lemma UniquePostIdsSnoc(ps: seq<Post>, rest: seq<Post>)
    requires ps != []
    requires forall p :: p in rest ==> p in ps[..|ps| - 1]
    requires UniquePostIds(ps[..|ps| - 1]) ==> UniquePostIds(rest)
    ensures UniquePostIds(ps) ==> UniquePostIds(rest + [ps[|ps| - 1]])
  {
    if UniquePostIds(ps) {
      assert UniquePostIds(ps[..|ps| - 1]);
      var r := rest + [ps[|ps| - 1]];
      forall i, j | 0 <= i < j < |r|
        ensures r[i].id != r[j].id
      {
        if j == |rest| {
          assert r[i] == rest[i] && rest[i] in rest;
          var t :| 0 <= t < |ps| - 1 && ps[t] == rest[i];
        }
      }
    }
  }

  /** A user with `id` pulled from both lists. */
  function Pulled(u: User, id: Id): (v: User)
    ensures v.id == u.id
    ensures id !in v.followers && id !in v.following
    ensures v.(followers := u.followers, following := u.following) == u
    ensures forall x :: x != id ==> (x in v.followers <==> x in u.followers) && (x in v.following <==> x in u.following)
  {
    u.(followers := RemoveAll(u.followers, id), following := RemoveAll(u.following, id))
  }

  /** Every user with `id` pulled from both lists (the two `updateMany` calls with `$pull`). */
  function PulledAll(us: seq<User>, id: Id): (r: seq<User>)
    ensures |r| == |us|
    ensures forall k :: 0 <= k < |us| ==> r[k] == Pulled(us[k], id)
  {
    if us == [] then [] else [Pulled(us[0], id)] + PulledAll(us[1..], id)
  }

  /**
   * After the cascade and the removal, no remaining user is the deleted
   * one or names it in either list.
   */
  lemma DeleteLeavesNoTrace(us: seq<User>, i: nat)
    requires i < |us| && UniqueIds(us)
    ensures var id := us[i].id;
      var r := RemoveAt(PulledAll(us, id), i);
      && |r| == |us| - 1
      && forall k :: 0 <= k < |r| ==> r[k].id != id && id !in r[k].followers && id !in r[k].following
  {
    var id := us[i].id;
    var r := RemoveAt(PulledAll(us, id), i);
    forall k | 0 <= k < |r| ensures r[k].id != id {
      var k' := if k < i then k else k + 1;
      assert r[k] == Pulled(us[k'], id);
    }
  }

  /** Entry `k` after the cascade and the removal is the `k`-th surviving user, pulled. */
  lemma SurvivorAt(us: seq<User>, i: nat, k: nat)
    requires i < |us| && k < |us| - 1
    ensures RemoveAt(PulledAll(us, us[i].id), i)[k] == Pulled(us[if k < i then k else k + 1], us[i].id)
  {
  }

  /** The cascade and the removal keep ids unique. */
  lemma DeleteKeepsUniqueIds(us: seq<User>, i: nat)
    requires i < |us| && UniqueIds(us)
    ensures UniqueIds(RemoveAt(PulledAll(us, us[i].id), i))
  {
    var r := RemoveAt(PulledAll(us, us[i].id), i);
    forall a, b | 0 <= a < b < |r|
      ensures r[a].id != r[b].id
    {
      SurvivorAt(us, i, a);
      SurvivorAt(us, i, b);
    }
  }

  /** The cascade and the removal keep the users in registration order. */
  lemma DeleteKeepsOrder(us: seq<User>, i: nat)
    requires i < |us| && UsersOldestFirst(us)
    ensures UsersOldestFirst(RemoveAt(PulledAll(us, us[i].id), i))
  {
    var r := RemoveAt(PulledAll(us, us[i].id), i);
    forall a, b | 0 <= a < b < |r|
      ensures r[a].createdAt <= r[b].createdAt
    {
      SurvivorAt(us, i, a);
      SurvivorAt(us, i, b);
    }
  }

  /** The cascade and the removal keep the follow graph consistent. */
  lemma DeleteKeepsConsistent(us: seq<User>, i: nat)
    requires i < |us| && UniqueIds(us) && FollowConsistent(us)
    ensures FollowConsistent(RemoveAt(PulledAll(us, us[i].id), i))
  {
    var r := RemoveAt(PulledAll(us, us[i].id), i);
    forall a, b | 0 <= a < |r| && 0 <= b < |r|
      ensures r[b].id in r[a].following <==> r[a].id in r[b].followers
    {
      DeletePair(us, i, a, b);
    }
  }

  /** The consistency of one pair of surviving users. */
  lemma DeletePair(us: seq<User>, i: nat, a: nat, b: nat)
    requires i < |us| && a < |us| - 1 && b < |us| - 1
    requires UniqueIds(us) && FollowConsistent(us)
    ensures var r := RemoveAt(PulledAll(us, us[i].id), i);
      r[b].id in r[a].following <==> r[a].id in r[b].followers
  {
    var a', b' := if a < i then a else a + 1, if b < i then b else b + 1;
    SurvivorAt(us, i, a);
    SurvivorAt(us, i, b);
    PulledPair(us[a'], us[b'], us[i].id);
  }

  /** Pulling a third id keeps whether two users name each other. */
  lemma PulledPair(ua: User, ub: User, id: Id)
    requires ua.id != id && ub.id != id
    requires ub.id in ua.following <==> ua.id in ub.followers
    ensures var va, vb := Pulled(ua, id), Pulled(ub, id);
      vb.id in va.following <==> va.id in vb.followers
  {
  }

  /** Everybody else keeps their record, with only the deleted id pulled from their lists. */
  lemma DeleteKeepsOthers(us: seq<User>, i: nat)
    requires i < |us| && UniqueIds(us)
    ensures var id := us[i].id;
      var r := RemoveAt(PulledAll(us, id), i);
      forall u :: u in us && u.id != id ==> Pulled(u, id) in r
  {
    var id := us[i].id;
    var r := RemoveAt(PulledAll(us, id), i);
    forall u | u in us && u.id != id ensures Pulled(u, id) in r {
      var k :| 0 <= k < |us| && us[k] == u;
      if k < i { assert r[k] == Pulled(u, id); } else { assert k != i; assert r[k - 1] == Pulled(u, id); }
    }
  }

  /** The successful branch of `deleteUser`: posts, then follow lists, then the user. */
  method Cascade(db: Database, i: nat)
    requires db.Valid() && i < |db.users|
    modifies db
    ensures db.Valid()
    ensures db.messages == old(db.messages) && db.clock == old(db.clock)
    ensures db.posts == PostsNotBy(old(db.posts), old(db.users)[i].id)
    ensures db.users == RemoveAt(PulledAll(old(db.users), old(db.users)[i].id), i)
  {
    var target := db.users[i].id;
    var posts := PostsNotBy(db.posts, target);
    var users := RemoveAt(PulledAll(db.users, target), i);
    DeleteKeepsUniqueIds(db.users, i);
    DeleteKeepsOrder(db.users, i);
    DeleteKeepsConsistent(db.users, i);
    assert forall k :: 0 <= k < |posts| ==> posts[k] in db.posts;
    db.posts, db.users := posts, users;
  }

  /**
   * `deleteUser`: 404 for an unknown user, 400 when the admin targets
   * themself; otherwise the user's posts are deleted, the id is pulled from
   * every followers and following list, and the user is removed. The
   * user's messages, likes and comments stay.
   */
  method DeleteUser(db: Database, me: Id, target: Id) returns (r: Reply<()>)
    requires db.Valid()
    modifies db
    ensures db.Valid()
    ensures db.messages == old(db.messages) && db.clock == old(db.clock)
    ensures var i := FindUser(old(db.users), target);
      && (r.status == StatusNotFound <==> i < 0)
      && (r.status == StatusBadRequest <==> i >= 0 && target == me)
      && (r.Ok? <==> i >= 0 && target != me)
      && (r.Error? ==> db.users == old(db.users) && db.posts == old(db.posts))
      && (r.Ok? ==>
            && r.status == StatusOk
            && db.posts == PostsNotBy(old(db.posts), target)
            && db.users == RemoveAt(PulledAll(old(db.users), target), i))
  {
    var i := FindUser(db.users, target);
    if i < 0 {
      return Error(StatusNotFound);
    }
    if db.users[i].id == me {
      return Error(StatusBadRequest);
    }
    Cascade(db, i);
    r := Ok(StatusOk, ());
  }

  // ---------------------------------------------------------------------------
  // banUser / verifyUser

  /** The store with user `i`'s ban flag flipped. */
  function WithBanToggled(us: seq<User>, i: nat): (r: seq<User>)
    requires i < |us|
  {
    us[i := us[i].(isBanned := !us[i].isBanned)]
  }

  /** The store with user `i`'s verified flag flipped. */
  function WithVerifyToggled(us: seq<User>, i: nat): (r: seq<User>)
    requires i < |us|
  {
    us[i := us[i].(isVerified := !us[i].isVerified)]
  }

  /** Banning twice restores the store, and a ban flips only that user's flag. */
  lemma BanTwiceRestores(us: seq<User>, i: nat)
    requires i < |us|
    ensures WithBanToggled(WithBanToggled(us, i), i) == us
    ensures WithBanToggled(us, i)[i].isBanned != us[i].isBanned
    ensures WithBanToggled(us, i)[i].(isBanned := us[i].isBanned) == us[i]
  {
  }

  /** Verifying twice restores the store, and a verify flips only that user's flag. */
  lemma VerifyTwiceRestores(us: seq<User>, i: nat)
    requires i < |us|
    ensures WithVerifyToggled(WithVerifyToggled(us, i), i) == us
    ensures WithVerifyToggled(us, i)[i].isVerified != us[i].isVerified
    ensures WithVerifyToggled(us, i)[i].(isVerified := us[i].isVerified) == us[i]
  {
  }

  /**
   * `banUser`: 404 for an unknown user, 400 when the admin targets
   * themself; otherwise the ban flag flips and the reply carries its new value.
   */
  method BanUser(db: Database, me: Id, target: Id) returns (r: Reply<bool>)
    requires db.Valid()
    modifies db
    ensures db.Valid()
    ensures db.posts == old(db.posts) && db.messages == old(db.messages) && db.clock == old(db.clock)
    ensures var i := FindUser(old(db.users), target);
      && (r.status == StatusNotFound <==> i < 0)
      && (r.status == StatusBadRequest <==> i >= 0 && target == me)
      && (r.Ok? <==> i >= 0 && target != me)
      && (r.Error? ==> db.users == old(db.users))
      && (r.Ok? ==>
            && r.status == StatusOk
            && db.users == WithBanToggled(old(db.users), i)
            && r.body == db.users[i].isBanned)
  {
    var i := FindUser(db.users, target);
    if i < 0 {
      return Error(StatusNotFound);
    }
    var user := db.users[i];
    if user.id == me {
      return Error(StatusBadRequest);
    }
    user := user.(isBanned := !user.isBanned);
    ReplaceUserKeepsValid(db.users, i, user);
    db.users := db.users[i := user];
    r := Ok(StatusOk, user.isBanned);
  }

  /**
   * `verifyUser`: 404 for an unknown user; otherwise the verified flag
   * flips (an admin may verify themself) and the reply carries its new value.
   */
  method VerifyUser(db: Database, target: Id) returns (r: Reply<bool>)
    requires db.Valid()
    modifies db
    ensures db.Valid()
    ensures db.posts == old(db.posts) && db.messages == old(db.messages) && db.clock == old(db.clock)
    ensures var i := FindUser(old(db.users), target);
      && (r.Error? <==> i < 0)
      && (r.Error? ==> r.status == StatusNotFound && db.users == old(db.users))
      && (r.Ok? ==>
            && r.status == StatusOk
            && db.users == WithVerifyToggled(old(db.users), i)
            && r.body == db.users[i].isVerified)
  {
    var i := FindUser(db.users, target);
    if i < 0 {
      return Error(StatusNotFound);
    }
    var user := db.users[i];
    user := user.(isVerified := !user.isVerified);
    ReplaceUserKeepsValid(db.users, i, user);
    db.users := db.users[i := user];
    r := Ok(StatusOk, user.isVerified);
  }

  // ---------------------------------------------------------------------------
  // getAdminStats

  datatype Stats = Stats(
    totalUsers: nat, totalPosts: nat, bannedUsers: nat, verifiedUsers: nat,
    adminUsers: nat, recentUsers: nat, recentPosts: nat)

  /**
   * `getAdminStats`: totals, banned, verified and admin users, and the
   * users and posts created at or after `since` (seven days before now).
   * Each user figure is at most the number of users, each post figure at
   * most the number of posts.
   */
  function GetAdminStats(us: seq<User>, ps: seq<Post>, since: nat): (r: Stats)
    ensures r.totalUsers == |us| && r.totalPosts == |ps|
    ensures r.bannedUsers == |set k | 0 <= k < |us| && us[k].isBanned|
    ensures r.verifiedUsers == |set k | 0 <= k < |us| && us[k].isVerified|
    ensures r.adminUsers == |set k | 0 <= k < |us| && us[k].isAdmin|
    ensures r.recentUsers == |set k | 0 <= k < |us| && us[k].createdAt >= since|
    ensures r.recentPosts == |set k | 0 <= k < |ps| && ps[k].createdAt >= since|
    ensures r.bannedUsers <= r.totalUsers && r.verifiedUsers <= r.totalUsers && r.adminUsers <= r.totalUsers
    ensures r.recentUsers <= r.totalUsers && r.recentPosts <= r.totalPosts
  {
    var banned := (u: User) => u.isBanned;
    var verified := (u: User) => u.isVerified;
    var admin := (u: User) => u.isAdmin;
    var recentUser := (u: User) => u.createdAt >= since;
    var recentPost := (p: Post) => p.createdAt >= since;
    assert Count(us, banned) == |set k | 0 <= k < |us| && us[k].isBanned| by {
      CountPositions(us, banned, set k | 0 <= k < |us| && us[k].isBanned);
    }
    assert Count(us, verified) == |set k | 0 <= k < |us| && us[k].isVerified| by {
      CountPositions(us, verified, set k | 0 <= k < |us| && us[k].isVerified);
    }
    assert Count(us, admin) == |set k | 0 <= k < |us| && us[k].isAdmin| by {
      CountPositions(us, admin, set k | 0 <= k < |us| && us[k].isAdmin);
    }
    assert Count(us, recentUser) == |set k | 0 <= k < |us| && us[k].createdAt >= since| by {
      CountPositions(us, recentUser, set k | 0 <= k < |us| && us[k].createdAt >= since);
    }
    assert Count(ps, recentPost) == |set k | 0 <= k < |ps| && ps[k].createdAt >= since| by {
      CountPositions(ps, recentPost, set k | 0 <= k < |ps| && ps[k].createdAt >= since);
    }
    Stats(|us|, |ps|, Count(us, banned), Count(us, verified), Count(us, admin),
          Count(us, recentUser), Count(ps, recentPost))
  }

  /** A ban moves the banned figure by one: up when the user was not banned, down when it was. */
  lemma BanMovesBannedCount(us: seq<User>, ps: seq<Post>, since: nat, i: nat)
    requires i < |us|
    ensures var before := GetAdminStats(us, ps, since).bannedUsers;
      var after := GetAdminStats(WithBanToggled(us, i), ps, since).bannedUsers;
      if us[i].isBanned then after + 1 == before else after == before + 1
  {
    CountReplace(us, i, us[i].(isBanned := !us[i].isBanned), (u: User) => u.isBanned);
  }

  /** A verify moves the verified figure by one: up when the user was not verified, down when it was. */
  lemma VerifyMovesVerifiedCount(us: seq<User>, ps: seq<Post>, since: nat, i: nat)
    requires i < |us|
    ensures var before := GetAdminStats(us, ps, since).verifiedUsers;
      var after := GetAdminStats(WithVerifyToggled(us, i), ps, since).verifiedUsers;
      if us[i].isVerified then after + 1 == before else after == before + 1
  {
    CountReplace(us, i, us[i].(isVerified := !us[i].isVerified), (u: User) => u.isVerified);
  }
}
