/**
 * backend/controllers/userController.js: listing and searching users,
 * profile edits and the follow graph. Follow and unfollow update two
 * users' lists in the store; the invariant they keep (B is in A's
 * following list exactly when A is in B's followers list) is part of the
 * database's validity, and following then unfollowing restores both lists.
 */
module Users {
  import opened Common
  import opened Records
  import opened Db

  // ---------------------------------------------------------------------------
  // getUsers

  /**
   * Keeping some of the older users in order and then the newest one keeps
   * the list oldest first.
   */
  lemma OldestFirstSnoc(us: seq<User>, rest: seq<User>)
    requires us != []
    requires forall u :: u in rest ==> u in us[..|us| - 1]
    requires UsersOldestFirst(us[..|us| - 1]) ==> UsersOldestFirst(rest)
    ensures UsersOldestFirst(us) ==> UsersOldestFirst(rest + [us[|us| - 1]])
  {
    if UsersOldestFirst(us) {
      var last := us[|us| - 1];
      var r := rest + [last];
      forall i, j | 0 <= i < j < |r|
        ensures r[i].createdAt <= r[j].createdAt
      {
        if j < |rest| {
          assert UsersOldestFirst(us[..|us| - 1]);
        } else {
          assert r[i] == rest[i] && rest[i] in rest;
          var t :| 0 <= t < |us| - 1 && us[t] == rest[i];
        }
      }
    }
  }

  /**
   * The `$or` of name and email regexes with the `i` option, read as a
   * literal case-insensitive substring; an empty search matches everybody.
   */
  predicate MatchesSearch(u: User, search: string)
  {
    search == "" || MatchesCI(u.name, search) || MatchesCI(u.email, search)
  }

  /** The users other than the requester that match the search, in store order. */
  function OthersMatching(us: seq<User>, me: Id, search: string): (r: seq<User>)
    ensures |r| <= |us|
    ensures forall u :: u in r <==> u in us && u.id != me && MatchesSearch(u, search)
    ensures UsersOldestFirst(us) ==> UsersOldestFirst(r)
  {
    if us == [] then []
    else
      var last := us[|us| - 1];
      var rest := OthersMatching(us[..|us| - 1], me, search);
      assert us == us[..|us| - 1] + [last];
      if last.id != me && MatchesSearch(last, search) then
        OldestFirstSnoc(us, rest);
        rest + [last]
      else rest
  }

  /**
   * `getUsers`: page `page` (default 1) of `limit` (default 10) users other
   * than the requester matching `search`, newest first, with the total.
   */
  function GetUsers(us: seq<User>, me: Id, search: Option<string>, page: Option<nat>, limit: Option<nat>)
    : (r: Page<User>)
    ensures var s := if search.Some? then search.value else "";
      && r.currentPage == OrDefault(page, 1)
      && |r.items| <= OrDefault(limit, 10)
      && (forall u :: u in r.items ==> u in us && u.id != me && MatchesSearch(u, s))
      && r.total == |OthersMatching(us, me, s)|
      && r.totalPages == CeilDiv(r.total, OrDefault(limit, 10))
      && IsNewestPage(r.items, OthersMatching(us, me, s), OrDefault(page, 1), OrDefault(limit, 10))
  {
    var s := if search.Some? then search.value else "";
    NewestPage(OthersMatching(us, me, s), OrDefault(page, 1), OrDefault(limit, 10))
  }

  /** With unique ids and no search, the total counts every user but the requester. */
  lemma {:induction false} OthersCount(us: seq<User>, me: Id)
    requires UniqueIds(us)
    ensures |OthersMatching(us, me, "")| == |us| - (if UserExists(us, me) then 1 else 0)
  {
    if us != [] {
      var init, last := us[..|us| - 1], us[|us| - 1];
      assert UniqueIds(init);
      OthersCount(init, me);
      assert MatchesSearch(last, "");
      UserExistsSnoc(us, me);
    }
  }

  /** A user exists in a non-empty store iff it exists before the last entry or is the last entry. */
  lemma UserExistsSnoc(us: seq<User>, me: Id)
    requires us != [] && UniqueIds(us)
    ensures UserExists(us, me) <==> UserExists(us[..|us| - 1], me) || us[|us| - 1].id == me
    ensures us[|us| - 1].id == me ==> !UserExists(us[..|us| - 1], me)
  {
    if UserExists(us, me) {
      var k :| 0 <= k < |us| && us[k].id == me;
      if k < |us| - 1 {
        assert us[..|us| - 1][k].id == me;
      }
    }
    if UserExists(us[..|us| - 1], me) {
      var k :| 0 <= k < |us| - 1 && us[..|us| - 1][k].id == me;
      assert us[k].id == me;
    }
  }

  /** Any window of users in registration order, taken newest first, is newest first. */
  lemma {:induction false} NewestWindowOfUsers(s: seq<User>, skip: nat, limit: nat)
    requires UsersOldestFirst(s)
    ensures var w := Window(Reverse(s), skip, limit);
      forall i, j :: 0 <= i < j < |w| ==> w[i].createdAt >= w[j].createdAt
  {
    var w := Window(Reverse(s), skip, limit);
    forall i, j | 0 <= i < j < |w| ensures w[i].createdAt >= w[j].createdAt {
      assert w[i] == s[|s| - 1 - (skip + i)];
      assert w[j] == s[|s| - 1 - (skip + j)];
    }
  }

  /** A page taken newest first from users in registration order is newest first. */
  lemma NewestPageOfUsers(s: seq<User>, page: nat, limit: nat)
    requires page >= 1 && limit >= 1
    requires UsersOldestFirst(s)
    ensures var items := NewestPage(s, page, limit).items;
      forall i, j :: 0 <= i < j < |items| ==> items[i].createdAt >= items[j].createdAt
  {
    NewestWindowOfUsers(s, (page - 1) * limit, limit);
  }

  /** With users stored in registration order, every page of `getUsers` is newest first. */
  lemma GetUsersNewestFirst(us: seq<User>, me: Id, search: Option<string>, page: Option<nat>, limit: Option<nat>)
    requires UsersOldestFirst(us)
    ensures var items := GetUsers(us, me, search, page, limit).items;
      forall i, j :: 0 <= i < j < |items| ==> items[i].createdAt >= items[j].createdAt
  {
    var s := if search.Some? then search.value else "";
    NewestPageOfUsers(OthersMatching(us, me, s), OrDefault(page, 1), OrDefault(limit, 10));
  }

  // ---------------------------------------------------------------------------
  // getUserById

  /** `getUserById`: the user with this id, or 404. */
  function GetUserById(us: seq<User>, id: Id): (r: Reply<User>)
    ensures r.Error? <==> !UserExists(us, id)
    ensures r.Error? ==> r.status == StatusNotFound
    ensures r.Ok? ==> r.status == StatusOk && r.body in us && r.body.id == id
  {
    var i := FindUser(us, id);
    if i < 0 then Error(StatusNotFound) else Ok(StatusOk, us[i])
  }

  // ---------------------------------------------------------------------------
  // updateProfile

  /** The fields `updateProfile` assigns: name and avatar only when non-empty, bio whenever given. */
  function ProfileUpdated(u: User, name: Option<string>, bio: Option<string>, avatar: Option<string>): User
  {
    u.(name := if name.Some? && name.value != "" then name.value else u.name,
       bio := if bio.Some? then bio.value else u.bio,
       avatar := if avatar.Some? && avatar.value != "" then avatar.value else u.avatar)
  }

  /**
   * A profile edit touches name, bio and avatar only: an empty name or
   * avatar keeps the old one, while a given bio, even empty, replaces it.
   */
  lemma ProfileUpdatedFields(u: User, name: Option<string>, bio: Option<string>, avatar: Option<string>)
    ensures var v := ProfileUpdated(u, name, bio, avatar);
      && v.(name := u.name, bio := u.bio, avatar := u.avatar) == u
      && (v.name == if name.Some? && name.value != "" then name.value else u.name)
      && (bio.Some? ==> v.bio == bio.value) && (bio.None? ==> v.bio == u.bio)
      && (v.avatar == if avatar.Some? && avatar.value != "" then avatar.value else u.avatar)
  {
  }

  /** Sending the same profile edit twice has the effect of sending it once. */
  lemma ProfileUpdatedIdempotent(u: User, name: Option<string>, bio: Option<string>, avatar: Option<string>)
    ensures var v := ProfileUpdated(u, name, bio, avatar);
      ProfileUpdated(v, name, bio, avatar) == v
  {
  }

  /** Replacing a user by a record with the same id and lists keeps ids unique and the graph consistent. */
  lemma ReplaceUserKeepsValid(us: seq<User>, i: nat, v: User)
    requires i < |us| && UniqueIds(us) && FollowConsistent(us)
    requires v.id == us[i].id && v.followers == us[i].followers && v.following == us[i].following
    ensures UniqueIds(us[i := v]) && FollowConsistent(us[i := v])
  {
    var us' := us[i := v];
    forall a, b | 0 <= a < |us'| && 0 <= b < |us'|
      ensures us'[b].id in us'[a].following <==> us'[a].id in us'[b].followers
    {
      assert us'[a].id == us[a].id && us'[a].following == us[a].following && us'[a].followers == us[a].followers;
      assert us'[b].id == us[b].id && us'[b].following == us[b].following && us'[b].followers == us[b].followers;
    }
  }

  /** The field-by-field assignments of `updateProfile` on one user record. */
  method Edit(u: User, name: Option<string>, bio: Option<string>, avatar: Option<string>) returns (v: User)
    ensures v == ProfileUpdated(u, name, bio, avatar)
  {
    v := u;
    if name.Some? && name.value != "" {
      v := v.(name := name.value);
    }
    if bio.Some? {
      v := v.(bio := bio.value);
    }
    if avatar.Some? && avatar.value != "" {
      v := v.(avatar := avatar.value);
    }
  }

  /** `updateProfile`: 404 when the requester's record is gone; otherwise the edit, in place. */
  method UpdateProfile(db: Database, me: Id, name: Option<string>, bio: Option<string>, avatar: Option<string>)
    returns (r: Reply<User>)
    requires db.Valid()
    modifies db
    ensures db.Valid()
    ensures db.posts == old(db.posts) && db.messages == old(db.messages) && db.clock == old(db.clock)
    ensures var i := FindUser(old(db.users), me);
      && (r.Error? <==> i < 0)
      && (r.Error? ==> r.status == StatusNotFound && db.users == old(db.users))
      && (r.Ok? ==>
            && r.status == StatusOk
            && r.body == ProfileUpdated(old(db.users)[i], name, bio, avatar)
            && db.users == old(db.users)[i := r.body])
  {
    var i := FindUser(db.users, me);
    if i < 0 {
      return Error(StatusNotFound);
    }
    var user := Edit(db.users[i], name, bio, avatar);
    ReplaceUserKeepsValid(db.users, i, user);
    db.users := db.users[i := user];
    r := Ok(StatusOk, user);
  }

  // ---------------------------------------------------------------------------
  // followUser / unfollowUser

  /** The two pushes of `followUser`: `t` onto `c`'s following list, `c` onto `t`'s followers. */
  function WithFollow(us: seq<User>, c: nat, t: nat): (r: seq<User>)
    requires c < |us| && t < |us|
    ensures |r| == |us|
    ensures forall k :: 0 <= k < |us| ==> r[k].id == us[k].id
    ensures forall k :: 0 <= k < |us| && k != c && k != t ==> r[k] == us[k]
    ensures c != t ==>
      && r[c] == us[c].(following := us[c].following + [us[t].id])
      && r[t] == us[t].(followers := us[t].followers + [us[c].id])
  {
    var us1 := us[c := us[c].(following := us[c].following + [us[t].id])];
    us1[t := us1[t].(followers := us1[t].followers + [us[c].id])]
  }

  /** The two filters of `unfollowUser`: `t` out of `c`'s following list, `c` out of `t`'s followers. */
  function WithUnfollow(us: seq<User>, c: nat, t: nat): (r: seq<User>)
    requires c < |us| && t < |us|
    ensures |r| == |us|
    ensures forall k :: 0 <= k < |us| ==> r[k].id == us[k].id
    ensures forall k :: 0 <= k < |us| && k != c && k != t ==> r[k] == us[k]
    ensures c != t ==>
      && r[c] == us[c].(following := RemoveAll(us[c].following, us[t].id))
      && r[t] == us[t].(followers := RemoveAll(us[t].followers, us[c].id))
  {
    var us1 := us[c := us[c].(following := RemoveAll(us[c].following, us[t].id))];
    us1[t := us1[t].(followers := RemoveAll(us1[t].followers, us[c].id))]
  }

  /**
   * Following a user one does not follow yet keeps ids unique, the
   * registration order and the follow graph consistent, and afterwards each
   * list names the other.
   */
  lemma FollowKeepsConsistent(us: seq<User>, c: nat, t: nat)
    requires c < |us| && t < |us| && c != t
    requires UniqueIds(us) && FollowConsistent(us) && UsersOldestFirst(us)
    requires us[t].id !in us[c].following
    ensures var r := WithFollow(us, c, t);
      && UniqueIds(r) && FollowConsistent(r) && UsersOldestFirst(r)
      && us[t].id in r[c].following && us[c].id in r[t].followers
  {
    var r := WithFollow(us, c, t);
    assert forall k :: 0 <= k < |us| ==> r[k].id == us[k].id;
    forall a, b | 0 <= a < |r| && 0 <= b < |r|
      ensures r[b].id in r[a].following <==> r[a].id in r[b].followers
    {
      assert us[b].id in us[a].following <==> us[a].id in us[b].followers;
      assert r[a].following == if a == c then us[a].following + [us[t].id] else us[a].following;
      assert r[b].followers == if b == t then us[b].followers + [us[c].id] else us[b].followers;
    }
  }

  /**
   * Unfollowing keeps ids unique, the registration order and the follow
   * graph consistent, and afterwards neither list names the other.
   */
  lemma UnfollowKeepsConsistent(us: seq<User>, c: nat, t: nat)
    requires c < |us| && t < |us| && c != t
    requires UniqueIds(us) && FollowConsistent(us) && UsersOldestFirst(us)
    ensures var r := WithUnfollow(us, c, t);
      && UniqueIds(r) && FollowConsistent(r) && UsersOldestFirst(r)
      && us[t].id !in r[c].following && us[c].id !in r[t].followers
  {
    var r := WithUnfollow(us, c, t);
    forall a, b | 0 <= a < |r| && 0 <= b < |r|
      ensures r[b].id in r[a].following <==> r[a].id in r[b].followers
    {
      UnfollowPair(us, c, t, a, b);
    }
  }

  /** The consistency of one pair of users after an unfollow. */
  lemma UnfollowPair(us: seq<User>, c: nat, t: nat, a: nat, b: nat)
    requires c < |us| && t < |us| && c != t && a < |us| && b < |us|
    requires UniqueIds(us) && FollowConsistent(us)
    ensures var r := WithUnfollow(us, c, t);
      r[b].id in r[a].following <==> r[a].id in r[b].followers
  {
    var r := WithUnfollow(us, c, t);
    var ua, ub := us[a], us[b];
    assert ub.id in ua.following <==> ua.id in ub.followers;
    if a == c && b == t {
      assert us[t].id !in r[c].following && us[c].id !in r[t].followers;
    } else if a == c {
      assert ub.id != us[t].id;
      assert r[b].followers == ub.followers;
    } else if b == t {
      assert ua.id != us[c].id;
      assert r[a].following == ua.following;
    } else {
      assert r[a].following == ua.following && r[b].followers == ub.followers;
    }
  }

  /** Following and then unfollowing the same user restores every user's lists exactly. */
  lemma FollowThenUnfollow(us: seq<User>, c: nat, t: nat)
    requires c < |us| && t < |us| && c != t
    requires UniqueIds(us) && FollowConsistent(us)
    requires us[t].id !in us[c].following
    ensures WithUnfollow(WithFollow(us, c, t), c, t) == us
  {
    assert us[c].id !in us[t].followers;
    RemoveAllAppendAbsent(us[c].following, us[t].id);
    RemoveAllAppendAbsent(us[t].followers, us[c].id);
    var g := WithUnfollow(WithFollow(us, c, t), c, t);
    assert forall k :: 0 <= k < |us| ==> g[k] == us[k];
  }

  /**
   * `followUser`: 400 when the target is the requester (before any
   * lookup); 404 for an unknown target; 500 when the requester's record is
   * gone; 400 when already following; otherwise both lists grow.
   */
  method FollowUser(db: Database, me: Id, target: Id) returns (r: Reply<()>)
    requires db.Valid()
    modifies db
    ensures db.Valid()
    ensures db.posts == old(db.posts) && db.messages == old(db.messages) && db.clock == old(db.clock)
    ensures r.Error? ==> db.users == old(db.users)
    ensures target == me ==> r == Error(StatusBadRequest)
    ensures target != me ==>
      var t := FindUser(old(db.users), target);
      var c := FindUser(old(db.users), me);
      && (t < 0 ==> r == Error(StatusNotFound))
      && (t >= 0 && c < 0 ==> r == Error(StatusServerError))
      && (t >= 0 && c >= 0 && target in old(db.users)[c].following ==> r == Error(StatusBadRequest))
      && (t >= 0 && c >= 0 && target !in old(db.users)[c].following ==>
            r == Ok(StatusOk, ()) && db.users == WithFollow(old(db.users), c, t))
  {
    if target == me {
      return Error(StatusBadRequest);
    }
    var t := FindUser(db.users, target);
    var c := FindUser(db.users, me);
    if t < 0 {
      return Error(StatusNotFound);
    }
    if c < 0 {
      return Error(StatusServerError);
    }
    if target in db.users[c].following {
      return Error(StatusBadRequest);
    }
    FollowKeepsConsistent(db.users, c, t);
    var current := db.users[c];
    db.users := db.users[c := current.(following := current.following + [target])];
    var followed := db.users[t];
    db.users := db.users[t := followed.(followers := followed.followers + [me])];
    r := Ok(StatusOk, ());
  }

  /**
   * `unfollowUser`: 400 when the target is the requester; 404 for an
   * unknown target; 500 when the requester's record is gone; 400 when not
   * following; otherwise every occurrence is filtered out of both lists.
   */
  method UnfollowUser(db: Database, me: Id, target: Id) returns (r: Reply<()>)
    requires db.Valid()
    modifies db
    ensures db.Valid()
    ensures db.posts == old(db.posts) && db.messages == old(db.messages) && db.clock == old(db.clock)
    ensures r.Error? ==> db.users == old(db.users)
    ensures target == me ==> r == Error(StatusBadRequest)
    ensures target != me ==>
      var t := FindUser(old(db.users), target);
      var c := FindUser(old(db.users), me);
      && (t < 0 ==> r == Error(StatusNotFound))
      && (t >= 0 && c < 0 ==> r == Error(StatusServerError))
      && (t >= 0 && c >= 0 && target !in old(db.users)[c].following ==> r == Error(StatusBadRequest))
      && (t >= 0 && c >= 0 && target in old(db.users)[c].following ==>
            r == Ok(StatusOk, ()) && db.users == WithUnfollow(old(db.users), c, t))
  {
    if target == me {
      return Error(StatusBadRequest);
    }
    var t := FindUser(db.users, target);
    var c := FindUser(db.users, me);
    if t < 0 {
      return Error(StatusNotFound);
    }
    if c < 0 {
      return Error(StatusServerError);
    }
    if target !in db.users[c].following {
      return Error(StatusBadRequest);
    }
    UnfollowKeepsConsistent(db.users, c, t);
    var current := db.users[c];
    db.users := db.users[c := current.(following := RemoveAll(current.following, target))];
    var unfollowed := db.users[t];
    db.users := db.users[t := unfollowed.(followers := RemoveAll(unfollowed.followers, me))];
    r := Ok(StatusOk, ());
  }

  // ---------------------------------------------------------------------------
  // getFollowers / getFollowing

  /** `populate` of a list of ids: the stored users they name, in list order; ids of missing users drop out. */
  function Populate(us: seq<User>, ids: seq<Id>): (r: seq<User>)
    ensures |r| <= |ids|
    ensures forall u :: u in r ==> u in us && u.id in ids
    ensures UniqueIds(us) ==> forall k :: 0 <= k < |us| && us[k].id in ids ==> us[k] in r
  {
    if ids == [] then []
    else
      var rest := Populate(us, ids[..|ids| - 1]);
      var id := ids[|ids| - 1];
      assert ids == ids[..|ids| - 1] + [id];
      var k := FindUser(us, id);
      if k < 0 then rest else rest + [us[k]]
  }

  /** `getFollowers`: 404 for an unknown user, otherwise the user's followers. */
  function GetFollowers(us: seq<User>, id: Id): (r: Reply<seq<User>>)
    ensures r.Error? <==> !UserExists(us, id)
    ensures r.Error? ==> r.status == StatusNotFound
    ensures r.Ok? ==> r.status == StatusOk && r.body == Populate(us, us[FindUser(us, id)].followers)
  {
    var i := FindUser(us, id);
    if i < 0 then Error(StatusNotFound) else Ok(StatusOk, Populate(us, us[i].followers))
  }

  /** `getFollowing`: 404 for an unknown user, otherwise the users it follows. */
  function GetFollowing(us: seq<User>, id: Id): (r: Reply<seq<User>>)
    ensures r.Error? <==> !UserExists(us, id)
    ensures r.Error? ==> r.status == StatusNotFound
    ensures r.Ok? ==> r.status == StatusOk && r.body == Populate(us, us[FindUser(us, id)].following)
  {
    var i := FindUser(us, id);
    if i < 0 then Error(StatusNotFound) else Ok(StatusOk, Populate(us, us[i].following))
  }

  /**
   * In a consistent graph the two lists answer each other: the followers
   * of `id` are exactly the stored users whose following list names `id`,
   * and the users `id` follows are exactly those whose followers list names it.
   */
  lemma FollowersAndFollowingAgree(us: seq<User>, id: Id)
    requires UniqueIds(us) && FollowConsistent(us) && UserExists(us, id)
    ensures forall u :: u in us ==> (u in GetFollowers(us, id).body <==> id in u.following)
    ensures forall u :: u in us ==> (u in GetFollowing(us, id).body <==> id in u.followers)
  {
    var i := FindUser(us, id);
    forall u | u in us
      ensures (u in GetFollowers(us, id).body <==> id in u.following)
      ensures (u in GetFollowing(us, id).body <==> id in u.followers)
    {
      var k :| 0 <= k < |us| && us[k] == u;
      assert us[i].id in us[k].following <==> us[k].id in us[i].followers;
      assert us[k].id in us[i].following <==> us[i].id in us[k].followers;
    }
  }

  // ---------------------------------------------------------------------------
  // searchUsers

  /** Ordered by name ascending, `.sort({ name: 1 })` (binary string order). */
  predicate SortedByName(s: seq<User>)
  {
    forall i, j :: 0 <= i < j < |s| ==> LexLe(s[i].name, s[j].name)
  }

  /** Puts `u` before the first user whose name sorts after it. */
  function InsertByName(u: User, s: seq<User>): (r: seq<User>)
    ensures multiset(r) == multiset(s) + multiset{u}
    ensures |r| == |s| + 1
  {
    if s == [] then [u]
    else if LexLe(u.name, s[0].name) then [u] + s
    else
      assert s == [s[0]] + s[1..];
      [s[0]] + InsertByName(u, s[1..])
  }

  lemma {:induction false} InsertByNameSorted(u: User, s: seq<User>)
    requires SortedByName(s)
    ensures SortedByName(InsertByName(u, s))
    ensures InsertByName(u, s)[0] == u || InsertByName(u, s)[0] == s[0]
  {
    var r := InsertByName(u, s);
    if s == [] {
    } else if LexLe(u.name, s[0].name) {
      forall i, j | 0 <= i < j < |r| ensures LexLe(r[i].name, r[j].name) {
        if i == 0 && j > 1 {
          LexLeTransitive(u.name, s[0].name, s[j - 1].name);
        }
      }
    } else {
      InsertByNameSorted(u, s[1..]);
      LexLeTotal(u.name, s[0].name);
      var rest := InsertByName(u, s[1..]);
      assert r == [s[0]] + rest;
      forall j | 1 < j < |r| ensures LexLe(r[0].name, r[j].name) {
        if rest[0] == u {
          LexLeTransitive(s[0].name, u.name, r[j].name);
        } else {
          LexLeTransitive(s[0].name, s[1].name, r[j].name);
        }
      }
    }
  }

  /** The users of `s` ordered by name; among equal names, the later-stored user comes first. */
  function SortByName(s: seq<User>): (r: seq<User>)
    ensures multiset(r) == multiset(s)
    ensures |r| == |s|
    ensures forall k :: 0 <= k < |r| ==> r[k] in s
  {
    if s == [] then []
    else
      assert s == s[..|s| - 1] + [s[|s| - 1]];
      var r := InsertByName(s[|s| - 1], SortByName(s[..|s| - 1]));
      assert forall k :: 0 <= k < |r| ==> r[k] in multiset(r);
      r
  }

  /** Two users with the same name come out later-stored first. */
  lemma SortByNameTieOrder(a: User, b: User)
    requires a.name == b.name
    ensures SortByName([a, b]) == [b, a]
  {
    assert [a, b][..1] == [a];
    LexLeReflexive(b.name);
  }

  lemma {:induction false} SortByNameSorted(s: seq<User>)
    ensures SortedByName(SortByName(s))
  {
    if s != [] {
      SortByNameSorted(s[..|s| - 1]);
      InsertByNameSorted(s[|s| - 1], SortByName(s[..|s| - 1]));
    }
  }

  /** One search result: the user and whether the requester follows it. */
  datatype Hit = Hit(user: User, isFollowing: bool)

  /** The most `searchUsers` returns. */
  const SearchLimit: nat := 20

  /** The users a non-blank search finds: the first 20 other matching users by name. */
  function SearchFound(us: seq<User>, me: Id, q: string): (r: seq<User>)
    ensures var sorted := SortByName(OthersMatching(us, me, q));
      && |r| == (if |sorted| <= SearchLimit then |sorted| else SearchLimit)
      && forall k :: 0 <= k < |r| ==> r[k] == sorted[k]
    ensures forall k :: 0 <= k < |r| ==> r[k] in us && r[k].id != me && MatchesSearch(r[k], q)
  {
    var matching := OthersMatching(us, me, q);
    var sorted := SortByName(matching);
    if |sorted| <= SearchLimit then sorted else sorted[..SearchLimit]
  }

  /** Each found user with the `isFollowing` flag: whether `following` holds its id. */
  function Flagged(found: seq<User>, following: seq<Id>): (r: seq<Hit>)
    ensures |r| == |found|
    ensures forall k :: 0 <= k < |r| ==> r[k].user == found[k] && (r[k].isFollowing <==> found[k].id in following)
  {
    if found == [] then [] else [Hit(found[0], found[0].id in following)] + Flagged(found[1..], following)
  }

  /**
   * `searchUsers`: `[]` for a missing or blank query; otherwise the first
   * 20 users other than the requester whose name or email contains the
   * trimmed query, by name, each flagged with whether the requester follows
   * it. When the requester's record is gone the flagging fails (500), but
   * only if there is a user to flag.
   */
  function SearchUsers(us: seq<User>, me: Id, q: Option<string>): (r: Reply<seq<Hit>>)
    ensures q.None? || Trim(q.value) == [] ==> r == Ok(StatusOk, [])
    ensures r.Error? <==> q.Some? && Trim(q.value) != [] && SearchFound(us, me, Trim(q.value)) != [] && !UserExists(us, me)
    ensures r.Error? ==> r.status == StatusServerError
    ensures r.Ok? ==>
      && r.status == StatusOk
      && |r.body| <= SearchLimit
      && forall k :: 0 <= k < |r.body| ==>
           var u := r.body[k].user;
           && u in us && u.id != me
           && (MatchesCI(u.name, Trim(q.value)) || MatchesCI(u.email, Trim(q.value)))
           && (r.body[k].isFollowing <==> u.id in us[FindUser(us, me)].following)
  {
    if q.None? || Trim(q.value) == [] then Ok(StatusOk, [])
    else
      var found := SearchFound(us, me, Trim(q.value));
      var c := FindUser(us, me);
      if found == [] then Ok(StatusOk, [])
      else if c < 0 then Error(StatusServerError)
      else Ok(StatusOk, Flagged(found, us[c].following))
  }

  /**
   * The search results are ordered by name, and they are the users the
   * query finds: all of them when there are at most 20, otherwise 20 of
   * them, none of whose names sorts after a user left out.
   */
  lemma SearchUsersOrder(us: seq<User>, me: Id, q: string)
    requires Trim(q) != [] && SearchUsers(us, me, Some(q)).Ok?
    ensures var hits := SearchUsers(us, me, Some(q)).body;
      var sorted := SortByName(OthersMatching(us, me, Trim(q)));
      && (forall i, j :: 0 <= i < j < |hits| ==> LexLe(hits[i].user.name, hits[j].user.name))
      && |hits| == (if |sorted| <= SearchLimit then |sorted| else SearchLimit)
      && (forall k :: 0 <= k < |hits| ==> hits[k].user == sorted[k])
  {
    SearchHitsFound(us, me, q);
    SortByNameSorted(OthersMatching(us, me, Trim(q)));
  }

  /** The users of a successful search are those `SearchFound` lists, in that order. */
  lemma SearchHitsFound(us: seq<User>, me: Id, q: string)
    requires Trim(q) != [] && SearchUsers(us, me, Some(q)).Ok?
    ensures var hits := SearchUsers(us, me, Some(q)).body;
      var found := SearchFound(us, me, Trim(q));
      |hits| == |found| && forall k :: 0 <= k < |hits| ==> hits[k].user == found[k]
  {
    var found := SearchFound(us, me, Trim(q));
    if found != [] {
      assert SearchUsers(us, me, Some(q)).body == Flagged(found, us[FindUser(us, me)].following);
    }
  }

  /** With at most 20 matches, a search returns every one of them. */
  lemma SearchUsersComplete(us: seq<User>, me: Id, q: string)
    requires Trim(q) != [] && SearchUsers(us, me, Some(q)).Ok?
    requires |OthersMatching(us, me, Trim(q))| <= SearchLimit
    ensures var hits := SearchUsers(us, me, Some(q)).body;
      forall u :: u in OthersMatching(us, me, Trim(q)) ==> exists k :: 0 <= k < |hits| && hits[k].user == u
  {
    var matching := OthersMatching(us, me, Trim(q));
    var sorted := SortByName(matching);
    var hits := SearchUsers(us, me, Some(q)).body;
    SearchUsersOrder(us, me, q);
    forall u | u in matching ensures exists k :: 0 <= k < |hits| && hits[k].user == u {
      assert u in multiset(sorted);
      var k :| 0 <= k < |sorted| && sorted[k] == u;
      assert hits[k].user == u;
    }
  }
}
