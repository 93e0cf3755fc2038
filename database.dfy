/**
 * The in-memory replacement of the MongoDB collections: users, posts and
 * messages, each a sequence in creation order, and an abstract clock that
 * stands for `new Date()`. The static `markAsRead` of
 * backend/models/Message.js is applied here, as a bulk update over the stored
 * messages.
 */
module Db {
  import opened Common
  import opened Messages
  import opened Records

  class Database {
    var users: seq<User>
    var posts: seq<Post>
    var messages: seq<Message>
    /** The current time; every `new Date()` of the source reads it. */
    var clock: nat

    /**
     * Users, messages and posts are stored in creation order, and no message
     * or post is newer than the clock; user ids and post ids are unique and
     * the follow graph is consistent.
     */
    ghost predicate Valid()
      reads this
    {
      && Chronological(messages)
      && (forall k :: 0 <= k < |messages| ==> messages[k].createdAt <= clock)
      && PostsOldestFirst(posts)
      && (forall k :: 0 <= k < |posts| ==> posts[k].createdAt <= clock)
      && UniquePostIds(posts)
      && UsersOldestFirst(users)
      && UniqueIds(users)
      && FollowConsistent(users)
    }

    constructor Init(users0: seq<User>)
      requires UsersOldestFirst(users0) && UniqueIds(users0) && FollowConsistent(users0)
      ensures Valid()
      ensures users == users0 && posts == [] && messages == [] && clock == 0
    {
      users := users0;
      posts := [];
      messages := [];
      clock := 0;
    }

    /** Time passes. */
    method Tick()
      requires Valid()
      modifies this
      ensures Valid()
      ensures clock == old(clock) + 1
      ensures users == old(users) && posts == old(posts) && messages == old(messages)
    {
      clock := clock + 1;
    }

    /** Stores a message created now. */
    method InsertMessage(m: Message)
      requires Valid()
      requires m.createdAt == clock
      modifies this
      ensures Valid()
      ensures messages == old(messages) + [m]
      ensures users == old(users) && posts == old(posts) && clock == old(clock)
    {
      messages := messages + [m];
    }

    /**
     * The static `markAsRead(senderId, receiverId)`: `updateMany` over the
     * unread messages from `senderId` to `receiverId`, deleted or not,
     * setting `isRead` and `readAt`. Returns the number of documents modified.
     */
    method MarkAsRead(senderId: Id, receiverId: Id) returns (modified: nat)
      requires Valid()
      modifies this
      ensures Valid()
      ensures messages == MarkedRead(old(messages), senderId, receiverId, clock)
      ensures modified == CountUnreadFrom(old(messages), senderId, receiverId)
      ensures users == old(users) && posts == old(posts) && clock == old(clock)
    {
      var ms;
      ms, modified := MarkAll(messages, senderId, receiverId, clock);
      MarkedReadChronological(messages, senderId, receiverId, clock);
      messages := ms;
    }
  }
}
