/**
 * backend/socket/socketServer.js: the presence registry and the event
 * router of the realtime layer. The registry (`connectedUsers`) maps a
 * user id to the id of that user's socket; it is overwritten on connect
 * and deleted on disconnect. Each handler runs as one atomic step and
 * returns the events it emits, each with where it goes: one socket, the
 * room of a user except the emitting socket, or every socket.
 */
module Sockets {
  import opened Common
  import opened Messages
  import opened Records
  import opened Db
  import opened Users

  /** Where an event is sent. */
  datatype Target =
    | ToSocket(sid: SocketId)                       // io.to(socketId)
    | ToRoomExcept(room: Id, except: SocketId)      // socket.to(room): the room, not the emitting socket
    | ToEveryone                                    // io.emit

  datatype Event =
    | ReceiveMessage(message: Message)
    | MessageSent(message: Message)
    | MessageError
    | TypingStart(userId: Id)
    | TypingStop(userId: Id)
    | MessagesRead(readerId: Id)
    | UserOnline(userId: Id, lastSeen: nat)
    | UserOffline(userId: Id, lastSeen: nat)
    | UserStatusUpdate(userId: Id, isOnline: bool, lastSeen: nat)
    | Custom(name: string, data: string)

  datatype Emission = Emission(to: Target, event: Event)

  // ---------------------------------------------------------------------------
  // Handshake

  /**
   * The authentication middleware. `verified` is what verifying the token
   * yields: the id it carries, or None when the token does not verify. A
   * missing or empty token, a token that does not verify and an unknown
   * user all refuse the connection; otherwise the socket belongs to that user.
   */
  function Handshake(us: seq<User>, token: Option<string>, verified: Option<Id>): (r: Option<Id>)
    ensures r.Some? <==> token.Some? && token.value != "" && verified.Some? && UserExists(us, verified.value)
    ensures r.Some? ==> r.value == verified.value
  {
    if token.None? || token.value == "" then None
    else if verified.None? then None
    else if FindUser(us, verified.value) < 0 then None
    else Some(verified.value)
  }

  // ---------------------------------------------------------------------------
  // Routing

  /**
   * `emitToUser`, and every "send to this user if online" of the handlers:
   * one emission to the user's registered socket, or nothing when the user
   * has no registry entry.
   */
  function EmitToUser(connected: map<Id, SocketId>, userId: Id, e: Event): (r: seq<Emission>)
    ensures |r| <= 1
    ensures r != [] <==> userId in connected
    ensures forall k :: 0 <= k < |r| ==> r[k] == Emission(ToSocket(connected[userId]), e)
  {
    if userId in connected then [Emission(ToSocket(connected[userId]), e)] else []
  }

  /** `typing_start` / `typing_stop`: relayed to the receiver's room, never back to the typist's socket. */
  function Typing(sid: SocketId, me: Id, receiverId: Id, start: bool): (r: seq<Emission>)
    ensures |r| == 1 && r[0].to.ToRoomExcept? && r[0].to.room == receiverId && r[0].to.except == sid
    ensures (r[0].event.TypingStart? <==> start) && (r[0].event.TypingStop? <==> !start) && r[0].event.userId == me
  {
    [Emission(ToRoomExcept(receiverId, sid), if start then TypingStart(me) else TypingStop(me))]
  }

  /**
   * What `send_message` emits for the outcome `c` of creating the message:
   * on failure only `message_error` to the sender; on success
   * `receive_message` to the receiver's socket exactly when the receiver is
   * registered, then `message_sent` to the sender, then `typing_stop` to
   * the receiver's room.
   */
  function SendEvents(connected: map<Id, SocketId>, sid: SocketId, me: Id, receiverId: Id, c: Creation)
    : (r: seq<Emission>)
    ensures c.Rejected? ==> r == [Emission(ToSocket(sid), MessageError)]
    ensures c.Created? ==>
      && Emission(ToSocket(sid), MessageSent(c.message)) in r
      && Emission(ToRoomExcept(receiverId, sid), TypingStop(me)) in r
      && (receiverId in connected ==> Emission(ToSocket(connected[receiverId]), ReceiveMessage(c.message)) in r)
    ensures forall k :: 0 <= k < |r| && r[k].event.ReceiveMessage? ==>
      c.Created? && receiverId in connected && r[k] == Emission(ToSocket(connected[receiverId]), ReceiveMessage(c.message))
    ensures forall k :: 0 <= k < |r| && r[k].event.MessageError? ==> c.Rejected?
    ensures c.Created? ==>
      && |r| == (if receiverId in connected then 3 else 2)
      && r[|r| - 2] == Emission(ToSocket(sid), MessageSent(c.message))
      && r[|r| - 1] == Emission(ToRoomExcept(receiverId, sid), TypingStop(me))
    ensures |r| <= 3
  {
    if c.Rejected? then [Emission(ToSocket(sid), MessageError)]
    else
      var delivered := EmitToUser(connected, receiverId, ReceiveMessage(c.message));
      delivered + [Emission(ToSocket(sid), MessageSent(c.message))] + Typing(sid, me, receiverId, false)
  }

  /** A sent message ends the typing indicator exactly as the `typing_stop` handler does. */
  lemma SendEndsTyping(connected: map<Id, SocketId>, sid: SocketId, me: Id, receiverId: Id, c: Creation)
    requires c.Created?
    ensures Typing(sid, me, receiverId, false)[0] in SendEvents(connected, sid, me, receiverId, c)
  {
  }

  // ---------------------------------------------------------------------------
  // Presence

  /**
   * `findByIdAndUpdate(id, { isOnline, lastSeen })`: the user's presence
   * fields, and nothing else, are set; an unknown id changes nothing.
   */
  function WithPresence(us: seq<User>, id: Id, online: bool, now: nat): (r: seq<User>)
    ensures |r| == |us|
    ensures forall k :: 0 <= k < |us| ==> r[k].(isOnline := us[k].isOnline, lastSeen := us[k].lastSeen) == us[k]
    ensures forall k :: 0 <= k < |us| && us[k].id != id ==> r[k] == us[k]
    ensures var i := FindUser(us, id); i >= 0 ==> r[i].isOnline == online && r[i].lastSeen == now
    ensures !UserExists(us, id) ==> r == us
  {
    var i := FindUser(us, id);
    if i < 0 then us else us[i := us[i].(isOnline := online, lastSeen := now)]
  }

  /** Setting presence keeps ids unique and the follow graph consistent. */
  lemma PresenceKeepsValid(us: seq<User>, id: Id, online: bool, now: nat)
    requires UniqueIds(us) && FollowConsistent(us)
    ensures UniqueIds(WithPresence(us, id, online, now)) && FollowConsistent(WithPresence(us, id, online, now))
  {
    var i := FindUser(us, id);
    if i >= 0 {
      ReplaceUserKeepsValid(us, i, us[i].(isOnline := online, lastSeen := now));
    }
  }

  /** The last presence update wins: an earlier one leaves no trace. */
  lemma {:induction false} PresenceLastWriteWins(us: seq<User>, id: Id, a: bool, t1: nat, b: bool, t2: nat)
    ensures WithPresence(WithPresence(us, id, a, t1), id, b, t2) == WithPresence(us, id, b, t2)
  {
    var mid := WithPresence(us, id, a, t1);
    var i := FindUser(us, id);
    SameIdsSameIndex(us, mid, id);
    if i >= 0 {
      assert mid == us[i := us[i].(isOnline := a, lastSeen := t1)];
    }
  }

  /** Two stores with the same ids in the same places find a user at the same index. */
  lemma {:induction false} SameIdsSameIndex(us: seq<User>, vs: seq<User>, id: Id)
    requires |us| == |vs| && forall k :: 0 <= k < |us| ==> us[k].id == vs[k].id
    ensures FindUser(us, id) == FindUser(vs, id)
  {
    if us != [] && us[0].id != id {
      SameIdsSameIndex(us[1..], vs[1..], id);
    }
  }

  // ---------------------------------------------------------------------------
  // Registry scenarios

  /** After a user connects on socket `s`, messages for that user go to `s`. */
  lemma ConnectRoutesToNewSocket(connected: map<Id, SocketId>, u: Id, s: SocketId, e: Event)
    ensures EmitToUser(connected[u := s], u, e) == [Emission(ToSocket(s), e)]
  {
  }

  /** Registering one user does not change where any other user's events go. */
  lemma ConnectKeepsOthers(connected: map<Id, SocketId>, u: Id, s: SocketId, v: Id, e: Event)
    requires v != u
    ensures EmitToUser(connected[u := s], v, e) == EmitToUser(connected, v, e)
  {
  }

  /**
   * A user connected twice (socket `s1`, then `s2`) whose first socket then
   * disconnects is no longer reachable, although `s2` is still open: the
   * disconnect removes the entry without checking which socket it names.
   */
  lemma StaleDisconnectUnregisters(connected: map<Id, SocketId>, u: Id, s1: SocketId, s2: SocketId, e: Event)
    ensures connected[u := s1][u := s2][u] == s2
    ensures EmitToUser(connected[u := s1][u := s2] - {u}, u, e) == []
  {
  }

  // ---------------------------------------------------------------------------
  // The server

  class SocketServer {
    const db: Database
    /** `connectedUsers`: at most one socket per user, by construction of a map. */
    var connected: map<Id, SocketId>

    constructor(db0: Database)
      ensures db == db0 && connected == map[]
    {
      db := db0;
      connected := map[];
    }

    /** The presence update of the handlers; the clock stands for `new Date()`. */
    method SetPresence(id: Id, online: bool)
      requires db.Valid()
      modifies db
      ensures db.Valid()
      ensures db.users == WithPresence(old(db.users), id, online, db.clock)
      ensures db.posts == old(db.posts) && db.messages == old(db.messages) && db.clock == old(db.clock)
    {
      var i := FindUser(db.users, id);
      if i >= 0 {
        PresenceKeepsValid(db.users, id, online, db.clock);
        db.users := db.users[i := db.users[i].(isOnline := online, lastSeen := db.clock)];
      }
    }

    /**
     * The handshake followed by the `connection` handler. A refused socket
     * changes nothing and emits nothing; an accepted one replaces the user's
     * registry entry, marks the user online and announces it to everyone.
     */
    method Connect(sid: SocketId, token: Option<string>, verified: Option<Id>) returns (r: Option<Id>, out: seq<Emission>)
      requires db.Valid()
      modifies this, db
      ensures db.Valid()
      ensures db.posts == old(db.posts) && db.messages == old(db.messages) && db.clock == old(db.clock)
      ensures r == Handshake(old(db.users), token, verified)
      ensures r.None? ==> connected == old(connected) && db.users == old(db.users) && out == []
      ensures r.Some? ==>
        && connected == old(connected)[r.value := sid]
        && db.users == WithPresence(old(db.users), r.value, true, db.clock)
        && out == [Emission(ToEveryone, UserOnline(r.value, db.clock))]
    {
      r := Handshake(db.users, token, verified);
      if r.None? {
        return r, [];
      }
      var me := r.value;
      connected := connected[me := sid];
      SetPresence(me, true);
      out := [Emission(ToEveryone, UserOnline(me, db.clock))];
    }

    /**
     * `send_message` from socket `sid` of user `me`. The receiver is not
     * looked up; the message goes through the schema's validation (type
     * `text` and file URL `''` by default) and is stored on success.
     */
    method SendMessage(sid: SocketId, me: Id, receiverId: Id, content: string,
                       messageType: Option<string>, fileUrl: Option<string>, newId: Id)
      returns (out: seq<Emission>)
      requires db.Valid()
      modifies db
      ensures db.Valid()
      ensures db.users == old(db.users) && db.posts == old(db.posts) && db.clock == old(db.clock)
      ensures var c := CreateMessage(newId, me, receiverId, content,
                         Some(if messageType.None? then "text" else messageType.value),
                         Some(if fileUrl.None? then "" else fileUrl.value), old(db.clock));
        && out == SendEvents(connected, sid, me, receiverId, c)
        && db.messages == old(db.messages) + (if c.Created? then [c.message] else [])
    {
      var t := if messageType.None? then "text" else messageType.value;
      var url := if fileUrl.None? then "" else fileUrl.value;
      var c := CreateMessage(newId, me, receiverId, content, Some(t), Some(url), db.clock);
      if c.Rejected? {
        return [Emission(ToSocket(sid), MessageError)];
      }
      db.InsertMessage(c.message);
      var delivered := EmitToUser(connected, receiverId, ReceiveMessage(c.message));
      out := delivered + [Emission(ToSocket(sid), MessageSent(c.message))] + Typing(sid, me, receiverId, false);
    }

    /**
     * `mark_read`: the messages from `senderId` to `me` are marked read,
     * and the sender, if registered, is told that `me` read them.
     */
    method MarkRead(me: Id, senderId: Id) returns (out: seq<Emission>)
      requires db.Valid()
      modifies db
      ensures db.Valid()
      ensures db.messages == MarkedRead(old(db.messages), senderId, me, old(db.clock))
      ensures db.users == old(db.users) && db.posts == old(db.posts) && db.clock == old(db.clock)
      ensures out == EmitToUser(connected, senderId, MessagesRead(me))
    {
      var _ := db.MarkAsRead(senderId, me);
      out := EmitToUser(connected, senderId, MessagesRead(me));
    }

    /**
     * `update_status`: the user is online exactly when the status is
     * `online` (a missing status means offline), and everyone is told.
     */
    method UpdateStatus(me: Id, status: Option<string>) returns (out: seq<Emission>)
      requires db.Valid()
      modifies db
      ensures db.Valid()
      ensures db.posts == old(db.posts) && db.messages == old(db.messages) && db.clock == old(db.clock)
      ensures db.users == WithPresence(old(db.users), me, status == Some("online"), db.clock)
      ensures out == [Emission(ToEveryone, UserStatusUpdate(me, status == Some("online"), db.clock))]
    {
      var online := status == Some("online");
      SetPresence(me, online);
      out := [Emission(ToEveryone, UserStatusUpdate(me, online, db.clock))];
    }

    /**
     * `disconnect`: the user's registry entry is deleted whichever socket
     * it names, the user is marked offline and everyone is told.
     */
    method Disconnect(me: Id) returns (out: seq<Emission>)
      requires db.Valid()
      modifies this, db
      ensures db.Valid()
      ensures db.posts == old(db.posts) && db.messages == old(db.messages) && db.clock == old(db.clock)
      ensures connected == old(connected) - {me}
      ensures db.users == WithPresence(old(db.users), me, false, db.clock)
      ensures out == [Emission(ToEveryone, UserOffline(me, db.clock))]
    {
      connected := connected - {me};
      SetPresence(me, false);
      out := [Emission(ToEveryone, UserOffline(me, db.clock))];
    }
  }
}
