/**
 * The message record and the queries of backend/models/Message.js: the schema's
 * constraints and defaults, the order-independent conversation key, and the
 * statics `getConversation`, `markAsRead` and `getUnreadCount`, stated over the
 * message collection held as a sequence in creation order.
 */
module Messages {
  import opened Common

  datatype MessageType = Text | Image | File | Audio

  /** The schema's `enum: ['text', 'image', 'file', 'audio']`. */
  function ParseMessageType(s: string): (r: Option<MessageType>)
    ensures r.Some? <==> s == "text" || s == "image" || s == "file" || s == "audio"
    ensures r.Some? ==> TypeName(r.value) == s
  {
    if s == "text" then Some(Text)
    else if s == "image" then Some(Image)
    else if s == "file" then Some(File)
    else if s == "audio" then Some(Audio)
    else None
  }

  function TypeName(t: MessageType): string
  {
    match t
    case Text => "text"
    case Image => "image"
    case File => "file"
    case Audio => "audio"
  }

  /** `maxlength: 1000` on the content. */
  const MaxContentLength: nat := 1000

  /**
   * A stored message. Times are readings of the store's abstract clock;
   * `readAt` and `deletedAt` are `null` (None) until set.
   */
  datatype Message = Message(
    id: Id,
    sender: Id,
    receiver: Id,
    content: string,
    messageType: MessageType,
    fileUrl: string,
    isRead: bool,
    readAt: Option<nat>,
    isDeleted: bool,
    deletedAt: Option<nat>,
    createdAt: nat,
    updatedAt: nat)

  /** Why `Message.create` rejects a document. */
  datatype ValidationError = MissingSender | MissingReceiver | MissingContent | ContentTooLong | BadMessageType

  datatype Creation = Created(message: Message) | Rejected(error: ValidationError)

  /** The schema's validators: both parties and a non-empty content of at most 1000 characters, a known type. */
  predicate Acceptable(sender: Id, receiver: Id, content: string, messageType: Option<string>)
  {
    && sender != ""
    && receiver != ""
    && content != ""
    && |content| <= MaxContentLength
    && (messageType.None? || ParseMessageType(messageType.value).Some?)
  }

  /**
   * `Message.create({...})`: validation, then the schema defaults (type
   * `text`, file URL `''`, unread, not deleted, both timestamps `now`).
   * Mongoose's `required` rejects an empty string as well as a missing value.
   */
  function CreateMessage(id: Id, sender: Id, receiver: Id, content: string,
                         messageType: Option<string>, fileUrl: Option<string>, now: nat): (r: Creation)
    ensures r.Created? <==> Acceptable(sender, receiver, content, messageType)
    ensures r.Created? ==>
      && r.message.id == id && r.message.sender == sender && r.message.receiver == receiver
      && r.message.content == content
      && r.message.messageType == (if messageType.None? then Text else ParseMessageType(messageType.value).value)
      && r.message.fileUrl == (if fileUrl.None? then "" else fileUrl.value)
      && !r.message.isRead && r.message.readAt.None?
      && !r.message.isDeleted && r.message.deletedAt.None?
      && r.message.createdAt == now && r.message.updatedAt == now
  {
    if sender == "" then Rejected(MissingSender)
    else if receiver == "" then Rejected(MissingReceiver)
    else if content == "" then Rejected(MissingContent)
    else if |content| > MaxContentLength then Rejected(ContentTooLong)
    else
      var t := if messageType.None? then Some(Text) else ParseMessageType(messageType.value);
      if t.None? then Rejected(BadMessageType)
      else
        var url := if fileUrl.None? then "" else fileUrl.value;
        Created(Message(id, sender, receiver, content, t.value, url, false, None, false, None, now, now))
  }

  // ---------------------------------------------------------------------------
  // Conversation identity (the `conversationId` virtual)

  /** The character the conversation key joins the two ids with. */
  const Separator: char := '-'

  /** The first of the two ids after `[a, b].sort()`. */
  function Lo(a: Id, b: Id): Id { if LexLe(a, b) then a else b }

  /** The second of the two ids after `[a, b].sort()`. */
  function Hi(a: Id, b: Id): Id { if LexLe(a, b) then b else a }

  /** `${users[0]}-${users[1]}` with `users = [sender, receiver].sort()`. */
  function ConversationKey(a: Id, b: Id): (key: string)
    ensures LexLe(a, b) ==> key == a + [Separator] + b
    ensures !LexLe(a, b) ==> key == b + [Separator] + a
    ensures |key| == |a| + |b| + 1
  {
    Lo(a, b) + [Separator] + Hi(a, b)
  }

  /** The key of a message's conversation, as the virtual computes it. */
  function MessageKey(m: Message): string
  {
    ConversationKey(m.sender, m.receiver)
  }

  /** Sorting the pair makes the key independent of who sent the message. */
  lemma ConversationKeySymmetric(a: Id, b: Id)
    ensures ConversationKey(a, b) == ConversationKey(b, a)
  {
    LexLeTotal(a, b);
    if LexLe(a, b) && LexLe(b, a) {
      LexLeAntisymmetric(a, b);
    }
  }

  /** The key is the two ids in ascending order, joined by the separator. */
  lemma ConversationKeyOrdered(a: Id, b: Id)
    ensures ConversationKey(a, b) == Lo(a, b) + [Separator] + Hi(a, b)
    ensures LexLe(Lo(a, b), Hi(a, b))
    ensures {Lo(a, b), Hi(a, b)} == {a, b}
  {
    LexLeTotal(a, b);
  }

  /**
   * For ids without the separator, splitting the key on `-` gives back the
   * sorted pair, so both participants can be recovered from it.
   */
  lemma ConversationKeySplit(a: Id, b: Id)
    requires Separator !in a && Separator !in b
    ensures Split(ConversationKey(a, b), Separator) == [Lo(a, b), Hi(a, b)]
    ensures {Lo(a, b), Hi(a, b)} == {a, b}
  {
    SplitPair(Lo(a, b), Separator, Hi(a, b));
  }

  // ---------------------------------------------------------------------------
  // Queries over the collection

  /** `findById`: the index of the first message with this id, or -1. */
  function FindMessage(ms: seq<Message>, id: Id): (i: int)
    ensures -1 <= i < |ms|
    ensures i >= 0 ==> ms[i].id == id && forall k :: 0 <= k < i ==> ms[k].id != id
    ensures i == -1 ==> forall k :: 0 <= k < |ms| ==> ms[k].id != id
  {
    if ms == [] then -1
    else if ms[0].id == id then 0
    else
      var k := FindMessage(ms[1..], id);
      if k < 0 then -1 else k + 1
  }

  /** `{ $or: [{sender: a, receiver: b}, {sender: b, receiver: a}] }`. */
  predicate Between(m: Message, a: Id, b: Id)
  {
    (m.sender == a && m.receiver == b) || (m.sender == b && m.receiver == a)
  }

  /** Non-deleted messages between `a` and `b`, in store (creation) order. */
  function ConversationMessages(ms: seq<Message>, a: Id, b: Id): (r: seq<Message>)
    ensures |r| <= |ms|
    ensures forall m :: m in r <==> m in ms && Between(m, a, b) && !m.isDeleted
  {
    if ms == [] then []
    else
      var rest := ConversationMessages(ms[..|ms| - 1], a, b);
      var m := ms[|ms| - 1];
      assert ms == ms[..|ms| - 1] + [m];
      if Between(m, a, b) && !m.isDeleted then rest + [m] else rest
  }

  /** Messages ordered by `createdAt`, oldest first: the order the store keeps. */
  predicate Chronological(ms: seq<Message>)
  {
    forall i, j :: 0 <= i < j < |ms| ==> ms[i].createdAt <= ms[j].createdAt
  }

  /** Ordered by `createdAt` descending, what `.sort({ createdAt: -1 })` yields. */
  predicate NewestFirst(ms: seq<Message>)
  {
    forall i, j :: 0 <= i < j < |ms| ==> ms[i].createdAt >= ms[j].createdAt
  }

  /**
   * The static `getConversation(user1, user2, limit = 50, skip = 0)`:
   * non-deleted messages in either direction, newest first, the first
   * `skip` dropped and at most `limit` kept, where a `limit` of 0 keeps
   * them all, as MongoDB's `.limit(0)` does. The store keeps creation
   * order, so newest first is the reverse of it.
   */
  function GetConversation(ms: seq<Message>, a: Id, b: Id, limit: nat, skip: nat): (r: seq<Message>)
    ensures limit > 0 ==> |r| <= limit
    ensures var n := |ConversationMessages(ms, a, b)|;
      limit == 0 ==> |r| == (if skip >= n then 0 else n - skip)
    ensures forall m :: m in r ==> m in ms && Between(m, a, b) && !m.isDeleted
    ensures var c := ConversationMessages(ms, a, b);
      IsNewestWindow(r, c, skip, MongoLimit(limit, |c|))
  {
    var c := ConversationMessages(ms, a, b);
    var all := Reverse(c);
    var w := Window(all, skip, MongoLimit(limit, |c|));
    assert forall m :: m in w ==> m in all;
    NewestWindow(c, skip, MongoLimit(limit, |c|));
    w
  }

  /** The defaults of the static: 50 messages from the start. */
  function GetConversationDefault(ms: seq<Message>, a: Id, b: Id): (r: seq<Message>)
    ensures |r| <= 50
    ensures forall m :: m in r ==> m in ms && Between(m, a, b) && !m.isDeleted
    ensures IsNewestWindow(r, ConversationMessages(ms, a, b), 0, 50)
  {
    GetConversation(ms, a, b, 50, 0)
  }

  /** Reversing a newest-first list gives the oldest first. */
  lemma ReverseNewestFirst(s: seq<Message>)
    requires NewestFirst(s)
    ensures Chronological(Reverse(s))
  {
    var r := Reverse(s);
    forall i, j | 0 <= i < j < |r| ensures r[i].createdAt <= r[j].createdAt {
      assert r[i] == s[|s| - 1 - i] && r[j] == s[|s| - 1 - j];
    }
  }

  /** Keeping some older messages in order and then the newest one keeps the creation order. */
  lemma ChronologicalSnoc(ms: seq<Message>, rest: seq<Message>)
    requires ms != [] && Chronological(ms) && Chronological(rest)
    requires forall m :: m in rest ==> m in ms[..|ms| - 1]
    ensures Chronological(rest + [ms[|ms| - 1]])
  {
    var r := rest + [ms[|ms| - 1]];
    forall i, j | 0 <= i < j < |r|
      ensures r[i].createdAt <= r[j].createdAt
    {
      if j == |rest| {
        assert r[i] == rest[i] && rest[i] in rest;
        var t :| 0 <= t < |ms| - 1 && ms[t] == rest[i];
      }
    }
  }

  /** Filtering keeps the creation order. */
  lemma {:induction false} ConversationMessagesChronological(ms: seq<Message>, a: Id, b: Id)
    requires Chronological(ms)
    ensures Chronological(ConversationMessages(ms, a, b))
  {
    if ms != [] {
      var init := ms[..|ms| - 1];
      var last := ms[|ms| - 1];
      assert ms == init + [last];
      assert Chronological(init);
      ConversationMessagesChronological(init, a, b);
      var rest := ConversationMessages(init, a, b);
      if Between(last, a, b) && !last.isDeleted {
        ChronologicalSnoc(ms, rest);
      }
    }
  }

  /** A newest-first window of a chronological list is ordered by `createdAt` descending. */
  lemma NewestWindowNewestFirst(w: seq<Message>, s: seq<Message>, skip: nat, limit: nat)
    requires Chronological(s) && IsNewestWindow(w, s, skip, limit)
    ensures NewestFirst(w)
  {
    forall i, j | 0 <= i < j < |w|
      ensures w[i].createdAt >= w[j].createdAt
    {
      assert w[i] == s[|s| - 1 - (skip + i)];
      assert w[j] == s[|s| - 1 - (skip + j)];
    }
  }

  /** The same for a page: page `page` of `limit` is the window after `(page - 1) * limit`. */
  lemma NewestPageNewestFirst(items: seq<Message>, s: seq<Message>, page: nat, limit: nat)
    requires page >= 1 && Chronological(s) && IsNewestPage(items, s, page, limit)
    ensures NewestFirst(items)
  {
    NewestWindowNewestFirst(items, s, (page - 1) * limit, limit);
  }

  /** The page is newest first, as the query's sort promises. */
  lemma GetConversationNewestFirst(ms: seq<Message>, a: Id, b: Id, limit: nat, skip: nat)
    requires Chronological(ms)
    ensures NewestFirst(GetConversation(ms, a, b, limit, skip))
  {
    ConversationMessagesChronological(ms, a, b);
  }

  /** The conversation between `a` and `b` is the conversation between `b` and `a`. */
  lemma {:induction false} ConversationMessagesSymmetric(ms: seq<Message>, a: Id, b: Id)
    ensures ConversationMessages(ms, a, b) == ConversationMessages(ms, b, a)
  {
    if ms != [] {
      ConversationMessagesSymmetric(ms[..|ms| - 1], a, b);
    }
  }

  // ---------------------------------------------------------------------------
  // markAsRead and getUnreadCount

  /** The filter of `markAsRead`: from `s` to `r` and still unread (deleted messages included). */
  predicate UnreadFrom(m: Message, s: Id, r: Id)
  {
    m.sender == s && m.receiver == r && !m.isRead
  }

  /** The update of `markAsRead` applied to one document if it matches the filter. */
  function MarkOne(m: Message, s: Id, r: Id, now: nat): (m': Message)
    ensures UnreadFrom(m, s, r) ==> m' == m.(isRead := true, readAt := Some(now), updatedAt := now)
    ensures !UnreadFrom(m, s, r) ==> m' == m
  {
    if UnreadFrom(m, s, r) then m.(isRead := true, readAt := Some(now), updatedAt := now) else m
  }

  /**
   * The collection after `markAsRead(s, r)`: every message from `s` to `r`
   * that was unread is read at `now`; nothing else changes, and messages
   * that were deleted are updated too.
   */
  function MarkedRead(ms: seq<Message>, s: Id, r: Id, now: nat): (out: seq<Message>)
    ensures |out| == |ms|
    ensures forall k :: 0 <= k < |ms| ==> out[k] == MarkOne(ms[k], s, r, now)
  {
    if ms == [] then []
    else MarkedRead(ms[..|ms| - 1], s, r, now) + [MarkOne(ms[|ms| - 1], s, r, now)]
  }

  /**
   * The `updateMany` of `markAsRead(s, r)`, one document at a time: marks
   * each unread message from `s` to `r` read at `now` and counts the
   * documents it modified.
   */
  method MarkAll(ms: seq<Message>, s: Id, r: Id, now: nat) returns (out: seq<Message>, modified: nat)
    ensures out == MarkedRead(ms, s, r, now)
    ensures modified == CountUnreadFrom(ms, s, r)
  {
    out, modified := ms, 0;
    var i := 0;
    while i < |ms|
      invariant 0 <= i <= |ms| == |out|
      invariant forall k :: 0 <= k < i ==> out[k] == MarkOne(ms[k], s, r, now)
      invariant forall k :: i <= k < |ms| ==> out[k] == ms[k]
      invariant modified == CountUnreadFrom(ms[..i], s, r)
    {
      CountUnreadFromStep(ms, i, s, r);
      if UnreadFrom(ms[i], s, r) {
        modified := modified + 1;
      }
      out := out[i := MarkOne(ms[i], s, r, now)];
      i := i + 1;
    }
    assert ms[..i] == ms;
  }

  /** How many documents the `markAsRead` filter matches (its `modifiedCount`). */
  function CountUnreadFrom(ms: seq<Message>, s: Id, r: Id): (n: nat)
    ensures n == 0 <==> forall m :: m in ms ==> !UnreadFrom(m, s, r)
    ensures n <= |ms|
  {
    if ms == [] then 0
    else
      var init, last := ms[..|ms| - 1], |ms| - 1;
      assert ms == init + [ms[last]];
      CountUnreadFrom(init, s, r) + (if UnreadFrom(ms[last], s, r) then 1 else 0)
  }

  /** The count is the number of positions whose message matches the filter. */
  lemma {:induction false} CountUnreadFromIsSize(ms: seq<Message>, s: Id, r: Id)
    ensures CountUnreadFrom(ms, s, r) == |set k | 0 <= k < |ms| && UnreadFrom(ms[k], s, r)|
  {
    var p := (m: Message) => UnreadFrom(m, s, r);
    CountUnreadFromIsCount(ms, s, r);
    CountPositions(ms, p, set k | 0 <= k < |ms| && UnreadFrom(ms[k], s, r));
  }

  /** The same count as `countDocuments` with the filter as a predicate. */
  lemma {:induction false} CountUnreadFromIsCount(ms: seq<Message>, s: Id, r: Id)
    ensures CountUnreadFrom(ms, s, r) == Count(ms, (m: Message) => UnreadFrom(m, s, r))
  {
    if ms != [] {
      CountUnreadFromIsCount(ms[..|ms| - 1], s, r);
    }
  }

  /** Counting one more message of the prefix adds one exactly when it matches. */
  lemma CountUnreadFromStep(ms: seq<Message>, i: nat, s: Id, r: Id)
    requires i < |ms|
    ensures CountUnreadFrom(ms[..i + 1], s, r)
      == CountUnreadFrom(ms[..i], s, r) + (if UnreadFrom(ms[i], s, r) then 1 else 0)
  {
    assert ms[..i + 1][..i] == ms[..i];
  }

  /** The filter of `getUnreadCount`: addressed to `u`, unread and not deleted. */
  predicate UnreadFor(m: Message, u: Id)
  {
    m.receiver == u && !m.isRead && !m.isDeleted
  }

  /** The static `getUnreadCount(u)`: `countDocuments({ receiver: u, isRead: false, isDeleted: false })`. */
  function UnreadCount(ms: seq<Message>, u: Id): (n: nat)
    ensures n == 0 <==> forall m :: m in ms ==> !UnreadFor(m, u)
    ensures n <= |ms|
  {
    if ms == [] then 0
    else
      var init, last := ms[..|ms| - 1], |ms| - 1;
      assert ms == init + [ms[last]];
      UnreadCount(init, u) + (if UnreadFor(ms[last], u) then 1 else 0)
  }

  /** The count is the number of positions whose message is unread for `u`. */
  lemma {:induction false} UnreadCountIsSize(ms: seq<Message>, u: Id)
    ensures UnreadCount(ms, u) == |set k | 0 <= k < |ms| && UnreadFor(ms[k], u)|
  {
    var p := (m: Message) => UnreadFor(m, u);
    UnreadCountIsCount(ms, u);
    CountPositions(ms, p, set k | 0 <= k < |ms| && UnreadFor(ms[k], u));
  }

  /** The same count as `countDocuments` with the filter as a predicate. */
  lemma {:induction false} UnreadCountIsCount(ms: seq<Message>, u: Id)
    ensures UnreadCount(ms, u) == Count(ms, (m: Message) => UnreadFor(m, u))
  {
    if ms != [] {
      UnreadCountIsCount(ms[..|ms| - 1], u);
    }
  }

  /** Messages from `s` to `r` that `getUnreadCount(r)` counts. */
  function CountVisibleUnreadFrom(ms: seq<Message>, s: Id, r: Id): (n: nat)
    ensures n <= CountUnreadFrom(ms, s, r)
  {
    if ms == [] then 0
    else
      var init, last := ms[..|ms| - 1], |ms| - 1;
      assert ms == init + [ms[last]];
      var m := ms[last];
      CountVisibleUnreadFrom(init, s, r) + (if UnreadFrom(m, s, r) && !m.isDeleted then 1 else 0)
  }

  /** The count is the number of positions whose message is unread from `s` to `r` and not deleted. */
  lemma {:induction false} CountVisibleUnreadFromIsSize(ms: seq<Message>, s: Id, r: Id)
    ensures CountVisibleUnreadFrom(ms, s, r) == |set k | 0 <= k < |ms| && UnreadFrom(ms[k], s, r) && !ms[k].isDeleted|
  {
    var p := (m: Message) => UnreadFrom(m, s, r) && !m.isDeleted;
    CountVisibleUnreadFromIsCount(ms, s, r);
    CountPositions(ms, p, set k | 0 <= k < |ms| && UnreadFrom(ms[k], s, r) && !ms[k].isDeleted);
  }

  /** The same count as `countDocuments` with the filter as a predicate. */
  lemma {:induction false} CountVisibleUnreadFromIsCount(ms: seq<Message>, s: Id, r: Id)
    ensures CountVisibleUnreadFrom(ms, s, r) == Count(ms, (m: Message) => UnreadFrom(m, s, r) && !m.isDeleted)
  {
    if ms != [] {
      CountVisibleUnreadFromIsCount(ms[..|ms| - 1], s, r);
    }
  }

  /** After `markAsRead(s, r)` no message matches its filter: a second call modifies nothing. */
  lemma {:induction false} MarkAsReadIdempotent(ms: seq<Message>, s: Id, r: Id, t1: nat, t2: nat)
    ensures CountUnreadFrom(MarkedRead(ms, s, r, t1), s, r) == 0
    ensures MarkedRead(MarkedRead(ms, s, r, t1), s, r, t2) == MarkedRead(ms, s, r, t1)
  {
    if ms != [] {
      var init := ms[..|ms| - 1];
      MarkAsReadIdempotent(init, s, r, t1, t2);
      var once := MarkedRead(ms, s, r, t1);
      assert once[..|once| - 1] == MarkedRead(init, s, r, t1);
    }
  }

  /**
   * `markAsRead(s, r)` lowers `r`'s unread count by the visible unread
   * messages from `s`.
   */
  lemma {:induction false} UnreadCountAfterMarkAsRead(ms: seq<Message>, s: Id, r: Id, now: nat)
    ensures UnreadCount(MarkedRead(ms, s, r, now), r) == UnreadCount(ms, r) - CountVisibleUnreadFrom(ms, s, r)
  {
    if ms != [] {
      var init := ms[..|ms| - 1];
      UnreadCountAfterMarkAsRead(init, s, r, now);
      var out := MarkedRead(ms, s, r, now);
      assert out[..|out| - 1] == MarkedRead(init, s, r, now);
    }
  }

  /** `markAsRead(s, r)` leaves the unread count of every user but `r` alone. */
  lemma {:induction false} UnreadCountOfOthersAfterMarkAsRead(ms: seq<Message>, s: Id, r: Id, now: nat, u: Id)
    requires u != r
    ensures UnreadCount(MarkedRead(ms, s, r, now), u) == UnreadCount(ms, u)
  {
    if ms != [] {
      var init := ms[..|ms| - 1];
      UnreadCountOfOthersAfterMarkAsRead(init, s, r, now, u);
      var out := MarkedRead(ms, s, r, now);
      assert out[..|out| - 1] == MarkedRead(init, s, r, now);
    }
  }

  /** The visible unread messages from one sender are among the reader's unread messages. */
  lemma {:induction false} VisibleUnreadWithinUnread(ms: seq<Message>, s: Id, r: Id)
    ensures CountVisibleUnreadFrom(ms, s, r) <= UnreadCount(ms, r)
  {
    if ms != [] {
      VisibleUnreadWithinUnread(ms[..|ms| - 1], s, r);
    }
  }

  /** Reading every message a user received from each sender clears the user's unread count. */
  lemma {:induction false} UnreadCountZeroWhenAllFrom(ms: seq<Message>, s: Id, r: Id, now: nat)
    requires forall m :: m in ms && UnreadFor(m, r) ==> m.sender == s
    ensures UnreadCount(MarkedRead(ms, s, r, now), r) == 0
  {
    if ms != [] {
      var init := ms[..|ms| - 1];
      assert forall m :: m in init ==> m in ms;
      UnreadCountZeroWhenAllFrom(init, s, r, now);
      var out := MarkedRead(ms, s, r, now);
      assert out[..|out| - 1] == MarkedRead(init, s, r, now);
    }
  }

  /** `markAsRead` keeps every creation time, hence the creation order. */
  lemma MarkedReadChronological(ms: seq<Message>, s: Id, r: Id, now: nat)
    requires Chronological(ms)
    ensures forall k :: 0 <= k < |ms| ==> MarkedRead(ms, s, r, now)[k].createdAt == ms[k].createdAt
    ensures Chronological(MarkedRead(ms, s, r, now))
  {
  }
}
