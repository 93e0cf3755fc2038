/**
 * backend/controllers/chatController.js: conversation creation, identifier
 * resolution, sending, paged history, the per-counterparty summaries,
 * read marking, unread count, soft delete and search. Handlers that only
 * read are functions (or a read-only method) of the stored collections; the
 * ones that write are methods on the database.
 */
module Chat {
  import opened Common
  import opened Messages
  import opened Records
  import opened Db

  // ---------------------------------------------------------------------------
  // Conversation identifiers

  /**
   * The counterparty a conversation identifier names for the requester.
   * Two tokens after `split('-')`: the second if the first is the requester,
   * otherwise the first (nothing checks that the requester is one of them).
   * Anything else is a legacy message id: not found (None, a 404) or the
   * other party of that message.
   *
   * The source compares the token with `req.user._id`, an ObjectId, using
   * `===`; a string is never `===` to an object, so as deployed the first
   * token always wins. The model compares the id's string form instead.
   */
  function ResolveCounterparty(ms: seq<Message>, conversationId: string, me: Id): (r: Option<Id>)
    ensures |Split(conversationId, Separator)| == 2 ==> r.Some? && r.value in Split(conversationId, Separator)
    ensures |Split(conversationId, Separator)| != 2 ==> (r.None? <==> FindMessage(ms, conversationId) < 0)
  {
    var tokens := Split(conversationId, Separator);
    if |tokens| == 2 then
      Some(if tokens[0] == me then tokens[1] else tokens[0])
    else
      var i := FindMessage(ms, conversationId);
      if i < 0 then None
      else Some(if ms[i].sender == me then ms[i].receiver else ms[i].sender)
  }

  /** Either participant resolving the sorted key gets the other one back. */
  lemma ResolveConversationKey(ms: seq<Message>, a: Id, b: Id)
    requires Separator !in a && Separator !in b
    ensures ResolveCounterparty(ms, ConversationKey(a, b), a) == Some(b)
    ensures ResolveCounterparty(ms, ConversationKey(a, b), b) == Some(a)
  {
    ConversationKeySplit(a, b);
  }

  /** The unsorted `${me}-${participant}` of `createConversation` resolves as well. */
  lemma ResolveCreatedId(ms: seq<Message>, me: Id, p: Id)
    requires Separator !in me && Separator !in p
    ensures ResolveCounterparty(ms, me + [Separator] + p, me) == Some(p)
    ensures ResolveCounterparty(ms, me + [Separator] + p, p) == Some(me)
  {
    SplitPair(me, Separator, p);
  }

  /** A requester named in neither token is given the first token. */
  lemma ResolveOutsider(ms: seq<Message>, a: Id, b: Id, me: Id)
    requires Separator !in a && Separator !in b && me != a && me != b
    ensures ResolveCounterparty(ms, a + [Separator] + b, me) == Some(a)
  {
    SplitPair(a, Separator, b);
  }

  /** A separator-free identifier (an ObjectId) is always looked up as a message id. */
  lemma ResolveLegacyId(ms: seq<Message>, id: Id, me: Id)
    requires Separator !in id
    ensures FindMessage(ms, id) < 0 ==> ResolveCounterparty(ms, id, me).None?
    ensures FindMessage(ms, id) >= 0 ==>
      var m := ms[FindMessage(ms, id)];
      ResolveCounterparty(ms, id, me) == Some(if m.sender == me then m.receiver else m.sender)
  {
    SplitNoSep(id, Separator);
  }

  // ---------------------------------------------------------------------------
  // createConversation

  /** `Message.findOne` over both directions, deleted messages included: the first match, or -1. */
  function FindBetween(ms: seq<Message>, a: Id, b: Id): (i: int)
    ensures -1 <= i < |ms|
    ensures i >= 0 ==> Between(ms[i], a, b) && forall k :: 0 <= k < i ==> !Between(ms[k], a, b)
    ensures i == -1 ==> forall k :: 0 <= k < |ms| ==> !Between(ms[k], a, b)
  {
    if ms == [] then -1
    else if Between(ms[0], a, b) then 0
    else
      var k := FindBetween(ms[1..], a, b);
      if k < 0 then -1 else k + 1
  }

  /**
   * `createConversation`: 400 without a participant, 404 for an unknown one;
   * the id of an existing message between the two (deleted or not) with
   * 200; otherwise the unsorted `${me}-${participantId}` with 201.
   */
  function CreateConversation(us: seq<User>, ms: seq<Message>, me: Id, participantId: Id): (r: Reply<string>)
    ensures r.status == StatusBadRequest <==> participantId == ""
    ensures r.status == StatusNotFound <==> participantId != "" && !UserExists(us, participantId)
    ensures r.Ok? && r.status == StatusOk ==>
      exists k :: 0 <= k < |ms| && Between(ms[k], me, participantId) && ms[k].id == r.body
    ensures r.Ok? && r.status == StatusCreated ==>
      (forall k :: 0 <= k < |ms| ==> !Between(ms[k], me, participantId))
      && r.body == me + [Separator] + participantId
    ensures r.Ok? ==> r.status in {StatusOk, StatusCreated}
    ensures r.Ok? && r.status == StatusOk ==> r.body == ms[FindBetween(ms, me, participantId)].id
    ensures r.Ok? || r.status == StatusBadRequest || r.status == StatusNotFound
  {
    if participantId == "" then Error(StatusBadRequest)
    else if FindUser(us, participantId) < 0 then Error(StatusNotFound)
    else
      var i := FindBetween(ms, me, participantId);
      if i >= 0 then Ok(StatusOk, ms[i].id)
      else Ok(StatusCreated, me + [Separator] + participantId)
  }

  /**
   * The id a new conversation is given equals the model's sorted key exactly
   * when the requester's id sorts first.
   */
  lemma CreatedIdIsKeyIffRequesterFirst(me: Id, p: Id)
    requires Separator !in me && Separator !in p
    ensures me + [Separator] + p == ConversationKey(me, p) <==> LexLe(me, p)
  {
    if !LexLe(me, p) {
      LexLeTotal(me, p);
      SplitPair(me, Separator, p);
      SplitPair(p, Separator, me);
    }
  }

  // ---------------------------------------------------------------------------
  // sendMessage

  /**
   * `sendMessage`: 400 without identifier or content; 404 when the
   * identifier or the resolved receiver is unknown; otherwise a new message
   * from the requester, type `text` and file URL `''` by default. A message
   * the schema rejects (too long, unknown type) ends in the handler's catch:
   * 500, nothing stored.
   */
  method SendMessage(db: Database, me: Id, conversationId: string, content: string,
                     messageType: Option<string>, fileUrl: Option<string>, newId: Id)
    returns (r: Reply<Message>)
    requires db.Valid()
    modifies db
    ensures db.Valid()
    ensures db.users == old(db.users) && db.posts == old(db.posts) && db.clock == old(db.clock)
    ensures r.status == StatusBadRequest <==> conversationId == "" || content == ""
    ensures conversationId != "" && content != "" ==>
      var other := ResolveCounterparty(old(db.messages), conversationId, me);
      && (r.status == StatusNotFound <==> other.None? || !UserExists(db.users, other.value))
      && (other.Some? && UserExists(db.users, other.value) ==>
            (r.status == StatusServerError <==>
               CreateMessage(newId, me, other.value, content,
                 Some(if messageType.None? then "text" else messageType.value),
                 Some(if fileUrl.None? then "" else fileUrl.value), old(db.clock)).Rejected?))
      && (r.Ok? ==>
            && r.status == StatusCreated
            && other.Some?
            && CreateMessage(newId, me, other.value, content,
                 Some(if messageType.None? then "text" else messageType.value),
                 Some(if fileUrl.None? then "" else fileUrl.value), old(db.clock)) == Created(r.body)
            && r.body.sender == me && r.body.receiver == other.value)
    ensures r.Ok? ==> db.messages == old(db.messages) + [r.body]
    ensures r.Error? ==> db.messages == old(db.messages)
    ensures r.Ok? || r.status in {StatusBadRequest, StatusNotFound, StatusServerError}
  {
    if conversationId == "" || content == "" {
      return Error(StatusBadRequest);
    }
    var other := ResolveCounterparty(db.messages, conversationId, me);
    if other.None? {
      return Error(StatusNotFound);
    }
    var receiverId := other.value;
    if FindUser(db.users, receiverId) < 0 {
      return Error(StatusNotFound);
    }
    var t := if messageType.None? then "text" else messageType.value;
    var url := if fileUrl.None? then "" else fileUrl.value;
    var c := CreateMessage(newId, me, receiverId, content, Some(t), Some(url), db.clock);
    if c.Rejected? {
      return Error(StatusServerError);
    }
    db.InsertMessage(c.message);
    r := Ok(StatusCreated, c.message);
  }

  // ---------------------------------------------------------------------------
  // getConversation

  datatype History = History(messages: seq<Message>, currentPage: nat, hasMore: bool)

  /**
   * The body `getConversation` replies with: page `p` of `l` non-deleted
   * messages between `me` and `other`, taken newest first and handed back
   * oldest first, so a run of consecutive messages of the conversation
   * ending `(p - 1) * l` messages before the newest; `hasMore` is whether
   * the page holds exactly `l` messages. A zero `l` is no limit, as in
   * MongoDB's `.limit(0)`.
   */
  function HistoryPage(ms: seq<Message>, me: Id, other: Id, p: nat, l: nat): (h: History)
    requires p >= 1
    ensures h.currentPage == p
    ensures l > 0 ==> |h.messages| <= l
    ensures h.hasMore <==> |h.messages| == l
    ensures forall m :: m in h.messages ==> m in ms && Between(m, me, other) && !m.isDeleted
    ensures Chronological(ms) ==> Chronological(h.messages)
    ensures h.messages == Reverse(Messages.GetConversation(ms, me, other, l, (p - 1) * l))
    ensures var c := ConversationMessages(ms, me, other);
      IsOldestFirstRun(h.messages, c, (p - 1) * l, MongoLimit(l, |c|))
  {
    var c, skip := ConversationMessages(ms, me, other), (p - 1) * l;
    var window := Messages.GetConversation(ms, me, other, l, skip);
    WindowOldestFirst(ms, me, other, l, skip);
    ReverseMembers(window);
    NewestWindowIsRun(window, c, skip, MongoLimit(l, |c|));
    History(Reverse(window), p, |window| == l)
  }

  /** Without a limit, the history is the whole conversation, oldest first. */
  lemma HistoryPageNoLimit(ms: seq<Message>, me: Id, other: Id, p: nat)
    requires p >= 1
    ensures HistoryPage(ms, me, other, p, 0).messages == ConversationMessages(ms, me, other)
  {
    var c := ConversationMessages(ms, me, other);
    assert (p - 1) * 0 == 0;
    WholeRun(HistoryPage(ms, me, other, p, 0).messages, c);
  }

  /** A window of the conversation, handed back reversed, is in creation order. */
  lemma WindowOldestFirst(ms: seq<Message>, me: Id, other: Id, l: nat, skip: nat)
    ensures Chronological(ms) ==> Chronological(Reverse(Messages.GetConversation(ms, me, other, l, skip)))
  {
    if Chronological(ms) {
      GetConversationNewestFirst(ms, me, other, l, skip);
      ReverseNewestFirst(Messages.GetConversation(ms, me, other, l, skip));
    }
  }

  /**
   * `getConversation`: resolves the counterparty (404 when the identifier or
   * the user is unknown), fetches page `page` (default 1) of `limit`
   * (default 50), only then marks the
   * counterparty's messages to the requester read, and replies with the page.
   */
  method GetConversation(db: Database, me: Id, conversationId: string, page: Option<nat>, limit: Option<nat>)
    returns (r: Reply<History>)
    requires db.Valid()
    modifies db
    ensures db.Valid()
    ensures db.users == old(db.users) && db.posts == old(db.posts) && db.clock == old(db.clock)
    ensures var other := ResolveCounterparty(old(db.messages), conversationId, me);
      r.Error? <==> other.None? || !UserExists(db.users, other.value)
    ensures r.Error? ==> r.status == StatusNotFound && db.messages == old(db.messages)
    ensures r.Ok? ==>
      var other := ResolveCounterparty(old(db.messages), conversationId, me).value;
      && r.status == StatusOk
      && r.body == HistoryPage(old(db.messages), me, other, OrDefault(page, 1), OrDefault(limit, 50))
      && Chronological(r.body.messages)
      && db.messages == MarkedRead(old(db.messages), other, me, old(db.clock))
  {
    var resolved := ResolveCounterparty(db.messages, conversationId, me);
    if resolved.None? {
      return Error(StatusNotFound);
    }
    var other := resolved.value;
    if FindUser(db.users, other) < 0 {
      return Error(StatusNotFound);
    }
    var history := HistoryPage(db.messages, me, other, OrDefault(page, 1), OrDefault(limit, 50));
    var _ := db.MarkAsRead(other, me);
    r := Ok(StatusOk, history);
  }

  // ---------------------------------------------------------------------------
  // getConversations

  /** The other party of a message, seen from `me`. */
  function Counterparty(m: Message, me: Id): Id
  {
    if m.sender == me then m.receiver else m.sender
  }

  /** `{ $or: [{ sender: me }, { receiver: me }], isDeleted: false }`. */
  predicate VisibleTo(m: Message, me: Id)
  {
    (m.sender == me || m.receiver == me) && !m.isDeleted
  }

  /** The requester's non-deleted messages in store order. */
  function MessagesOf(ms: seq<Message>, me: Id): (r: seq<Message>)
    ensures |r| <= |ms|
    ensures forall m :: m in r <==> m in ms && VisibleTo(m, me)
  {
    if ms == [] then []
    else
      var rest := MessagesOf(ms[..|ms| - 1], me);
      var m := ms[|ms| - 1];
      assert ms == ms[..|ms| - 1] + [m];
      if VisibleTo(m, me) then rest + [m] else rest
  }

  /** The list `getConversations` scans: the requester's messages, newest first. */
  function Inbox(ms: seq<Message>, me: Id): (r: seq<Message>)
    ensures forall m :: m in r <==> m in ms && VisibleTo(m, me)
  {
    var v := MessagesOf(ms, me);
    ReverseMembers(v);
    Reverse(v)
  }

  /** The counterparty of each message of `list`, in order. */
  function Counterparties(list: seq<Message>, me: Id): (r: seq<Id>)
    ensures |r| == |list|
    ensures forall k :: 0 <= k < |list| ==> r[k] == Counterparty(list[k], me)
  {
    if list == [] then []
    else Counterparties(list[..|list| - 1], me) + [Counterparty(list[|list| - 1], me)]
  }

  /** The messages of `list` exchanged with `other`, in order. */
  function Group(list: seq<Message>, other: Id, me: Id): (r: seq<Message>)
    ensures |r| <= |list|
    ensures forall m :: m in r ==> m in list && Counterparty(m, me) == other
    ensures r == [] <==> other !in Counterparties(list, me)
  {
    if list == [] then []
    else
      var rest := Group(list[..|list| - 1], other, me);
      var m := list[|list| - 1];
      assert list == list[..|list| - 1] + [m];
      assert Counterparties(list, me) == Counterparties(list[..|list| - 1], me) + [Counterparty(m, me)];
      if Counterparty(m, me) == other then rest + [m] else rest
  }

  /** Messages of `s` that are unread and addressed to `me`. */
  function CountUnreadTo(s: seq<Message>, me: Id): (n: nat)
    ensures n <= |s|
  {
    if s == [] then 0
    else
      var m := s[|s| - 1];
      CountUnreadTo(s[..|s| - 1], me) + (if !m.isRead && m.receiver == me then 1 else 0)
  }

  /** One entry of the `getConversations` reply (the populated participants left out). */
  datatype Summary = Summary(other: Id, lastMessage: Message, unreadCount: nat)

  /** The summaries name exactly the counterparties `d`, in the same order. */
  predicate SameOthers(convs: seq<Summary>, d: seq<Id>)
  {
    |convs| == |d| && forall j :: 0 <= j < |convs| ==> convs[j].other == d[j]
  }

  /**
   * A summary describes its counterparty's group in `list`: the group is not
   * empty, its first (newest) message is `lastMessage`, and `unreadCount`
   * counts the unread messages to `me` among the rest of the group.
   */
  predicate SummaryOf(c: Summary, list: seq<Message>, me: Id)
  {
    var g := Group(list, c.other, me);
    g != [] && c.lastMessage == g[0] && c.unreadCount == CountUnreadTo(g[1..], me)
  }

  /** The state of the scan after the messages of `list`: summaries and the `Map` index. */
  ghost predicate Summarizes(convs: seq<Summary>, index: map<Id, nat>, list: seq<Message>, me: Id)
  {
    && SameOthers(convs, Distinct(Counterparties(list, me)))
    && (forall k :: k in index <==> k in Counterparties(list, me))
    && (forall k :: k in index ==> index[k] < |convs| && convs[index[k]].other == k)
    && (forall j :: 0 <= j < |convs| ==> SummaryOf(convs[j], list, me))
  }

  /** Appending a message leaves the groups of the other counterparties alone. */
  lemma GroupAppendOther(before: seq<Message>, m: Message, other: Id, me: Id)
    requires Counterparty(m, me) != other
    ensures Group(before + [m], other, me) == Group(before, other, me)
  {
    assert (before + [m])[..|before|] == before;
  }

  lemma CounterpartiesAppend(before: seq<Message>, m: Message, me: Id)
    ensures Counterparties(before + [m], me) == Counterparties(before, me) + [Counterparty(m, me)]
  {
    assert (before + [m])[..|before|] == before;
  }

  /** Summaries of counterparties other than the new message's stay accurate after it. */
  lemma SummariesAppendOther(convs: seq<Summary>, before: seq<Message>, m: Message, me: Id, skip: int)
    requires forall j :: 0 <= j < |convs| ==> SummaryOf(convs[j], before, me)
    requires forall j :: 0 <= j < |convs| && j != skip ==> convs[j].other != Counterparty(m, me)
    ensures forall j :: 0 <= j < |convs| && j != skip ==> SummaryOf(convs[j], before + [m], me)
  {
    forall j | 0 <= j < |convs| && j != skip ensures SummaryOf(convs[j], before + [m], me) {
      GroupAppendOther(before, m, convs[j].other, me);
    }
  }

  /** The `Map` index stays accurate when a new counterparty gets the next position. */
  lemma IndexAppend(convs: seq<Summary>, index: map<Id, nat>, c: Summary)
    requires forall k :: k in index ==> index[k] < |convs| && convs[index[k]].other == k
    requires c.other !in index
    ensures var index' := index[c.other := |convs|];
      forall k :: k in index' ==> index'[k] < |convs| + 1 && (convs + [c])[index'[k]].other == k
  {
  }

  /** The `Map` index stays accurate when a summary's count changes. */
  lemma IndexBump(convs: seq<Summary>, index: map<Id, nat>, j: nat, c: Summary)
    requires forall k :: k in index ==> index[k] < |convs| && convs[index[k]].other == k
    requires j < |convs| && c.other == convs[j].other
    ensures forall k :: k in index ==> index[k] < |convs| && convs[j := c][index[k]].other == k
  {
  }

  /** The summary opened for a counterparty's first message describes its group. */
  lemma SummaryOfFirst(before: seq<Message>, m: Message, me: Id)
    requires Counterparty(m, me) !in Counterparties(before, me)
    ensures SummaryOf(Summary(Counterparty(m, me), m, 0), before + [m], me)
  {
    var after := before + [m];
    assert after[..|after| - 1] == before;
    assert Group(before, Counterparty(m, me), me) == [];
    assert Group(after, Counterparty(m, me), me) == [m];
  }

  /** The counterparties of the scanned prefix, without repetition, after one more message. */
  lemma DistinctCounterpartiesAppend(before: seq<Message>, m: Message, me: Id)
    ensures var d := Distinct(Counterparties(before, me));
      Distinct(Counterparties(before + [m], me))
      == if Counterparty(m, me) in Counterparties(before, me) then d else d + [Counterparty(m, me)]
  {
    CounterpartiesAppend(before, m, me);
    DistinctAppend(Counterparties(before, me), Counterparty(m, me));
  }

  /** Every summary describes its group once a new counterparty's first message is added. */
  lemma SummariesNew(convs: seq<Summary>, before: seq<Message>, m: Message, me: Id)
    requires forall j :: 0 <= j < |convs| ==> SummaryOf(convs[j], before, me)
    requires forall j :: 0 <= j < |convs| ==> convs[j].other != Counterparty(m, me)
    requires Counterparty(m, me) !in Counterparties(before, me)
    ensures var convs' := convs + [Summary(Counterparty(m, me), m, 0)];
      forall j :: 0 <= j < |convs'| ==> SummaryOf(convs'[j], before + [m], me)
  {
    var convs' := convs + [Summary(Counterparty(m, me), m, 0)];
    SummariesAppendOther(convs, before, m, me, -1);
    SummaryOfFirst(before, m, me);
    forall j | 0 <= j < |convs'| ensures SummaryOf(convs'[j], before + [m], me) {
      if j < |convs| { assert convs'[j] == convs[j]; }
    }
  }

  lemma SameOthersAppend(convs: seq<Summary>, d: seq<Id>, c: Summary)
    requires SameOthers(convs, d)
    ensures SameOthers(convs + [c], d + [c.other])
  {
  }

  lemma SameOthersUpdate(convs: seq<Summary>, d: seq<Id>, j: nat, c: Summary)
    requires SameOthers(convs, d) && j < |convs| && c.other == convs[j].other
    ensures SameOthers(convs[j := c], d)
  {
  }

  lemma SummarizesIntro(convs: seq<Summary>, index: map<Id, nat>, list: seq<Message>, me: Id)
    requires SameOthers(convs, Distinct(Counterparties(list, me)))
    requires forall k :: k in index <==> k in Counterparties(list, me)
    requires forall k :: k in index ==> index[k] < |convs| && convs[index[k]].other == k
    requires forall j :: 0 <= j < |convs| ==> SummaryOf(convs[j], list, me)
    ensures Summarizes(convs, index, list, me)
  {
  }

  /** A message from a counterparty not seen yet opens a new summary. */
  lemma SummarizesNew(convs: seq<Summary>, index: map<Id, nat>, before: seq<Message>, m: Message, me: Id)
    requires Summarizes(convs, index, before, me)
    requires Counterparty(m, me) !in index
    ensures Summarizes(convs + [Summary(Counterparty(m, me), m, 0)],
                       index[Counterparty(m, me) := |convs|], before + [m], me)
  {
    var other := Counterparty(m, me);
    var d := Distinct(Counterparties(before, me));
    assert other !in Counterparties(before, me);
    DistinctCounterpartiesAppend(before, m, me);
    assert Distinct(Counterparties(before + [m], me)) == d + [other];
    SameOthersAppend(convs, d, Summary(other, m, 0));
    CounterpartiesAppend(before, m, me);
    IndexAppend(convs, index, Summary(other, m, 0));
    SummariesNew(convs, before, m, me);
  }

  /** Every summary describes its group once a known counterparty's further message is added. */
  lemma SummariesSeen(convs: seq<Summary>, before: seq<Message>, m: Message, me: Id, j: nat)
    requires forall j' :: 0 <= j' < |convs| ==> SummaryOf(convs[j'], before, me)
    requires j < |convs| && convs[j].other == Counterparty(m, me)
    requires forall j' :: 0 <= j' < |convs| && j' != j ==> convs[j'].other != Counterparty(m, me)
    ensures var convs' := convs[j := Counted(convs[j], m, me)];
      forall j' :: 0 <= j' < |convs'| ==> SummaryOf(convs'[j'], before + [m], me)
  {
    var c := Counted(convs[j], m, me);
    var convs' := convs[j := c];
    SummariesAppendOther(convs, before, m, me, j);
    assert SummaryOf(convs[j], before, me);
    GroupAppend(before, m, Counterparty(m, me), me);
    assert SummaryOf(c, before + [m], me);
    forall j' | 0 <= j' < |convs'| ensures SummaryOf(convs'[j'], before + [m], me) {
      if j' != j { assert convs'[j'] == convs[j']; }
    }
  }

  /** A summary after one more message of its group: the count grows when that message is unread and to `me`. */
  function Counted(c: Summary, m: Message, me: Id): (r: Summary)
    ensures r.other == c.other && r.lastMessage == c.lastMessage
  {
    if !m.isRead && m.receiver == me then c.(unreadCount := c.unreadCount + 1) else c
  }

  /** In summaries that name distinct counterparties, only position `j` names `convs[j].other`. */
  lemma OthersDistinct(convs: seq<Summary>, d: seq<Id>, j: nat)
    requires SameOthers(convs, d) && NoDup(d) && j < |convs|
    ensures forall j' :: 0 <= j' < |convs| && j' != j ==> convs[j'].other != convs[j].other
  {
  }

  /** A further (older) message of a known counterparty only adds to that summary's count. */
  lemma SummarizesSeen(convs: seq<Summary>, index: map<Id, nat>, before: seq<Message>, m: Message, me: Id)
    requires Summarizes(convs, index, before, me)
    requires Counterparty(m, me) in index
    ensures var j := index[Counterparty(m, me)];
      Summarizes(convs[j := Counted(convs[j], m, me)], index, before + [m], me)
  {
    var other := Counterparty(m, me);
    var j := index[other];
    var c := Counted(convs[j], m, me);
    var d := Distinct(Counterparties(before, me));
    assert other in Counterparties(before, me);
    DistinctCounterpartiesAppend(before, m, me);
    assert Distinct(Counterparties(before + [m], me)) == d;
    SameOthersUpdate(convs, d, j, c);
    CounterpartiesAppend(before, m, me);
    IndexBump(convs, index, j, c);
    OthersDistinct(convs, Distinct(Counterparties(before, me)), j);
    SummariesSeen(convs, before, m, me, j);
    SummarizesIntro(convs[j := c], index, before + [m], me);
  }

  /**
   * The `forEach` of `getConversations`: scans the requester's messages
   * newest first and fills a `Map` keyed by counterparty. A counterparty
   * seen for the first time gets a summary with that message and a count
   * of 0; later (older) messages only add to the count when unread and
   * addressed to the requester. So: one summary per counterparty, in the
   * order of first sight, the newest message as `lastMessage`, and a count
   * over the group without its newest message.
   */
  method Summarize(ms: seq<Message>, me: Id) returns (convs: seq<Summary>)
    ensures SameOthers(convs, Distinct(Counterparties(Inbox(ms, me), me)))
    ensures forall j :: 0 <= j < |convs| ==> SummaryOf(convs[j], Inbox(ms, me), me)
    ensures forall i, j :: 0 <= i < j < |convs| ==> convs[i].other != convs[j].other
    ensures forall m :: m in ms && VisibleTo(m, me) ==>
      exists j :: 0 <= j < |convs| && convs[j].other == Counterparty(m, me)
  {
    var list := Inbox(ms, me);
    var index: map<Id, nat> := map[];
    convs := [];
    for i := 0 to |list|
      invariant Summarizes(convs, index, list[..i], me)
    {
      var m := list[i];
      var other := Counterparty(m, me);
      assert list[..i + 1] == list[..i] + [m];
      if other !in index {
        SummarizesNew(convs, index, list[..i], m, me);
        index := index[other := |convs|];
        convs := convs + [Summary(other, m, 0)];
      } else {
        SummarizesSeen(convs, index, list[..i], m, me);
        var j := index[other];
        if !m.isRead && m.receiver == me {
          convs := convs[j := convs[j].(unreadCount := convs[j].unreadCount + 1)];
        } else {
          assert convs == convs[j := Counted(convs[j], m, me)];
        }
      }
    }
    assert list[..|list|] == list;
    SummariesCover(convs, index, list, ms, me);
  }
  /**
   * Whether the `forEach` throws on entry `i` of the newest-first inbox
   * `list`. `populate` leaves `null` for a user who is no longer stored, and
   * the callback reads the `_id` of the sender, of the receiver when the
   * requester sent the message, and of the receiver of an unread message
   * whose counterparty was seen before.
   */
  predicate FailsAt(us: seq<User>, list: seq<Message>, i: nat, me: Id)
    requires i < |list|
  {
    var m := list[i];
    || !UserExists(us, m.sender)
    || (m.sender == me && !UserExists(us, m.receiver))
    || (&& m.sender != me && Counterparty(m, me) in Counterparties(list[..i], me)
        && !m.isRead && !UserExists(us, m.receiver))
  }

  /**
   * For a requester who is stored, the scan throws exactly when one of the
   * requester's visible messages has a counterparty who is not.
   */
  lemma FailsIffCounterpartyMissing(us: seq<User>, ms: seq<Message>, me: Id)
    requires UserExists(us, me)
    ensures var list := Inbox(ms, me);
      (exists i :: 0 <= i < |list| && FailsAt(us, list, i, me)) <==>
      (exists m :: m in ms && VisibleTo(m, me) && !UserExists(us, Counterparty(m, me)))
  {
    var list := Inbox(ms, me);
    if i :| 0 <= i < |list| && FailsAt(us, list, i, me) {
      assert list[i] in list;
      assert list[i] in ms && VisibleTo(list[i], me) && !UserExists(us, Counterparty(list[i], me));
    }
    if m :| m in ms && VisibleTo(m, me) && !UserExists(us, Counterparty(m, me)) {
      assert m in list;
      var i :| 0 <= i < |list| && list[i] == m;
      assert FailsAt(us, list, i, me);
    }
  }

  /**
   * `getConversations`: the summaries of the `forEach`, with 200; 500 when
   * the scan reaches a message whose populated user is missing.
   */
  method GetConversations(us: seq<User>, ms: seq<Message>, me: Id) returns (r: Reply<seq<Summary>>)
    ensures var list := Inbox(ms, me);
      r.Error? <==> exists i :: 0 <= i < |list| && FailsAt(us, list, i, me)
    ensures r.Error? ==> r.status == StatusServerError
    ensures UserExists(us, me) ==>
      (r.Error? <==> exists m :: m in ms && VisibleTo(m, me) && !UserExists(us, Counterparty(m, me)))
    ensures r.Ok? ==>
      && r.status == StatusOk
      && SameOthers(r.body, Distinct(Counterparties(Inbox(ms, me), me)))
      && (forall j :: 0 <= j < |r.body| ==> SummaryOf(r.body[j], Inbox(ms, me), me))
      && (forall i, j :: 0 <= i < j < |r.body| ==> r.body[i].other != r.body[j].other)
      && (forall m :: m in ms && VisibleTo(m, me) ==>
            exists j :: 0 <= j < |r.body| && r.body[j].other == Counterparty(m, me))
  {
    var list := Inbox(ms, me);
    if UserExists(us, me) {
      FailsIffCounterpartyMissing(us, ms, me);
    }
    if exists i :: 0 <= i < |list| && FailsAt(us, list, i, me) {
      return Error(StatusServerError);
    }
    var convs := Summarize(ms, me);
    r := Ok(StatusOk, convs);
  }


  lemma SummariesCover(convs: seq<Summary>, index: map<Id, nat>, list: seq<Message>, ms: seq<Message>, me: Id)
    requires list == Inbox(ms, me)
    requires Summarizes(convs, index, list, me)
    ensures forall i, j :: 0 <= i < j < |convs| ==> convs[i].other != convs[j].other
    ensures forall m :: m in ms && VisibleTo(m, me) ==>
      exists j :: 0 <= j < |convs| && convs[j].other == Counterparty(m, me)
  {
    var d := Distinct(Counterparties(list, me));
    assert forall i, j :: 0 <= i < j < |convs| ==> convs[i].other == d[i] && convs[j].other == d[j];
    forall m | m in ms && VisibleTo(m, me)
      ensures exists j :: 0 <= j < |convs| && convs[j].other == Counterparty(m, me)
    {
      assert m in list;
      var k :| 0 <= k < |list| && list[k] == m;
      assert Counterparties(list, me)[k] == Counterparty(m, me);
      assert Counterparty(m, me) in d;
      var j :| 0 <= j < |d| && d[j] == Counterparty(m, me);
      assert convs[j].other == Counterparty(m, me);
    }
  }

  /** Appending a message with this counterparty to a non-empty group keeps its head and extends its tail. */
  lemma GroupAppend(before: seq<Message>, m: Message, other: Id, me: Id)
    requires Counterparty(m, me) == other
    requires Group(before, other, me) != []
    ensures var g := Group(before, other, me);
      var g' := Group(before + [m], other, me);
      && g' == g + [m]
      && g'[0] == g[0]
      && CountUnreadTo(g'[1..], me) == CountUnreadTo(g[1..], me) + (if !m.isRead && m.receiver == me then 1 else 0)
  {
    GroupSnoc(before, m, other, me);
    TailSnocCount(Group(before, other, me), m, me);
  }

  /** A message with this counterparty joins the end of the group. */
  lemma GroupSnoc(before: seq<Message>, m: Message, other: Id, me: Id)
    requires Counterparty(m, me) == other
    ensures Group(before + [m], other, me) == Group(before, other, me) + [m]
  {
    var after := before + [m];
    assert after[..|after| - 1] == before;
  }

  /** The unread-to-me count of a non-empty list's tail after one more message. */
  lemma TailSnocCount(g: seq<Message>, m: Message, me: Id)
    requires g != []
    ensures CountUnreadTo((g + [m])[1..], me) == CountUnreadTo(g[1..], me) + (if !m.isRead && m.receiver == me then 1 else 0)
  {
    var tail := (g + [m])[1..];
    assert tail == g[1..] + [m];
    assert tail[..|tail| - 1] == g[1..];
  }

  /**
   * The reported count misses the group's newest message: it is the
   * group's unread-to-me count minus one when the newest is itself unread
   * and addressed to the requester.
   */
  lemma {:induction false} UnreadCountSkipsNewest(g: seq<Message>, me: Id)
    requires g != []
    ensures CountUnreadTo(g[1..], me) + (if !g[0].isRead && g[0].receiver == me then 1 else 0)
            == CountUnreadTo(g, me)
  {
    if |g| > 1 {
      var init := g[..|g| - 1];
      UnreadCountSkipsNewest(init, me);
      assert g[1..][..|g| - 2] == init[1..];
    }
  }

  /** A conversation made of one unread message to the requester reports an unread count of 0. */
  lemma SingleUnreadReportsZero(m: Message, me: Id)
    requires !m.isRead && m.receiver == me
    ensures CountUnreadTo([m][1..], me) == 0
    ensures CountUnreadTo([m], me) == 1
  {
    assert [m][..0] == [];
  }

  /** Keeping some earlier entries of a newest-first list in order, then its last entry, stays newest first. */
  lemma NewestFirstSnoc(list: seq<Message>, rest: seq<Message>)
    requires list != [] && NewestFirst(list) && NewestFirst(rest)
    requires forall x :: x in rest ==> x in list[..|list| - 1]
    ensures NewestFirst(rest + [list[|list| - 1]])
  {
    var r := rest + [list[|list| - 1]];
    forall i, j | 0 <= i < j < |r|
      ensures r[i].createdAt >= r[j].createdAt
    {
      if j == |rest| {
        assert r[i] == rest[i] && rest[i] in rest;
        var t :| 0 <= t < |list| - 1 && list[t] == rest[i];
      }
    }
  }

  /** Filtering by counterparty keeps a newest-first list newest first. */
  lemma {:induction false} GroupNewestFirst(list: seq<Message>, other: Id, me: Id)
    requires NewestFirst(list)
    ensures NewestFirst(Group(list, other, me))
  {
    if list != [] {
      var init := list[..|list| - 1];
      var m := list[|list| - 1];
      assert list == init + [m];
      assert NewestFirst(init);
      GroupNewestFirst(init, other, me);
      if Counterparty(m, me) == other {
        NewestFirstSnoc(list, Group(init, other, me));
      }
    }
  }

  /** In a store kept in creation order, each summary's `lastMessage` is the newest of its conversation. */
  lemma LastMessageIsNewest(ms: seq<Message>, me: Id, other: Id)
    requires Chronological(ms)
    requires other in Counterparties(Inbox(ms, me), me)
    ensures var g := Group(Inbox(ms, me), other, me);
      g != [] && forall m :: m in g ==> m.createdAt <= g[0].createdAt
  {
    InboxNewestFirst(ms, me);
    GroupNewestFirst(Inbox(ms, me), other, me);
    var g := Group(Inbox(ms, me), other, me);
    forall m | m in g ensures m.createdAt <= g[0].createdAt {
      var k :| 0 <= k < |g| && g[k] == m;
    }
  }

  lemma {:induction false} MessagesOfChronological(ms: seq<Message>, me: Id)
    requires Chronological(ms)
    ensures Chronological(MessagesOf(ms, me))
  {
    if ms != [] {
      var init := ms[..|ms| - 1];
      MessagesOfChronological(init, me);
      forall x | x in MessagesOf(init, me) ensures x.createdAt <= ms[|ms| - 1].createdAt {
        var k :| 0 <= k < |init| && init[k] == x;
        assert ms[k] == x;
      }
    }
  }

  lemma InboxNewestFirst(ms: seq<Message>, me: Id)
    requires Chronological(ms)
    ensures NewestFirst(Inbox(ms, me))
  {
    MessagesOfChronological(ms, me);
  }

  // ---------------------------------------------------------------------------
  // markMessagesAsRead, getUnreadCount

  /** `markMessagesAsRead`: `markAsRead(senderId, me)` and 200, with no further checks. */
  method MarkMessagesAsRead(db: Database, me: Id, senderId: Id) returns (r: Reply<()>)
    requires db.Valid()
    modifies db
    ensures db.Valid()
    ensures r == Ok(StatusOk, ())
    ensures db.messages == MarkedRead(old(db.messages), senderId, me, old(db.clock))
    ensures db.users == old(db.users) && db.posts == old(db.posts) && db.clock == old(db.clock)
  {
    var _ := db.MarkAsRead(senderId, me);
    r := Ok(StatusOk, ());
  }

  /**
   * `getUnreadCount`: the static's count for the requester, the number of
   * stored messages addressed to it that are unread and not deleted.
   */
  function GetUnreadCount(ms: seq<Message>, me: Id): (r: Reply<nat>)
    ensures r.Ok? && r.status == StatusOk && r.body <= |ms|
    ensures r.body == |set k | 0 <= k < |ms| && UnreadFor(ms[k], me)|
    ensures r.body == 0 <==> forall m :: m in ms ==> !UnreadFor(m, me)
  {
    UnreadCountIsSize(ms, me);
    Ok(StatusOk, UnreadCount(ms, me))
  }

  // ---------------------------------------------------------------------------
  // deleteMessage

  /** The store after soft-deleting the message at `i`: only its delete flag and times change. */
  function SoftDeleted(ms: seq<Message>, i: nat, now: nat): (out: seq<Message>)
    requires i < |ms|
    ensures |out| == |ms|
    ensures out[i].isDeleted && out[i].deletedAt == Some(now) && out[i].updatedAt == now
    ensures out[i].(isDeleted := ms[i].isDeleted, deletedAt := ms[i].deletedAt, updatedAt := ms[i].updatedAt) == ms[i]
    ensures forall k :: 0 <= k < |ms| && k != i ==> out[k] == ms[k]
  {
    ms[i := ms[i].(isDeleted := true, deletedAt := Some(now), updatedAt := now)]
  }

  /**
   * A soft-deleted message leaves every listing (history, summaries and the
   * unread count) yet stays in the store, so a legacy identifier naming it
   * still resolves to the same counterparty.
   */
  lemma SoftDeletedHidden(ms: seq<Message>, i: nat, now: nat, a: Id, b: Id, me: Id)
    requires i < |ms|
    ensures var out := SoftDeleted(ms, i, now);
      && out[i] !in ConversationMessages(out, a, b)
      && out[i] !in MessagesOf(out, me)
      && !UnreadFor(out[i], me)
      && FindMessage(out, ms[i].id) == FindMessage(ms, ms[i].id)
      && ResolveCounterparty(out, ms[i].id, me) == ResolveCounterparty(ms, ms[i].id, me)
  {
    var out := SoftDeleted(ms, i, now);
    FindMessageSameIds(ms, out, ms[i].id);
  }

  lemma {:induction false} FindMessageSameIds(ms: seq<Message>, out: seq<Message>, id: Id)
    requires |ms| == |out|
    requires forall k :: 0 <= k < |ms| ==>
      out[k].id == ms[k].id && out[k].sender == ms[k].sender && out[k].receiver == ms[k].receiver
    ensures FindMessage(out, id) == FindMessage(ms, id)
  {
    if ms != [] && ms[0].id != id {
      FindMessageSameIds(ms[1..], out[1..], id);
    }
  }

  /**
   * `deleteMessage`: 404 for an unknown id, 401 unless the requester sent
   * it; otherwise the message is flagged deleted now and kept.
   */
  method DeleteMessage(db: Database, me: Id, messageId: Id) returns (r: Reply<()>)
    requires db.Valid()
    modifies db
    ensures db.Valid()
    ensures db.users == old(db.users) && db.posts == old(db.posts) && db.clock == old(db.clock)
    ensures var i := FindMessage(old(db.messages), messageId);
      && (r.status == StatusNotFound <==> i < 0)
      && (r.status == StatusUnauthorized <==> i >= 0 && old(db.messages)[i].sender != me)
      && (r.Ok? <==> i >= 0 && old(db.messages)[i].sender == me)
      && (r.Ok? ==> r.status == StatusOk && db.messages == SoftDeleted(old(db.messages), i, old(db.clock)))
      && (r.Error? ==> db.messages == old(db.messages))
  {
    var i := FindMessage(db.messages, messageId);
    if i < 0 {
      return Error(StatusNotFound);
    }
    if db.messages[i].sender != me {
      return Error(StatusUnauthorized);
    }
    db.messages := SoftDeleted(db.messages, i, db.clock);
    r := Ok(StatusOk, ());
  }

  // ---------------------------------------------------------------------------
  // searchMessages

  /** The requester's non-deleted messages whose content matches the query, in store order. */
  function SearchMatches(ms: seq<Message>, me: Id, query: string): (r: seq<Message>)
    ensures |r| <= |ms|
    ensures forall m :: m in r <==> m in ms && VisibleTo(m, me) && MatchesCI(m.content, query)
  {
    if ms == [] then []
    else
      var rest := SearchMatches(ms[..|ms| - 1], me, query);
      var m := ms[|ms| - 1];
      assert ms == ms[..|ms| - 1] + [m];
      if VisibleTo(m, me) && MatchesCI(m.content, query) then rest + [m] else rest
  }

  /**
   * `searchMessages`: 400 for an empty query; otherwise page `page`
   * (default 1) of `limit` (default 20) matches newest first, with the
   * total and `ceil(total / limit)` pages.
   */
  function SearchMessages(ms: seq<Message>, me: Id, query: string, page: Option<nat>, limit: Option<nat>)
    : (r: Reply<Page<Message>>)
    ensures r.Error? <==> query == ""
    ensures r.Error? ==> r.status == StatusBadRequest
    ensures r.Ok? ==>
      var l := OrDefault(limit, 20);
      && r.status == StatusOk
      && r.body.currentPage == OrDefault(page, 1)
      && |r.body.items| <= l
      && (forall m :: m in r.body.items ==> m in ms && VisibleTo(m, me) && MatchesCI(m.content, query))
      && r.body.total == |SearchMatches(ms, me, query)|
      && r.body.totalPages == CeilDiv(r.body.total, l)
      && IsNewestPage(r.body.items, SearchMatches(ms, me, query), OrDefault(page, 1), l)
  {
    if query == "" then Error(StatusBadRequest)
    else
      var p := OrDefault(page, 1);
      var l := OrDefault(limit, 20);
      Ok(StatusOk, NewestPage(SearchMatches(ms, me, query), p, l))
  }

  /** Filtering keeps the creation order. */
  lemma {:induction false} SearchMatchesChronological(ms: seq<Message>, me: Id, query: string)
    requires Chronological(ms)
    ensures Chronological(SearchMatches(ms, me, query))
  {
    if ms != [] {
      var init := ms[..|ms| - 1];
      var last := ms[|ms| - 1];
      assert ms == init + [last];
      assert Chronological(init);
      SearchMatchesChronological(init, me, query);
      var rest := SearchMatches(init, me, query);
      if VisibleTo(last, me) && MatchesCI(last.content, query) {
        ChronologicalSnoc(ms, rest);
      }
    }
  }

  /** Over a store kept in creation order, every page of hits is sorted by `createdAt` descending. */
  lemma SearchMessagesNewestFirst(ms: seq<Message>, me: Id, query: string, page: Option<nat>, limit: Option<nat>)
    requires Chronological(ms) && query != ""
    ensures NewestFirst(SearchMessages(ms, me, query, page, limit).body.items)
  {
    var r := SearchMessages(ms, me, query, page, limit);
    SearchMatchesChronological(ms, me, query);
    NewestPageNewestFirst(r.body.items, SearchMatches(ms, me, query), OrDefault(page, 1), OrDefault(limit, 20));
  }
}
