/**
 * The conversation table: each conversation row holds its messages, oldest
 * first. This module states the table's invariant, the lookups the store
 * runs on it, and, as functions of the old table, what logging a message
 * and listing the conversations produce.
 */
module Table {
  import opened Wrappers
  import opened Text
  import opened Tags
  import opened Messages

  /** A Conversation row with the Message rows that point at it. */
  datatype Conversation = Conversation(
    id: nat,
    name: string,
    userId: string,
    updatedAt: int,
    messages: seq<Message>)

  /**
   * Messages are kept oldest first, their ids were issued and are distinct,
   * and user roles are stored as `USER`.
   */
  ghost predicate MessagesValid(ms: seq<Message>, nextId: nat)
  {
    Sorted(ms) && DistinctIds(ms) && forall j :: 0 <= j < |ms| ==> ms[j].id < nextId && RoleNormalized(ms[j])
  }

  ghost predicate ConversationValid(c: Conversation, nextId: nat)
  {
    c.id < nextId && MessagesValid(c.messages, nextId)
  }

  /** The table invariant: every row is valid and conversation ids are a key. */
  ghost predicate Valid(convs: seq<Conversation>, nextId: nat)
  {
    (forall i :: 0 <= i < |convs| ==> ConversationValid(convs[i], nextId)) &&
    (forall i, j :: 0 <= i < j < |convs| ==> convs[i].id != convs[j].id)
  }

  lemma ValidGrow(convs: seq<Conversation>, nextId: nat, nextId': nat)
    requires Valid(convs, nextId) && nextId <= nextId'
    ensures Valid(convs, nextId')
  {
    forall i | 0 <= i < |convs|
      ensures ConversationValid(convs[i], nextId')
    {
      assert ConversationValid(convs[i], nextId);
    }
  }

  lemma ValidReplace(convs: seq<Conversation>, nextId: nat, k: nat, c: Conversation)
    requires Valid(convs, nextId) && k < |convs|
    requires ConversationValid(c, nextId) && c.id == convs[k].id
    ensures Valid(convs[k := c], nextId)
  {
  }

  lemma ValidAppend(convs: seq<Conversation>, nextId: nat, nextId': nat, c: Conversation)
    requires Valid(convs, nextId) && nextId <= nextId'
    requires ConversationValid(c, nextId') && c.id >= nextId
    ensures Valid(convs + [c], nextId')
  {
    ValidGrow(convs, nextId, nextId');
    assert forall i :: 0 <= i < |convs| ==> convs[i].id < nextId;
  }

  /** Deleting a conversation keeps the table valid, and no row with its id is left. */
  lemma ValidRemove(convs: seq<Conversation>, nextId: nat, k: nat)
    requires Valid(convs, nextId) && k < |convs|
    ensures Valid(RemoveAt(convs, k), nextId)
    ensures forall i :: 0 <= i < |convs| - 1 ==> RemoveAt(convs, k)[i].id != convs[k].id
  {
  }

  /** In a valid table a conversation is the first, and only, row with its id. */
  lemma FindById(convs: seq<Conversation>, nextId: nat, k: nat)
    requires Valid(convs, nextId) && k < |convs|
    ensures FirstConversation(convs, HasId(convs[k].id)) == Some(k)
  {
  }

  /** An edit that keeps every message's id, role and timestamp keeps the messages valid. */
  lemma SlotsValid(ms: seq<Message>, ms': seq<Message>, nextId: nat)
    requires MessagesValid(ms, nextId) && SameSlots(ms, ms')
    ensures MessagesValid(ms', nextId)
  {
    assert forall j :: 0 <= j < |ms'| ==> RoleNormalized(ms[j]) && ms'[j].role == ms[j].role;
  }

  lemma RemoveValid(ms: seq<Message>, k: nat, nextId: nat)
    requires MessagesValid(ms, nextId) && k < |ms|
    ensures MessagesValid(RemoveAt(ms, k), nextId)
  {
  }

  lemma ValidSetMessages(convs: seq<Conversation>, nextId: nat, k: nat, ms: seq<Message>)
    requires Valid(convs, nextId) && k < |convs| && MessagesValid(ms, nextId)
    ensures Valid(convs[k := convs[k].(messages := ms)], nextId)
  {
    ValidReplace(convs, nextId, k, convs[k].(messages := ms));
  }

  /** Creating an empty conversation under the next id keeps the table valid. */
  lemma ValidCreate(convs: seq<Conversation>, nextId: nat, name: string, user: string, now: int)
    requires Valid(convs, nextId)
    ensures Valid(convs + [Conversation(nextId, name, user, now, [])], nextId + 1)
  {
    ValidAppend(convs, nextId, nextId + 1, Conversation(nextId, name, user, now, []));
  }

  /** `<name>_fork_<stamp>` */
  function ForkName(name: string, stamp: string): string
  {
    name + "_fork_" + stamp
  }

  /** The copies a fork makes of a valid conversation's prefix form a valid conversation. */
  lemma ForkCopiesValid(ms: seq<Message>, j: nat, nextId: nat)
    requires MessagesValid(ms, nextId) && j < |ms|
    ensures MessagesValid(ForkCopies(UpTo(ms, j), nextId + 1), nextId + 1 + |UpTo(ms, j)|)
  {
    var p := UpTo(ms, j);
    var copies := ForkCopies(p, nextId + 1);
    UpToPrefix(ms, j);
    ForkCopiesSorted(p, nextId + 1);
    forall i | 0 <= i < |copies|
      ensures RoleNormalized(copies[i])
    {
      assert p[i] in p;
      var x :| 0 <= x < |ms| && ms[x] == p[i];
      assert RoleNormalized(ms[x]);
    }
  }

  /**
   * The table after forking conversation `k` at its message `j`: the last
   * original copied gets its notify flag raised, and a new conversation
   * `name` with id `nextId` holds copies of the prefix, numbered after it.
   */
  function ForkInto(convs: seq<Conversation>, nextId: nat, k: nat, j: nat, name: string, user: string, now: int): seq<Conversation>
    requires k < |convs| && j < |convs[k].messages|
  {
    WithFork(convs, nextId, k, j, name, user, now, ForkCopies(UpTo(convs[k].messages, j), nextId + 1))
  }

  /** The id counter after a fork: one id for the new conversation, one per copy. */
  function ForkNextId(convs: seq<Conversation>, nextId: nat, k: nat, j: nat): nat
    requires k < |convs| && j < |convs[k].messages|
  {
    nextId + 1 + |UpTo(convs[k].messages, j)|
  }

  /** The fork's writes, given the copies made of the prefix. */
  function WithFork(convs: seq<Conversation>, nextId: nat, k: nat, j: nat, name: string, user: string, now: int,
                    copies: seq<Message>): seq<Conversation>
    requires k < |convs| && j < |convs[k].messages|
  {
    var ms := convs[k].messages;
    convs[k := convs[k].(messages := SetNotify(ms, |UpTo(ms, j)| - 1, true))] +
      [Conversation(nextId, name, user, now, copies)]
  }

  /** A fork keeps the table valid. */
  lemma ForkValid(convs: seq<Conversation>, nextId: nat, k: nat, j: nat, name: string, user: string, now: int)
    requires Valid(convs, nextId) && k < |convs| && j < |convs[k].messages|
    ensures Valid(ForkInto(convs, nextId, k, j, name, user, now), ForkNextId(convs, nextId, k, j))
  {
    var ms := convs[k].messages;
    var p := UpTo(ms, j);
    var marked := convs[k := convs[k].(messages := SetNotify(ms, |p| - 1, true))];
    assert ConversationValid(convs[k], nextId);
    SlotsValid(ms, SetNotify(ms, |p| - 1, true), nextId);
    ValidSetMessages(convs, nextId, k, SetNotify(ms, |p| - 1, true));
    ForkCopiesValid(ms, j, nextId);
    ValidAppend(marked, nextId, nextId + 1 + |p|, Conversation(nextId, name, user, now, ForkCopies(p, nextId + 1)));
  }

  /** The same, for the table written with copies made one by one. */
  lemma ForkCopiedValid(convs: seq<Conversation>, nextId: nat, k: nat, j: nat, name: string, user: string, now: int,
                        copies: seq<Message>)
    requires Valid(convs, nextId) && k < |convs| && j < |convs[k].messages|
    requires copies == ForkCopies(UpTo(convs[k].messages, j), nextId + 1)
    ensures WithFork(convs, nextId, k, j, name, user, now, copies) == ForkInto(convs, nextId, k, j, name, user, now)
    ensures Valid(WithFork(convs, nextId, k, j, name, user, now, copies), ForkNextId(convs, nextId, k, j))
  {
    ForkValid(convs, nextId, k, j, name, user, now);
  }

  /**
   * What a fork leaves of the old rows: every other
   * conversation as it was, and in the original exactly one notify flag
   * raised, on the last message stamped no later than the target (which is
   * at or after the target).
   */
  lemma ForkKeepsRows(convs: seq<Conversation>, nextId: nat, k: nat, j: nat, name: string, user: string, now: int)
    requires k < |convs| && j < |convs[k].messages| && Sorted(convs[k].messages)
    ensures var r := ForkInto(convs, nextId, k, j, name, user, now);
      && |r| == |convs| + 1
      && (forall i :: 0 <= i < |convs| && i != k ==> r[i] == convs[i])
      && r[k] == convs[k].(messages := r[k].messages)
      && j <= |UpTo(convs[k].messages, j)| - 1
      && |r[k].messages| == |convs[k].messages|
      && forall i :: 0 <= i < |convs[k].messages| ==>
           r[k].messages[i] ==
             if i == |UpTo(convs[k].messages, j)| - 1 then convs[k].messages[i].(notify := true)
             else convs[k].messages[i]
  {
    var ms := convs[k].messages;
    UpToPrefix(ms, j);
    var n := |UpTo(ms, j)| - 1;
    var r := ForkInto(convs, nextId, k, j, name, user, now);
    assert r == convs[k := convs[k].(messages := SetNotify(ms, n, true))] +
      [Conversation(nextId, name, user, now, ForkCopies(UpTo(ms, j), nextId + 1))];
    assert r[k].messages == ms[n := ms[n].(notify := true)];
  }

  /**
   * The conversation a fork adds, last in the table: the given name and
   * user, and one fresh copy, notify off, of each message stamped no later
   * than the target, in the original's order.
   */
  lemma ForkAddsCopy(convs: seq<Conversation>, nextId: nat, k: nat, j: nat, name: string, user: string, now: int)
    requires k < |convs| && j < |convs[k].messages| && Sorted(convs[k].messages)
    ensures var r := ForkInto(convs, nextId, k, j, name, user, now);
      var ms := convs[k].messages;
      var prefix := UpTo(ms, j);
      && |r| == |convs| + 1
      && r[|convs|].id == nextId && r[|convs|].name == name && r[|convs|].userId == user
      && |r[|convs|].messages| == |prefix|
      && forall i :: 0 <= i < |prefix| ==>
           prefix[i] == ms[i] && SameRecord(r[|convs|].messages[i], ms[i]) && !r[|convs|].messages[i].notify
  {
    var prefix := UpTo(convs[k].messages, j);
    UpToPrefix(convs[k].messages, j);
    assert prefix == convs[k].messages[..|prefix|];
  }

  /** The filters the store puts on the Conversation table. */
  datatype ConversationQuery =
    | Named(name: string, userId: string)        // name == name and user_id == user
    | HasId(id: nat)                             // the handle's cached row
    | RenderedId(rendered: string, userId: string)  // str(id) == rendered and user_id == user

  predicate ConversationMatches(c: Conversation, q: ConversationQuery)
  {
    match q
    case Named(name, user) => c.name == name && c.userId == user
    case HasId(id) => c.id == id
    case RenderedId(id, user) => NatToString(c.id) == id && c.userId == user
  }

  /** `query(Conversation).filter(q).first()`, taking rows in the order they were created. */
  function FirstConversation(convs: seq<Conversation>, q: ConversationQuery): (r: Option<nat>)
    ensures r.Some? ==> r.value < |convs| && ConversationMatches(convs[r.value], q)
    ensures r.Some? ==> forall j :: 0 <= j < r.value ==> !ConversationMatches(convs[j], q)
    ensures r.None? ==> forall j :: 0 <= j < |convs| ==> !ConversationMatches(convs[j], q)
  {
    if convs == [] then None
    else if ConversationMatches(convs[0], q) then Some(0)
    else match FirstConversation(convs[1..], q)
      case Some(k) => Some(k + 1)
      case None => None
  }

  /**
   * The handle's `conversation` property: the row it holds if that row still
   * exists, otherwise the first row with the handle's name and user.
   */
  function Resolve(convs: seq<Conversation>, cached: Option<nat>, name: string, user: string): (r: Option<nat>)
    ensures r.Some? ==> r.value < |convs|
    ensures cached.None? ==> r == FirstConversation(convs, Named(name, user))
    ensures cached.Some? && r.Some? ==>
      convs[r.value].id == cached.value || ConversationMatches(convs[r.value], Named(name, user))
    ensures cached.Some? && FirstConversation(convs, HasId(cached.value)).Some? ==>
      r == FirstConversation(convs, HasId(cached.value))
    ensures cached.Some? && FirstConversation(convs, HasId(cached.value)).None? ==>
      r == FirstConversation(convs, Named(name, user))
    ensures r.None? <==>
      (cached.None? || FirstConversation(convs, HasId(cached.value)).None?) &&
      forall i :: 0 <= i < |convs| ==> !ConversationMatches(convs[i], Named(name, user))
  {
    match cached
    case Some(id) =>
      var held := FirstConversation(convs, HasId(id));
      if held.Some? then held else FirstConversation(convs, Named(name, user))
    case None => FirstConversation(convs, Named(name, user))
  }

  /** A handle holding row `k`'s id finds row `k`. */
  lemma ResolveHeld(convs: seq<Conversation>, nextId: nat, k: nat, name: string, user: string)
    requires Valid(convs, nextId) && k < |convs|
    ensures Resolve(convs, Some(convs[k].id), name, user) == Some(k)
  {
    FindById(convs, nextId, k);
  }

  /** `get_last_activity_id` on an existing conversation: the newest `[ACTIVITY]` message's id. */
  function LastActivityId(ms: seq<Message>): (r: Option<nat>)
    ensures r.None? <==> forall j :: 0 <= j < |ms| ==> !IsActivity(ms[j].content)
    ensures r.Some? ==> exists k :: (0 <= k < |ms| && ms[k].id == r.value && IsActivity(ms[k].content) &&
      forall j :: k < j < |ms| ==> !IsActivity(ms[j].content))
  {
    match LastWhere(ms, AnyActivity)
    case Some(k) => Some(ms[k].id)
    case None => None
  }

  /** `get_last_agent_name` on an existing conversation: the newest role other than `USER`/`user`. */
  function LastAgentName(ms: seq<Message>): (r: string)
    ensures r == "AGiXT" || exists k :: 0 <= k < |ms| && ms[k].role == r && r != UserRole && r != "user"
    ensures (forall j :: 0 <= j < |ms| ==> !Matches(ms[j], AgentTurn)) ==> r == "AGiXT"
    ensures (exists j :: 0 <= j < |ms| && Matches(ms[j], AgentTurn)) ==>
      exists k :: 0 <= k < |ms| && Matches(ms[k], AgentTurn) && ms[k].role == r &&
        forall j :: k < j < |ms| ==> !Matches(ms[j], AgentTurn)
  {
    match LastWhere(ms, AgentTurn)
    case Some(k) => ms[k].role
    case None => "AGiXT"
  }

  /** With roles stored normalised, the last agent name is never a user role. */
  lemma LastAgentNameIsAgent(ms: seq<Message>)
    requires forall j :: 0 <= j < |ms| ==> RoleNormalized(ms[j])
    ensures !IsUserRole(LastAgentName(ms))
  {
    assert |Lower("AGiXT")| != |"user"|;
  }

  /** What `get_thinking_id` does with an existing conversation. */
  datatype ThinkingChoice = ReuseThinking(id: nat) | NewThinking

  /**
   * The three-way decision of `get_thinking_id`: reuse the newest
   * `[ACTIVITY] Thinking.` exactly when it exists and is strictly newer than
   * the newest other activity (or there is no other activity).
   */
  function ThinkingDecision(ms: seq<Message>): (c: ThinkingChoice)
    ensures c.ReuseThinking? <==>
      LastWhere(ms, Thinking).Some? &&
      (LastWhere(ms, ParentActivity).None? ||
       ms[LastWhere(ms, Thinking).value].timestamp > ms[LastWhere(ms, ParentActivity).value].timestamp)
    ensures c.ReuseThinking? ==> c.id == ms[LastWhere(ms, Thinking).value].id
  {
    var parent := LastWhere(ms, ParentActivity);
    var thinking := LastWhere(ms, Thinking);
    if parent.Some? && (thinking.None? || ms[parent.value].timestamp > ms[thinking.value].timestamp) then
      NewThinking
    else if thinking.Some? && (parent.None? || ms[thinking.value].timestamp > ms[parent.value].timestamp) then
      ReuseThinking(ms[thinking.value].id)
    else
      NewThinking
  }

  /** The row `log_interaction` adds, once its role and text are normalised. */
  function StoredMessage(id: nat, p: Prepared, now: int): Message
  {
    Message(id, p.role, p.content, now, now, None, false, p.notify)
  }

  /** The table after a `log_interaction`, the id it returns, and where the message went. */
  datatype Logged = Logged(conversations: seq<Conversation>, nextId: nat, id: nat, at: nat)

  /**
   * `log_interaction` as a function of the table: the conversation at `at`
   * (or a new one under `name` and `user`, created first) gains the
   * normalised message, stamped `now`, and its `updated_at` is refreshed.
   */
  function LogInto(convs: seq<Conversation>, nextId: nat, at: Option<nat>, name: string, user: string,
                   role: string, message: string, now: int): (r: Logged)
    requires at.Some? ==> at.value < |convs|
  {
    var last := if at.Some? then LastActivityId(convs[at.value].messages) else None;
    var p := Prepare(role, message, last);
    match at
    case Some(k) =>
      var c := convs[k];
      var m := StoredMessage(nextId, p, now);
      Logged(convs[k := c.(messages := InsertByTime(c.messages, m), updatedAt := now)], nextId + 1, nextId, k)
    case None =>
      var m := StoredMessage(nextId + 1, p, now);
      Logged(convs + [Conversation(nextId, name, user, now, [m])], nextId + 2, nextId + 1, |convs|)
  }

  /**
   * Logging into a conversation the handle does not have is creating the
   * empty row under `name` first and then logging into that row.
   */
  lemma LogIntoCreates(convs: seq<Conversation>, nextId: nat, name: string, user: string,
                       role: string, message: string, now: int)
    ensures var created := convs + [Conversation(nextId, name, user, now, [])];
      LogInto(convs, nextId, None, name, user, role, message, now) ==
      LogInto(created, nextId + 1, Some(|convs|), name, user, role, message, now)
  {
    var created := convs + [Conversation(nextId, name, user, now, [])];
    var m := StoredMessage(nextId + 1, Prepare(role, message, None), now);
    assert LastActivityId([]) == None;
    assert InsertByTime([], m) == [m];
    assert created[|convs| := created[|convs|].(messages := [m], updatedAt := now)] ==
      convs + [Conversation(nextId, name, user, now, [m])];
  }

  /** Every message id in a valid table was issued before `nextId`. */
  lemma IdsIssued(convs: seq<Conversation>, nextId: nat)
    requires Valid(convs, nextId)
    ensures forall i, j :: 0 <= i < |convs| && 0 <= j < |convs[i].messages| ==> convs[i].messages[j].id < nextId
  {
    forall i, j | 0 <= i < |convs| && 0 <= j < |convs[i].messages|
      ensures convs[i].messages[j].id < nextId
    {
      assert ConversationValid(convs[i], nextId);
    }
  }

  lemma LogIntoExistingValid(convs: seq<Conversation>, nextId: nat, k: nat, m: Message, now: int)
    requires Valid(convs, nextId) && k < |convs| && m.id == nextId && RoleNormalized(m)
    ensures Valid(convs[k := convs[k].(messages := InsertByTime(convs[k].messages, m), updatedAt := now)], nextId + 1)
  {
    var c := convs[k];
    assert ConversationValid(c, nextId);
    InsertByTimeBounded(c.messages, m, nextId + 1);
    assert MessagesValid(InsertByTime(c.messages, m), nextId + 1);
    ValidGrow(convs, nextId, nextId + 1);
    ValidReplace(convs, nextId + 1, k, c.(messages := InsertByTime(c.messages, m), updatedAt := now));
  }

  /** Logging into an existing conversation `k`: one message more there, nothing else changes. */
  lemma LogIntoExistingAddsOne(convs: seq<Conversation>, nextId: nat, k: nat, name: string,
                               user: string, role: string, message: string, now: int)
    requires Valid(convs, nextId) && k < |convs|
    ensures var r := LogInto(convs, nextId, Some(k), name, user, role, message, now);
      var m := StoredMessage(nextId, Prepare(role, message, LastActivityId(convs[k].messages)), now);
      && Valid(r.conversations, r.nextId)
      && r.id == nextId && r.at == k && r.nextId == nextId + 1 && |r.conversations| == |convs|
      && (forall i :: 0 <= i < |convs| && i != k ==> r.conversations[i] == convs[i])
      && r.conversations[k] == convs[k].(messages := r.conversations[k].messages, updatedAt := now)
      && multiset(r.conversations[k].messages) == multiset(convs[k].messages) + multiset{m}
  {
    var c := convs[k];
    var m := StoredMessage(nextId, Prepare(role, message, LastActivityId(c.messages)), now);
    var cs := convs[k := c.(messages := InsertByTime(c.messages, m), updatedAt := now)];
    assert LogInto(convs, nextId, Some(k), name, user, role, message, now) == Logged(cs, nextId + 1, nextId, k);
    assert RoleNormalized(m);
    LogIntoExistingValid(convs, nextId, k, m, now);
  }

  /**
   * Logging adds exactly one message, with a fresh id, to exactly one
   * conversation, creating that conversation when the handle has none, and
   * keeps the table invariant. Nothing else in the table changes.
   */
  lemma LogAddsExactlyOne(convs: seq<Conversation>, nextId: nat, at: Option<nat>, name: string,
                          user: string, role: string, message: string, now: int)
    requires Valid(convs, nextId)
    requires at.Some? ==> at.value < |convs|
    ensures var r := LogInto(convs, nextId, at, name, user, role, message, now);
      var last := if at.Some? then LastActivityId(convs[at.value].messages) else None;
      var m := StoredMessage(r.id, Prepare(role, message, last), now);
      var before := if at.Some? then convs[at.value].messages else [];
      && Valid(r.conversations, r.nextId)
      && r.at < |r.conversations|
      && |r.conversations| == |convs| + (if at.None? then 1 else 0)
      && (at.Some? ==> r.at == at.value)
      && (at.None? ==> r.conversations[r.at].name == name && r.conversations[r.at].userId == user)
      && (forall i :: 0 <= i < |convs| && i != r.at ==> r.conversations[i] == convs[i])
      && multiset(r.conversations[r.at].messages) == multiset(before) + multiset{m}
      && r.conversations[r.at].updatedAt == now
      && (forall i, j :: 0 <= i < |convs| && 0 <= j < |convs[i].messages| ==> convs[i].messages[j].id != r.id)
  {
    IdsIssued(convs, nextId);
    match at
    case Some(k) =>
      LogIntoExistingAddsOne(convs, nextId, k, name, user, role, message, now);
    case None =>
      var created := convs + [Conversation(nextId, name, user, now, [])];
      ValidCreate(convs, nextId, name, user, now);
      LogIntoCreates(convs, nextId, name, user, role, message, now);
      LogIntoExistingAddsOne(created, nextId + 1, |convs|, name, user, role, message, now);
      assert LastActivityId(created[|convs|].messages) == None;
  }

  /**
   * Right after `get_thinking_id` logs a placeholder at `now` (no stored
   * message being newer), the next call reuses it, unless the newest other
   * activity carries the very same timestamp.
   */
  lemma ThinkingReusedAfterLogging(ms: seq<Message>, id: nat, p: Prepared, now: int)
    requires p.content == ThinkingContent
    requires forall j :: 0 <= j < |ms| ==> ms[j].timestamp <= now
    ensures var after := InsertByTime(ms, StoredMessage(id, p, now));
      var parent := LastWhere(ms, ParentActivity);
      ThinkingDecision(after) ==
        if parent.None? || ms[parent.value].timestamp < now then ReuseThinking(id) else NewThinking
  {
    var m := StoredMessage(id, p, now);
    var after := InsertByTime(ms, m);
    assert after == ms + [m];
    ThinkingNotParent(m);
    LastWhereAppend(ms, m, Thinking);
    LastWhereAppend(ms, m, ParentActivity);
    var parent := LastWhere(ms, ParentActivity);
    assert LastWhere(after, Thinking) == Some(|ms|);
    assert LastWhere(after, ParentActivity) == parent;
    assert parent.Some? ==> after[parent.value] == ms[parent.value];
    assert after[|ms|] == m;
    if parent.None? || ms[parent.value].timestamp < now {
      assert ThinkingDecision(after).ReuseThinking?;
    } else {
      assert !ThinkingDecision(after).ReuseThinking?;
    }
  }

  /** Most recently updated first: `order_by(Conversation.updated_at.desc())`. */
  ghost predicate NewestFirst(cs: seq<Conversation>)
  {
    forall i, j :: 0 <= i < j < |cs| ==> cs[i].updatedAt >= cs[j].updatedAt
  }

  lemma PrependNewest(h: Conversation, rest: seq<Conversation>)
    requires NewestFirst(rest)
    requires forall x :: x in rest ==> x.updatedAt <= h.updatedAt
    ensures NewestFirst([h] + rest)
  {
    var r := [h] + rest;
    assert forall i :: 1 <= i < |r| ==> r[i] == rest[i - 1] && r[i] in rest;
  }

  /** An element of a sequence whose multiset gained `c` is `c` or was there before. */
  lemma MemberOfGrown(x: Conversation, rest: seq<Conversation>, c: Conversation, cs: seq<Conversation>)
    requires multiset(rest) == multiset(cs) + multiset{c}
    requires x in rest
    ensures x == c || x in cs
  {
    assert x in multiset(rest);
  }

  function InsertByRecency(c: Conversation, cs: seq<Conversation>): (r: seq<Conversation>)
    requires NewestFirst(cs)
    ensures NewestFirst(r)
    ensures multiset(r) == multiset(cs) + multiset{c}
    decreases |cs|
  {
    if cs == [] || c.updatedAt >= cs[0].updatedAt then
      [c] + cs
    else
      NewestFirstTail(cs);
      var rest := InsertByRecency(c, cs[1..]);
      InsertBehindHead(c, cs, rest);
      [cs[0]] + rest
  }

  lemma NewestFirstTail(cs: seq<Conversation>)
    requires NewestFirst(cs) && cs != []
    ensures NewestFirst(cs[1..])
  {
  }

  /** The step of `InsertByRecency` when `c` is older than the head. */
  lemma InsertBehindHead(c: Conversation, cs: seq<Conversation>, rest: seq<Conversation>)
    requires NewestFirst(cs) && cs != [] && c.updatedAt < cs[0].updatedAt
    requires NewestFirst(rest) && multiset(rest) == multiset(cs[1..]) + multiset{c}
    ensures NewestFirst([cs[0]] + rest)
    ensures multiset([cs[0]] + rest) == multiset(cs) + multiset{c}
  {
    assert cs == [cs[0]] + cs[1..];
    forall x | x in rest
      ensures x.updatedAt <= cs[0].updatedAt
    {
      MemberOfGrown(x, rest, c, cs[1..]);
    }
    PrependNewest(cs[0], rest);
  }

  /** The conversations ordered by `updated_at`, newest first. */
  function ByRecency(cs: seq<Conversation>): (r: seq<Conversation>)
    ensures NewestFirst(r)
    ensures multiset(r) == multiset(cs)
  {
    if cs == [] then []
    else
      assert cs == [cs[0]] + cs[1..];
      InsertByRecency(cs[0], ByRecency(cs[1..]))
  }

  /** The inner join with Message: the user's conversations that hold at least one message. */
  function OwnedWithMessages(convs: seq<Conversation>, user: string): (r: seq<Conversation>)
    ensures forall c :: c in r <==> c in convs && c.userId == user && c.messages != []
    ensures forall c :: multiset(r)[c] == if c.userId == user && c.messages != [] then multiset(convs)[c] else 0
  {
    if convs == [] then []
    else
      var c := convs[0];
      assert convs == [c] + convs[1..];
      (if c.userId == user && c.messages != [] then [c] else []) + OwnedWithMessages(convs[1..], user)
  }

  function Names(cs: seq<Conversation>): (r: seq<string>)
    ensures |r| == |cs| && forall i :: 0 <= i < |cs| ==> r[i] == cs[i].name
  {
    seq(|cs|, i requires 0 <= i < |cs| => cs[i].name)
  }

  /** `get_conversations`: the names of the user's non-empty conversations, most recently updated first. */
  function ConversationNames(convs: seq<Conversation>, user: string): seq<string>
  {
    Names(ByRecency(OwnedWithMessages(convs, user)))
  }

  /**
   * A name is listed exactly when some conversation of the user with at
   * least one message carries it, and the list follows `updated_at`, newest first.
   */
  lemma ConversationNamesListed(convs: seq<Conversation>, user: string, name: string)
    ensures name in ConversationNames(convs, user) <==>
      exists c :: c in convs && c.userId == user && c.messages != [] && c.name == name
    ensures exists cs :: NewestFirst(cs) && ConversationNames(convs, user) == Names(cs) &&
      multiset(cs) == multiset(OwnedWithMessages(convs, user))
  {
    var owned := OwnedWithMessages(convs, user);
    NamesOfPermutation(ByRecency(owned), owned, name);
  }

  /** Reordering conversations does not change which names are listed. */
  lemma NamesOfPermutation(cs: seq<Conversation>, ds: seq<Conversation>, name: string)
    requires multiset(cs) == multiset(ds)
    ensures name in Names(cs) <==> exists c :: c in ds && c.name == name
  {
    var names := Names(cs);
    if name in names {
      var i :| 0 <= i < |names| && names[i] == name;
      assert cs[i] in multiset(ds);
    }
    if exists c :: c in ds && c.name == name {
      var c :| c in ds && c.name == name;
      assert c in multiset(cs);
      var i :| 0 <= i < |cs| && cs[i] == c;
      assert names[i] == name;
    }
  }

  /** The pure part of `get_conversation_name_by_id`: the sentinel, the row's name, or `-`. */
  function NameById(convs: seq<Conversation>, conversationId: string, user: string): (r: string)
    ensures conversationId == "-" ==> r == "-"
    ensures r == "-" || exists k :: (0 <= k < |convs| && convs[k].name == r &&
      ConversationMatches(convs[k], RenderedId(conversationId, user)))
  {
    if conversationId == "-" then "-"
    else match FirstConversation(convs, RenderedId(conversationId, user))
      case Some(k) => convs[k].name
      case None => "-"
  }

  /** Looking a conversation of the user up by its rendered id gives back its name. */
  lemma NameByIdFindsConversation(convs: seq<Conversation>, nextId: nat, k: nat, user: string)
    requires Valid(convs, nextId) && k < |convs| && convs[k].userId == user
    ensures NameById(convs, NatToString(convs[k].id), user) == convs[k].name
  {
    var s := NatToString(convs[k].id);
    assert s != "-" by {
      assert IsDigit(s[0]);
    }
    var found := FirstConversation(convs, RenderedId(s, user));
    assert found.Some?;
    NatToStringInjective(convs[found.value].id, convs[k].id);
  }
}
