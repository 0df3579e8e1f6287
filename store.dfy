/**
 * The store: a database object holding the Conversation table (each row with
 * its messages) and the id counter, and the `Conversations` handle whose
 * methods read and edit one conversation of one user. The handle finds its
 * conversation by name and user, and remembers the row it created, logged
 * into or renamed, as the source's cached `_conversation` does.
 */
module Store {
  import opened Wrappers
  import opened Text
  import opened Tags
  import opened Messages
  import opened Table
  import opened Activities

  /** The Conversation and Message tables and the counter new ids are drawn from. */
  class Database {
    var conversations: seq<Conversation>
    var nextId: nat

    ghost predicate Valid()
      reads this
    {
      Table.Valid(conversations, nextId)
    }

    constructor ()
      ensures conversations == [] && nextId == 0 && Valid()
    {
      conversations := [];
      nextId := 0;
    }

    /** Commit a new state of both tables. */
    method Commit(convs: seq<Conversation>, next: nat)
      requires Table.Valid(convs, next)
      modifies this
      ensures conversations == convs && nextId == next && Valid()
    {
      conversations, nextId := convs, next;
    }
  }

  /** A handle on the conversation `conversationName` of user `user`. */
  class Conversations {
    const db: Database
    const conversationName: string
    /** The id of the user the handle acts for. */
    const user: string
    /** `_conversation`: the id of the row the handle holds, if any. */
    var held: Option<nat>

    constructor (db: Database, conversationName: string, user: string)
      ensures this.db == db && this.conversationName == conversationName && this.user == user
      ensures held == None
    {
      this.db := db;
      this.conversationName := conversationName;
      this.user := user;
      held := None;
    }

    /** The `conversation` property: where the handle's conversation sits in the table, if it exists. */
    function Located(): (r: Option<nat>)
      reads this, db
      ensures r.Some? ==> r.value < |db.conversations|
      ensures held.None? ==> r == FirstConversation(db.conversations, Named(conversationName, user))
    {
      Resolve(db.conversations, held, conversationName, user)
    }

    /** The messages of the handle's conversation, oldest first; none when it does not exist. */
    function CurrentMessages(): seq<Message>
      reads this, db
    {
      match Located()
      case Some(k) => db.conversations[k].messages
      case None => []
    }

    /** The start of `new_conversation`: an empty row under the handle's name, which the handle then holds. */
    method CreateConversation(now: int) returns (k: nat)
      requires db.Valid()
      modifies this, db
      ensures db.Valid()
      ensures db.conversations == old(db.conversations) + [Conversation(old(db.nextId), conversationName, user, now, [])]
      ensures db.nextId == old(db.nextId) + 1 && k == |old(db.conversations)| && held == Some(old(db.nextId))
    {
      ValidCreate(db.conversations, db.nextId, conversationName, user, now);
      k := |db.conversations|;
      db.conversations := db.conversations + [Conversation(db.nextId, conversationName, user, now, [])];
      held := Some(db.nextId);
      db.nextId := db.nextId + 1;
    }

    /** `session.add(new_message)` into conversation `k`, refreshing its `updated_at`. */
    method AddMessage(k: nat, m: Message, now: int)
      requires db.Valid() && k < |db.conversations|
      requires m.id == db.nextId && RoleNormalized(m)
      modifies db
      ensures db.Valid()
      ensures db.conversations == old(db.conversations)[k := old(db.conversations)[k].(
        messages := InsertByTime(old(db.conversations)[k].messages, m), updatedAt := now)]
      ensures db.nextId == old(db.nextId) + 1
    {
      LogIntoExistingValid(db.conversations, db.nextId, k, m, now);
      var c := db.conversations[k];
      db.conversations := db.conversations[k := c.(messages := InsertByTime(c.messages, m), updatedAt := now)];
      db.nextId := db.nextId + 1;
    }

    /**
     * `log_interaction`: normalise the role and the text, create the
     * conversation if the handle has none, and add the message, stamped
     * `now`; the result is the new message's id.
     */
    method LogInteraction(role: string, message: string, now: int) returns (id: nat)
      requires db.Valid()
      modifies this, db
      ensures db.Valid()
      ensures var r := LogInto(old(db.conversations), old(db.nextId), old(Located()), conversationName, user,
                               role, message, now);
        db.conversations == r.conversations && db.nextId == r.nextId && id == r.id &&
        held == Some(db.conversations[r.at].id) && Located() == Some(r.at)
    {
      var at := Located();
      ghost var convs0, next0 := db.conversations, db.nextId;
      var k: nat;
      if at.None? {
        k := CreateConversation(now);
        LogIntoCreates(convs0, next0, conversationName, user, role, message, now);
      } else {
        k := at.value;
        held := Some(db.conversations[k].id);
      }
      id := LogAt(k, role, message, now);
      ResolveHeld(db.conversations, db.nextId, k, conversationName, user);
    }

    /** The write of `log_interaction` once its conversation `k` exists. */
    method LogAt(k: nat, role: string, message: string, now: int) returns (id: nat)
      requires db.Valid() && k < |db.conversations|
      modifies db
      ensures db.Valid()
      ensures var r := LogInto(old(db.conversations), old(db.nextId), Some(k), conversationName, user,
                               role, message, now);
        db.conversations == r.conversations && db.nextId == r.nextId && id == r.id && r.at == k
    {
      var last := LastActivityId(db.conversations[k].messages);
      var storedRole, content, notify := NormalizeTurn(role, message, last);
      var m := Message(db.nextId, storedRole, content, now, now, None, false, notify);
      assert m == StoredMessage(db.nextId, Prepare(role, message, last), now);
      AddMessage(k, m, now);
      id := m.id;
    }

    /**
     * `get_thinking_id`: nothing when there is no conversation; otherwise the
     * placeholder to attach work to, reused or freshly logged as
     * `ThinkingDecision` says.
     */
    method GetThinkingId(agentName: string, now: int) returns (r: Option<nat>)
      requires db.Valid()
      modifies this, db
      ensures db.Valid()
      ensures old(Located()).None? ==>
        r.None? && db.conversations == old(db.conversations) && db.nextId == old(db.nextId) && held == old(held)
      ensures old(Located()).Some? ==>
        match ThinkingDecision(old(db.conversations)[old(Located()).value].messages)
        case ReuseThinking(t) =>
          r == Some(t) && db.conversations == old(db.conversations) && db.nextId == old(db.nextId) && held == old(held)
        case NewThinking =>
          var l := LogInto(old(db.conversations), old(db.nextId), old(Located()), conversationName, user,
                           agentName, ThinkingContent, now);
          r == Some(l.id) && db.conversations == l.conversations && db.nextId == l.nextId &&
          held == Some(db.conversations[l.at].id)
    {
      var at := Located();
      if at.None? {
        return None;
      }
      match ThinkingDecision(db.conversations[at.value].messages) {
        case ReuseThinking(t) =>
          r := Some(t);
        case NewThinking =>
          var id := LogInteraction(agentName, ThinkingContent, now);
          r := Some(id);
      }
    }

    /** `get_last_activity_id` */
    method GetLastActivityId() returns (r: Option<nat>)
      ensures Located().None? ==> r.None?
      ensures Located().Some? ==> r == LastActivityId(CurrentMessages())
    {
      r := None;
      var at := Located();
      if at.Some? {
        r := LastActivityId(db.conversations[at.value].messages);
      }
    }

    /** `get_last_agent_name`: `AGiXT` when there is no conversation or no agent turn. */
    method GetLastAgentName() returns (r: string)
      ensures Located().None? ==> r == "AGiXT"
      ensures Located().Some? ==> r == LastAgentName(CurrentMessages())
    {
      r := "AGiXT";
      var at := Located();
      if at.Some? {
        r := LastAgentName(db.conversations[at.value].messages);
      }
    }

    /**
     * `get_conversation`: create the conversation when absent, otherwise mark
     * every one of its messages read; then return one page of it.
     */
    method GetConversation(limit: nat, page: nat, now: int) returns (r: seq<Message>)
      requires page >= 1
      requires db.Valid()
      modifies this, db
      ensures db.Valid()
      ensures old(Located()).None? ==>
        db.conversations == old(db.conversations) + [Conversation(old(db.nextId), conversationName, user, now, [])] &&
        db.nextId == old(db.nextId) + 1 && held == Some(old(db.nextId)) && r == []
      ensures old(Located()).Some? ==>
        var k := old(Located()).value;
        db.conversations == old(db.conversations)[k := old(db.conversations)[k].(messages := MarkRead(old(db.conversations)[k].messages))] &&
        db.nextId == old(db.nextId) && held == old(held) &&
        r == Window(db.conversations[k].messages, limit, page)
    {
      var at := Located();
      if at.None? {
        ValidCreate(db.conversations, db.nextId, conversationName, user, now);
        db.conversations := db.conversations + [Conversation(db.nextId, conversationName, user, now, [])];
        held := Some(db.nextId);
        db.nextId := db.nextId + 1;
        r := [];
      } else {
        var k := at.value;
        var c := db.conversations[k];
        assert ConversationValid(c, db.nextId);
        SlotsValid(c.messages, MarkRead(c.messages), db.nextId);
        ValidSetMessages(db.conversations, db.nextId, k, MarkRead(c.messages));
        db.conversations := db.conversations[k := c.(messages := MarkRead(c.messages))];
        r := Window(db.conversations[k].messages, limit, page);
      }
    }

    /** `get_activities`: the activities among one page of the conversation. */
    method GetActivities(limit: nat, page: nat) returns (r: seq<Message>)
      requires page >= 1
      ensures Located().None? ==> r == []
      ensures Located().Some? ==> r == ActivitiesPage(CurrentMessages(), limit, page)
    {
      r := [];
      var at := Located();
      if at.Some? {
        r := ActivitiesPage(db.conversations[at.value].messages, limit, page);
      }
    }

    /** `get_subactivities` */
    method GetSubactivities(activityId: string) returns (r: string)
      ensures Located().None? ==> r == ""
      ensures Located().Some? ==> r == SubactivitiesReport(CurrentMessages(), activityId)
    {
      r := "";
      var at := Located();
      if at.Some? {
        r := SubactivitiesReport(db.conversations[at.value].messages, activityId);
      }
    }

    /** `get_activities_with_subactivities` */
    method GetActivitiesWithSubactivities() returns (r: string)
      ensures Located().None? ==> r == ""
      ensures Located().Some? ==> r == ActivityReport(CurrentMessages())
    {
      r := "";
      var at := Located();
      if at.Some? {
        var ms := db.conversations[at.value].messages;
        if ms != [] {
          var groups := GroupActivities(ms);
          r := GroupsReport(groups);
        }
      }
    }

    /**
     * The writes of `fork_conversation` for target `ms[j]` of conversation
     * `k`: the new conversation with the copies of the prefix, then the
     * notify flag of the last original copied.
     */
    method AddFork(k: nat, j: nat, name: string, now: int)
      requires db.Valid() && k < |db.conversations| && j < |db.conversations[k].messages|
      modifies db
      ensures db.Valid()
      ensures db.conversations == ForkInto(old(db.conversations), old(db.nextId), k, j, name, user, now)
      ensures db.nextId == ForkNextId(old(db.conversations), old(db.nextId), k, j)
    {
      var convs, next := BuildFork(db.conversations, db.nextId, k, j, name, user, now);
      db.Commit(convs, next);
    }

    /**
     * `fork_conversation`: copy every message stamped no later than the
     * target into a new conversation `<name>_fork_<stamp>` and raise the
     * notify flag of the last copied original.
     */
    method ForkConversation(messageId: nat, stamp: string, now: int) returns (r: Option<string>)
      requires db.Valid()
      modifies db
      ensures db.Valid()
      ensures old(Located()).None? ==>
        r.None? && db.conversations == old(db.conversations) && db.nextId == old(db.nextId)
      ensures old(Located()).Some? ==>
        var k := old(Located()).value;
        var ms := old(db.conversations)[k].messages;
        match FirstWhere(ms, WithId(messageId))
        case None => r.None? && db.conversations == old(db.conversations) && db.nextId == old(db.nextId)
        case Some(j) =>
          r == Some(ForkName(conversationName, stamp)) &&
          db.nextId == ForkNextId(old(db.conversations), old(db.nextId), k, j) &&
          db.conversations == ForkInto(old(db.conversations), old(db.nextId), k, j, ForkName(conversationName, stamp), user, now)
    {
      var at := Located();
      if at.None? {
        return None;
      }
      var k := at.value;
      var ms := db.conversations[k].messages;
      var target := FirstWhere(ms, WithId(messageId));
      if target.None? {
        return None;
      }
      var name := ForkName(conversationName, stamp);
      AddFork(k, target.value, name, now);
      r := Some(name);
    }

    /**
     * `delete_conversation`: drop the conversation's messages, then its row
     * when it belongs to the handle's user, and forget it.
     */
    method DeleteConversation()
      requires db.Valid()
      modifies this, db
      ensures db.Valid() && db.nextId == old(db.nextId)
      ensures old(Located()).None? ==> db.conversations == old(db.conversations) && held == old(held)
      ensures old(Located()).Some? ==>
        var k := old(Located()).value;
        held.None? &&
        db.conversations ==
          if old(db.conversations)[k].userId == user then RemoveAt(old(db.conversations), k)
          else old(db.conversations)[k := old(db.conversations)[k].(messages := [])]
    {
      var at := Located();
      if at.None? {
        return;
      }
      var k := at.value;
      if db.conversations[k].userId == user {
        ValidRemove(db.conversations, db.nextId, k);
        db.conversations := RemoveAt(db.conversations, k);
      } else {
        ValidSetMessages(db.conversations, db.nextId, k, []);
        db.conversations := db.conversations[k := db.conversations[k].(messages := [])];
      }
      held := None;
    }

    /** `delete_message_by_id`: delete the conversation's message with that id, if there is one. */
    method DeleteMessageById(messageId: nat)
      requires db.Valid()
      modifies db
      ensures db.Valid() && db.nextId == old(db.nextId)
      ensures old(Located()).None? ==> db.conversations == old(db.conversations)
      ensures old(Located()).Some? ==>
        var k := old(Located()).value;
        var ms := old(db.conversations)[k].messages;
        match FirstWhere(ms, WithId(messageId))
        case None => db.conversations == old(db.conversations)
        case Some(j) => db.conversations == old(db.conversations)[k := old(db.conversations)[k].(messages := RemoveAt(ms, j))]
    {
      var at := Located();
      if at.None? {
        return;
      }
      var k := at.value;
      var ms := db.conversations[k].messages;
      var found := FirstWhere(ms, WithId(messageId));
      if found.None? {
        return;
      }
      assert ConversationValid(db.conversations[k], db.nextId);
      RemoveValid(ms, found.value, db.nextId);
      ValidSetMessages(db.conversations, db.nextId, k, RemoveAt(ms, found.value));
      db.conversations := db.conversations[k := db.conversations[k].(messages := RemoveAt(ms, found.value))];
    }

    /** `update_message_by_id`: replace the text of the conversation's message with that id. */
    method UpdateMessageById(messageId: nat, newMessage: string)
      requires db.Valid()
      modifies db
      ensures db.Valid() && db.nextId == old(db.nextId)
      ensures old(Located()).None? ==> db.conversations == old(db.conversations)
      ensures old(Located()).Some? ==>
        var k := old(Located()).value;
        var ms := old(db.conversations)[k].messages;
        match FirstWhere(ms, WithId(messageId))
        case None => db.conversations == old(db.conversations)
        case Some(j) =>
          db.conversations == old(db.conversations)[k := old(db.conversations)[k].(messages := SetContent(ms, j, newMessage))]
    {
      var at := Located();
      if at.None? {
        return;
      }
      var k := at.value;
      var ms := db.conversations[k].messages;
      var found := FirstWhere(ms, WithId(messageId));
      if found.None? {
        return;
      }
      assert ConversationValid(db.conversations[k], db.nextId);
      SlotsValid(ms, SetContent(ms, found.value, newMessage), db.nextId);
      ValidSetMessages(db.conversations, db.nextId, k, SetContent(ms, found.value, newMessage));
      db.conversations := db.conversations[k := db.conversations[k].(messages := SetContent(ms, found.value, newMessage))];
    }

    /**
     * The first lookup of the content-keyed edits: the id of the first
     * message with the text, which a lookup by that id finds again.
     */
    method FoundId(k: nat, message: string) returns (id: nat)
      requires db.Valid() && k < |db.conversations|
      requires exists j :: 0 <= j < |db.conversations[k].messages| && db.conversations[k].messages[j].content == message
      ensures var ms := db.conversations[k].messages;
        var j := FirstWhere(ms, WithContent(message));
        j.Some? && ms[j.value].id == id && FirstWhere(ms, WithId(id)) == j
    {
      var ms := db.conversations[k].messages;
      ContentFound(ms, message);
      var first := FirstWhere(ms, WithContent(message));
      id := ms[first.value].id;
      assert ConversationValid(db.conversations[k], db.nextId);
      LookupOwnId(ms, first.value);
    }

    /**
     * `delete_message`: delete the message found by text, looked up a second
     * time by its id; that is the first message with the text.
     */
    method DeleteMessage(message: string)
      requires db.Valid() && HasContent(message)
      modifies db
      ensures db.Valid() && db.nextId == old(db.nextId)
      ensures old(Located()).None? ==> db.conversations == old(db.conversations)
      ensures old(Located()).Some? ==>
        var k := old(Located()).value;
        var ms := old(db.conversations)[k].messages;
        var j := FirstWhere(ms, WithContent(message));
        j.Some? && db.conversations == old(db.conversations)[k := old(db.conversations)[k].(messages := RemoveAt(ms, j.value))]
    {
      var at := Located();
      if at.None? {
        return;
      }
      var messageId := FoundId(at.value, message);
      DeleteMessageById(messageId);
    }

    /** `update_message`: replace the text of the first message with the old text. */
    method UpdateMessage(message: string, newMessage: string)
      requires db.Valid() && HasContent(message)
      modifies db
      ensures db.Valid() && db.nextId == old(db.nextId)
      ensures old(Located()).None? ==> db.conversations == old(db.conversations)
      ensures old(Located()).Some? ==>
        var k := old(Located()).value;
        var ms := old(db.conversations)[k].messages;
        var j := FirstWhere(ms, WithContent(message));
        j.Some? &&
        db.conversations == old(db.conversations)[k := old(db.conversations)[k].(messages := SetContent(ms, j.value, newMessage))]
    {
      var at := Located();
      if at.None? {
        return;
      }
      var messageId := FoundId(at.value, message);
      UpdateMessageById(messageId, newMessage);
    }

    /**
     * `get_message_by_id`: the text of the conversation's message with that
     * id; nothing when there is no conversation or no such message.
     */
    method GetMessageById(messageId: nat) returns (r: Option<string>)
      requires db.Valid()
      ensures Located().None? ==> r.None?
      ensures Located().Some? ==>
        var ms := CurrentMessages();
        (r.None? <==> forall j :: 0 <= j < |ms| ==> ms[j].id != messageId) &&
        forall j :: 0 <= j < |ms| && ms[j].id == messageId ==> r == Some(ms[j].content)
    {
      var at := Located();
      if at.None? {
        return None;
      }
      var k := at.value;
      var ms := db.conversations[k].messages;
      var found := FirstWhere(ms, WithId(messageId));
      if found.None? {
        return None;
      }
      assert ConversationValid(db.conversations[k], db.nextId);
      r := Some(ms[found.value].content);
      forall j | 0 <= j < |ms| && ms[j].id == messageId
        ensures r == Some(ms[j].content)
      {
        LookupOwnId(ms, j);
      }
    }

    /** Some message of the handle's conversation (when it exists) has exactly this text. */
    predicate HasContent(message: string)
      reads this, db
    {
      Located().Some? ==>
        exists j :: 0 <= j < |CurrentMessages()| && CurrentMessages()[j].content == message
    }

    /**
     * `toggle_feedback_received`: flip the feedback flag of the message
     * found by text, looked up a second time by its id; that second lookup
     * lands on the first message with the text.
     */
    method ToggleFeedbackReceived(message: string)
      requires db.Valid() && HasContent(message)
      modifies db
      ensures db.Valid() && db.nextId == old(db.nextId)
      ensures old(Located()).None? ==> db.conversations == old(db.conversations)
      ensures old(Located()).Some? ==>
        var k := old(Located()).value;
        var ms := old(db.conversations)[k].messages;
        var j := FirstWhere(ms, WithContent(message));
        j.Some? &&
        db.conversations == old(db.conversations)[k := old(db.conversations)[k].(messages := ToggleFeedback(ms, j.value))]
    {
      var at := Located();
      if at.None? {
        return;
      }
      var k := at.value;
      var ms := db.conversations[k].messages;
      ToggleFeedbackFlips(ms, message);
      var first := FirstWhere(ms, WithContent(message));
      var messageId := ms[first.value].id;
      assert ConversationValid(db.conversations[k], db.nextId);
      LookupOwnId(ms, first.value);
      var found := FirstWhere(ms, WithId(messageId));
      SlotsValid(ms, ToggleFeedback(ms, found.value), db.nextId);
      ValidSetMessages(db.conversations, db.nextId, k, ToggleFeedback(ms, found.value));
      db.conversations := db.conversations[k := db.conversations[k].(messages := ToggleFeedback(ms, found.value))];
    }

    /** `has_received_feedback`: the feedback flag of the first message with this text. */
    method HasReceivedFeedback(message: string) returns (r: Option<bool>)
      requires db.Valid() && HasContent(message)
      ensures Located().None? ==> r.None?
      ensures Located().Some? ==>
        var ms := CurrentMessages();
        var j := FirstWhere(ms, WithContent(message));
        j.Some? && r == Some(ms[j.value].feedbackReceived)
    {
      var at := Located();
      if at.None? {
        return None;
      }
      var k := at.value;
      var ms := db.conversations[k].messages;
      ContentFound(ms, message);
      var first := FirstWhere(ms, WithContent(message));
      var messageId := ms[first.value].id;
      assert ConversationValid(db.conversations[k], db.nextId);
      LookupOwnId(ms, first.value);
      var found := FirstWhere(ms, WithId(messageId));
      r := Some(ms[found.value].feedbackReceived);
    }

    /**
     * `rename_conversation`: rename the handle's conversation, which the
     * handle goes on holding; when there is none, create one under the
     * handle's own name instead. Either way the result is the new name.
     */
    method RenameConversation(newName: string, now: int) returns (r: string)
      requires db.Valid()
      modifies this, db
      ensures db.Valid() && r == newName
      ensures old(Located()).None? ==>
        db.conversations == old(db.conversations) + [Conversation(old(db.nextId), conversationName, user, now, [])] &&
        db.nextId == old(db.nextId) + 1 && held == Some(old(db.nextId)) &&
        Located() == Some(|old(db.conversations)|)
      ensures old(Located()).Some? ==>
        var k := old(Located()).value;
        db.conversations == old(db.conversations)[k := old(db.conversations)[k].(name := newName)] &&
        db.nextId == old(db.nextId) && held == Some(old(db.conversations)[k].id) &&
        Located() == Some(k)
    {
      var at := Located();
      if at.None? {
        ValidCreate(db.conversations, db.nextId, conversationName, user, now);
        db.conversations := db.conversations + [Conversation(db.nextId, conversationName, user, now, [])];
        held := Some(db.nextId);
        db.nextId := db.nextId + 1;
        ResolveHeld(db.conversations, db.nextId, |db.conversations| - 1, conversationName, user);
      } else {
        var k := at.value;
        var c := db.conversations[k];
        ValidReplace(db.conversations, db.nextId, k, c.(name := newName));
        db.conversations := db.conversations[k := c.(name := newName)];
        held := Some(c.id);
        ResolveHeld(db.conversations, db.nextId, k, conversationName, user);
      }
      r := newName;
    }

    /** `get_conversations` */
    method GetConversations() returns (names: seq<string>)
      ensures names == ConversationNames(db.conversations, user)
    {
      names := ConversationNames(db.conversations, user);
    }
  }

  /**
   * The step-by-step rewriting at the head of `log_interaction`: the
   * `[SUBACTIVITY] ` request, the role, the notify flag, then at most two
   * trailing newlines.
   */
  method NormalizeTurn(role: string, message: string, lastActivity: Option<nat>)
    returns (storedRole: string, content: string, notify: bool)
    ensures Prepared(storedRole, content, notify) == Prepare(role, message, lastActivity)
  {
    var rewritten := RewriteRequest(message, lastActivity);
    notify := false;
    storedRole := role;
    if IsUserRole(role) {
      storedRole := UserRole;
    } else if !IsActivity(rewritten) && !IsSubactivity(rewritten) {
      notify := true;
    }
    content := TrimTrailingNewlines(rewritten);
  }

  /** The `[SUBACTIVITY] ` rewrite at the head of `log_interaction`. */
  method RewriteRequest(message: string, lastActivity: Option<nat>) returns (content: string)
    ensures content == RewriteSubactivity(message, lastActivity)
  {
    content := message;
    if StartsWith(content, SubactivityRequest) {
      match lastActivity {
        case Some(a) => content := ReplaceAll(content, SubactivityRequest, SubactivityPrefix(a));
        case None => content := ReplaceAll(content, SubactivityRequest, ActivityPrefix);
      }
    }
  }

  /** The two `message[:-1]` steps of `log_interaction`. */
  method TrimTrailingNewlines(s: string) returns (r: string)
    ensures r == TrimNewlines(s)
  {
    r := s;
    if EndsWith(r, "\n") {
      r := r[..|r| - 1];
    }
    if EndsWith(r, "\n") {
      r := r[..|r| - 1];
    }
  }

  /** The copy loop of `fork_conversation`: one new row per original, numbered from `firstId`. */
  method CopyMessages(prefix: seq<Message>, firstId: nat) returns (copies: seq<Message>)
    ensures copies == ForkCopies(prefix, firstId)
  {
    copies := [];
    var next := firstId;
    var i := 0;
    while i < |prefix|
      invariant 0 <= i <= |prefix|
      invariant next == firstId + i
      invariant |copies| == i
      invariant forall x :: 0 <= x < i ==> copies[x] == ForkCopy(prefix[x], firstId + x)
    {
      var m := prefix[i];
      copies := copies + [Message(next, m.role, m.content, m.timestamp, m.updatedAt, m.updatedBy, m.feedbackReceived, false)];
      next := next + 1;
      i := i + 1;
    }
  }

  /** The fork's new table and id counter, with the copies made by the copy loop. */
  method BuildFork(convs: seq<Conversation>, nextId: nat, k: nat, j: nat, name: string, user: string, now: int)
    returns (convs': seq<Conversation>, next: nat)
    requires Table.Valid(convs, nextId) && k < |convs| && j < |convs[k].messages|
    ensures convs' == ForkInto(convs, nextId, k, j, name, user, now)
    ensures next == ForkNextId(convs, nextId, k, j)
    ensures Table.Valid(convs', next)
  {
    var prefix := UpTo(convs[k].messages, j);
    var copies := CopyMessages(prefix, nextId + 1);
    ForkCopiedValid(convs, nextId, k, j, name, user, now, copies);
    convs' := WithFork(convs, nextId, k, j, name, user, now, copies);
    next := ForkNextId(convs, nextId, k, j);
  }

  /**
   * `get_conversation_name_by_id`: for the sentinel `-`, make sure the user
   * has a `-` conversation and answer `-`; otherwise the name of the user's
   * conversation with that rendered id, or `-` when there is none.
   */
  method GetConversationNameById(db: Database, conversationId: string, user: string, now: int) returns (r: string)
    requires db.Valid()
    modifies db
    ensures db.Valid()
    ensures conversationId == "-" ==> r == "-"
    ensures conversationId == "-" && FirstConversation(old(db.conversations), Named("-", user)).None? ==>
      db.conversations == old(db.conversations) + [Conversation(old(db.nextId), "-", user, now, [])] &&
      db.nextId == old(db.nextId) + 1
    ensures conversationId != "-" || FirstConversation(old(db.conversations), Named("-", user)).Some? ==>
      db.conversations == old(db.conversations) && db.nextId == old(db.nextId)
    ensures conversationId != "-" ==> r == NameById(db.conversations, conversationId, user)
  {
    if conversationId == "-" {
      if FirstConversation(db.conversations, Named("-", user)).None? {
        ValidCreate(db.conversations, db.nextId, "-", user, now);
        db.conversations := db.conversations + [Conversation(db.nextId, "-", user, now, [])];
        db.nextId := db.nextId + 1;
      }
      return "-";
    }
    r := NameById(db.conversations, conversationId, user);
  }
}
