/**
 * Message records and what the store does with one conversation's messages:
 * the filtered lookups its queries run (always over the messages of one
 * conversation, kept oldest first), insertion of a new row, paging, marking
 * read, and the copies a fork makes.
 */
module Messages {
  import opened Wrappers
  import opened Text
  import opened Tags

  /** One row of the Message table; its conversation is the one holding it. */
  datatype Message = Message(
    id: nat,
    role: string,
    content: string,
    timestamp: int,
    updatedAt: int,
    updatedBy: Option<string>,
    feedbackReceived: bool,
    notify: bool)

  /** The filters the store's queries put on a conversation's messages. */
  datatype Query =
    | WithId(id: nat)                    // Message.id == id
    | WithContent(content: string)       // Message.content == content
    | AnyActivity                        // content LIKE '[ACTIVITY]%'
    | ParentActivity                     // the same, and content != '[ACTIVITY] Thinking.'
    | Thinking                           // content == '[ACTIVITY] Thinking.'
    | AgentTurn                          // role != 'USER' and role != 'user'
    | AtOrBefore(time: int)              // timestamp <= time
    | AnySubactivity                     // content starts with '[SUBACTIVITY]'
    | UnderActivity(activityId: string)  // content starts with '[SUBACTIVITY][<activityId>]'

  predicate Matches(m: Message, q: Query)
  {
    match q
    case WithId(id) => m.id == id
    case WithContent(c) => m.content == c
    case AnyActivity => IsActivity(m.content)
    case ParentActivity => IsActivity(m.content) && m.content != ThinkingContent
    case Thinking => m.content == ThinkingContent
    case AgentTurn => m.role != UserRole && m.role != "user"
    case AtOrBefore(t) => m.timestamp <= t
    case AnySubactivity => IsSubactivity(m.content)
    case UnderActivity(a) => StartsWith(m.content, ParentTag(a))
  }

  /** Oldest first: the order of `order_by(Message.timestamp.asc())`. */
  ghost predicate Sorted(ms: seq<Message>)
  {
    forall i, j :: 0 <= i < j < |ms| ==> ms[i].timestamp <= ms[j].timestamp
  }

  /** No two messages of a conversation share an id. */
  ghost predicate DistinctIds(ms: seq<Message>)
  {
    forall i, j :: 0 <= i < j < |ms| ==> ms[i].id != ms[j].id
  }

  /** A stored role is never a variant spelling of "user". */
  predicate RoleNormalized(m: Message)
  {
    IsUserRole(m.role) ==> m.role == UserRole
  }

  /** `query.filter(q).first()`: the oldest matching message. */
  function FirstWhere(ms: seq<Message>, q: Query): (r: Option<nat>)
    ensures r.Some? ==> r.value < |ms| && Matches(ms[r.value], q)
    ensures r.Some? ==> forall j :: 0 <= j < r.value ==> !Matches(ms[j], q)
    ensures r.None? ==> forall j :: 0 <= j < |ms| ==> !Matches(ms[j], q)
  {
    if ms == [] then None
    else if Matches(ms[0], q) then Some(0)
    else match FirstWhere(ms[1..], q)
      case Some(k) => Some(k + 1)
      case None => None
  }

  /** `query.filter(q).order_by(Message.timestamp.desc()).first()`: the newest match. */
  function LastWhere(ms: seq<Message>, q: Query): (r: Option<nat>)
    ensures r.Some? ==> r.value < |ms| && Matches(ms[r.value], q)
    ensures r.Some? ==> forall j :: r.value < j < |ms| ==> !Matches(ms[j], q)
    ensures r.None? ==> forall j :: 0 <= j < |ms| ==> !Matches(ms[j], q)
    ensures r.Some? && Sorted(ms) ==>
      forall j :: 0 <= j < |ms| && Matches(ms[j], q) ==> ms[j].timestamp <= ms[r.value].timestamp
    decreases |ms|
  {
    if ms == [] then None
    else if Matches(ms[|ms| - 1], q) then Some(|ms| - 1)
    else LastWhere(ms[..|ms| - 1], q)
  }

  /** The placeholder is the one activity the parent query skips. */
  lemma ThinkingNotParent(m: Message)
    requires m.content == ThinkingContent
    ensures Matches(m, Thinking) && Matches(m, AnyActivity) && !Matches(m, ParentActivity)
  {
    assert ThinkingContent[..|ActivityTag|] == ActivityTag;
  }

  /** Appending a message changes the newest match only if it matches. */
  lemma LastWhereAppend(ms: seq<Message>, m: Message, q: Query)
    ensures LastWhere(ms + [m], q) == if Matches(m, q) then Some(|ms|) else LastWhere(ms, q)
  {
    var s := ms + [m];
    assert s[|s| - 1] == m && s[..|s| - 1] == ms;
  }

  /** `query.filter(q).all()`, in the conversation's order. */
  function Filter(ms: seq<Message>, q: Query): (r: seq<Message>)
    ensures |r| <= |ms|
  {
    if ms == [] then []
    else (if Matches(ms[0], q) then [ms[0]] else []) + Filter(ms[1..], q)
  }

  /** The filter selects exactly the matching messages. */
  lemma {:induction false} FilterMembers(ms: seq<Message>, q: Query)
    ensures forall m :: m in Filter(ms, q) <==> m in ms && Matches(m, q)
  {
    if ms != [] {
      FilterMembers(ms[1..], q);
      assert ms == [ms[0]] + ms[1..];
    }
  }

  /** The filter keeps every copy of a matching message and no copy of any other. */
  lemma {:induction false} FilterCount(ms: seq<Message>, q: Query, m: Message)
    ensures multiset(Filter(ms, q))[m] == if Matches(m, q) then multiset(ms)[m] else 0
  {
    if ms != [] {
      var h, t := ms[0], ms[1..];
      assert ms == [h] + t;
      FilterCount(t, q, m);
      FilterCons(h, t, q);
      var head := if Matches(h, q) then [h] else [];
      assert multiset(Filter(ms, q)) == multiset(head) + multiset(Filter(t, q));
      assert multiset(ms) == multiset([h]) + multiset(t);
    }
  }

  /** One step of the filter: the head is kept exactly when it matches. */
  lemma FilterCons(h: Message, rest: seq<Message>, q: Query)
    ensures Filter([h] + rest, q) == (if Matches(h, q) then [h] else []) + Filter(rest, q)
  {
    assert ([h] + rest)[1..] == rest;
  }

  lemma {:induction false} FilterConcat(a: seq<Message>, b: seq<Message>, q: Query)
    ensures Filter(a + b, q) == Filter(a, q) + Filter(b, q)
  {
    if a == [] {
      assert a + b == b;
    } else {
      var h, t := a[0], a[1..];
      assert a == [h] + t;
      assert a + b == [h] + (t + b);
      FilterConcat(t, b, q);
      FilterCons(h, t + b, q);
      FilterCons(h, t, q);
      var head := if Matches(h, q) then [h] else [];
      assert head + (Filter(t, q) + Filter(b, q)) == (head + Filter(t, q)) + Filter(b, q);
    }
  }

  lemma FilterAppend(a: seq<Message>, m: Message, q: Query)
    ensures Filter(a + [m], q) == Filter(a, q) + (if Matches(m, q) then [m] else [])
  {
    FilterConcat(a, [m], q);
  }

  /** A filter nothing matches selects nothing. */
  lemma {:induction false} FilterNone(ms: seq<Message>, q: Query)
    requires forall j :: 0 <= j < |ms| ==> !Matches(ms[j], q)
    ensures Filter(ms, q) == []
  {
    if ms != [] {
      FilterNone(ms[1..], q);
    }
  }

  /** Filtering keeps the timestamp order. */
  lemma {:induction false} FilterSorted(ms: seq<Message>, q: Query)
    ensures Sorted(ms) ==> Sorted(Filter(ms, q))
  {
    if ms != [] && Sorted(ms) {
      var rest := ms[1..];
      assert Sorted(rest);
      FilterSorted(rest, q);
      FilterMembers(rest, q);
      var tail := Filter(rest, q);
      forall m | m in tail
        ensures ms[0].timestamp <= m.timestamp
      {
        var i :| 0 <= i < |rest| && rest[i] == m;
        assert ms[i + 1] == m;
      }
      if Matches(ms[0], q) {
        SortedPrepend(ms[0], tail);
      }
    }
  }

  lemma SortedPrepend(h: Message, tail: seq<Message>)
    requires Sorted(tail)
    requires forall m :: m in tail ==> h.timestamp <= m.timestamp
    ensures Sorted([h] + tail)
  {
    var r := [h] + tail;
    forall i, j | 0 <= i < j < |r|
      ensures r[i].timestamp <= r[j].timestamp
    {
      assert r[j] == tail[j - 1];
      if i > 0 {
        assert r[i] == tail[i - 1];
      } else {
        assert tail[j - 1] in tail;
      }
    }
  }

  /**
   * Over a timestamp-ordered conversation, "no later than t" selects a
   * prefix, and everything after it is later than t.
   */
  lemma {:induction false} AtOrBeforeIsPrefix(ms: seq<Message>, t: int)
    ensures Sorted(ms) ==> Filter(ms, AtOrBefore(t)) == ms[..|Filter(ms, AtOrBefore(t))|]
    ensures Sorted(ms) ==> forall j :: |Filter(ms, AtOrBefore(t))| <= j < |ms| ==> ms[j].timestamp > t
  {
    if ms != [] && Sorted(ms) {
      assert Sorted(ms[1..]);
      AtOrBeforeIsPrefix(ms[1..], t);
      if ms[0].timestamp <= t {
        assert ms == [ms[0]] + ms[1..];
        AtOrBeforeKeepsHead(ms[0], ms[1..], t);
      } else {
        assert forall j :: 0 <= j < |ms| ==> ms[j].timestamp > t;
        FilterNone(ms, AtOrBefore(t));
      }
    }
  }

  /** The step of the above when the oldest message `h` is itself no later than t. */
  lemma AtOrBeforeKeepsHead(h: Message, rest: seq<Message>, t: int)
    requires h.timestamp <= t
    requires Filter(rest, AtOrBefore(t)) == rest[..|Filter(rest, AtOrBefore(t))|]
    requires forall j :: |Filter(rest, AtOrBefore(t))| <= j < |rest| ==> rest[j].timestamp > t
    ensures Filter([h] + rest, AtOrBefore(t)) == ([h] + rest)[..|Filter([h] + rest, AtOrBefore(t))|]
    ensures forall j :: |Filter([h] + rest, AtOrBefore(t))| <= j < |rest| + 1 ==> ([h] + rest)[j].timestamp > t
  {
    var k := |Filter(rest, AtOrBefore(t))|;
    FilterConcat([h], rest, AtOrBefore(t));
    assert Filter([h], AtOrBefore(t)) == [h];
    var ms := [h] + rest;
    assert ms[..k + 1] == [h] + rest[..k];
    forall j | k + 1 <= j < |ms|
      ensures ms[j].timestamp > t
    {
      assert ms[j] == rest[j - 1];
    }
  }

  /** What `fork_conversation` copies: every message stamped no later than the target `ms[k]`. */
  function UpTo(ms: seq<Message>, k: nat): (r: seq<Message>)
    requires k < |ms|
    ensures 1 <= |r| <= |ms|
  {
    FilterMembers(ms, AtOrBefore(ms[k].timestamp));
    assert ms[k] in ms;
    Filter(ms, AtOrBefore(ms[k].timestamp))
  }

  /**
   * The copied messages are exactly those stamped no later than the target;
   * over an ordered conversation they are the prefix that ends with the
   * last such message, which is at or after the target.
   */
  lemma UpToPrefix(ms: seq<Message>, k: nat)
    requires k < |ms|
    ensures forall m :: m in UpTo(ms, k) <==> m in ms && m.timestamp <= ms[k].timestamp
    ensures Sorted(ms) ==> Sorted(UpTo(ms, k)) && UpTo(ms, k) == ms[..|UpTo(ms, k)|] && k < |UpTo(ms, k)|
    ensures Sorted(ms) ==> forall j :: |UpTo(ms, k)| <= j < |ms| ==> ms[j].timestamp > ms[k].timestamp
  {
    FilterMembers(ms, AtOrBefore(ms[k].timestamp));
    AtOrBeforeIsPrefix(ms, ms[k].timestamp);
    FilterSorted(ms, AtOrBefore(ms[k].timestamp));
  }

  /** Where a message stamped `t` goes: after every message not newer than it. */
  function InsertPosition(ms: seq<Message>, t: int): (k: nat)
    ensures k <= |ms|
    ensures forall j :: k <= j < |ms| ==> ms[j].timestamp > t
    ensures Sorted(ms) ==> forall j :: 0 <= j < k ==> ms[j].timestamp <= t
    decreases |ms|
  {
    if ms == [] || ms[|ms| - 1].timestamp <= t then |ms|
    else InsertPosition(ms[..|ms| - 1], t)
  }

  /**
   * The conversation's messages once a new row is added: every old row
   * stays, in order, and the new one sits where its timestamp puts it,
   * which is the end when no stored message is newer.
   */
  function InsertByTime(ms: seq<Message>, m: Message): (r: seq<Message>)
    ensures |r| == |ms| + 1
    ensures multiset(r) == multiset(ms) + multiset{m}
    ensures Sorted(ms) ==> Sorted(r)
    ensures DistinctIds(ms) && (forall j :: 0 <= j < |ms| ==> ms[j].id != m.id) ==> DistinctIds(r)
    ensures (ms == [] || ms[|ms| - 1].timestamp <= m.timestamp) ==> r == ms + [m]
  {
    var k := InsertPosition(ms, m.timestamp);
    InsertAtParts(ms, m, k);
    InsertAtSorted(ms, m, k);
    InsertAtDistinct(ms, m, k);
    ms[..k] + [m] + ms[k..]
  }

  lemma InsertAtParts(ms: seq<Message>, m: Message, k: nat)
    requires k <= |ms|
    ensures multiset(ms[..k] + [m] + ms[k..]) == multiset(ms) + multiset{m}
  {
    assert ms == ms[..k] + ms[k..];
  }

  lemma InsertAtSorted(ms: seq<Message>, m: Message, k: nat)
    requires k <= |ms|
    requires Sorted(ms) ==> forall j :: 0 <= j < k ==> ms[j].timestamp <= m.timestamp
    requires forall j :: k <= j < |ms| ==> ms[j].timestamp > m.timestamp
    ensures Sorted(ms) ==> Sorted(ms[..k] + [m] + ms[k..])
  {
    var r := ms[..k] + [m] + ms[k..];
    assert forall i :: 0 <= i < |r| ==> r[i] == if i < k then ms[i] else if i == k then m else ms[i - 1];
  }

  lemma InsertAtDistinct(ms: seq<Message>, m: Message, k: nat)
    requires k <= |ms|
    ensures DistinctIds(ms) && (forall j :: 0 <= j < |ms| ==> ms[j].id != m.id) ==>
      DistinctIds(ms[..k] + [m] + ms[k..])
  {
    var r := ms[..k] + [m] + ms[k..];
    assert forall i :: 0 <= i < |r| ==> r[i] == if i < k then ms[i] else if i == k then m else ms[i - 1];
  }

  lemma InsertAtBounded(ms: seq<Message>, m: Message, k: nat, bound: nat)
    requires k <= |ms|
    requires forall j :: 0 <= j < |ms| ==> ms[j].id < bound && RoleNormalized(ms[j])
    requires m.id < bound && RoleNormalized(m)
    ensures forall j :: 0 <= j < |ms| + 1 ==>
      (ms[..k] + [m] + ms[k..])[j].id < bound && RoleNormalized((ms[..k] + [m] + ms[k..])[j])
  {
    var r := ms[..k] + [m] + ms[k..];
    forall j | 0 <= j < |r|
      ensures r[j].id < bound && RoleNormalized(r[j])
    {
      if j > k {
        assert r[j] == ms[j - 1];
      }
    }
  }

  /** Every row after an insertion is an old row or the new one, so ids below a bound and normalised roles stay so. */
  lemma InsertByTimeBounded(ms: seq<Message>, m: Message, bound: nat)
    requires forall j :: 0 <= j < |ms| ==> ms[j].id < bound && RoleNormalized(ms[j])
    requires m.id < bound && RoleNormalized(m)
    ensures forall j :: 0 <= j < |InsertByTime(ms, m)| ==>
      InsertByTime(ms, m)[j].id < bound && RoleNormalized(InsertByTime(ms, m)[j])
  {
    InsertAtBounded(ms, m, InsertPosition(ms, m.timestamp), bound);
  }

  /** `OFFSET (page - 1) * limit` */
  function Offset(limit: nat, page: nat): nat
    requires page >= 1
  {
    (page - 1) * limit
  }

  function Min(a: int, b: int): int
  {
    if a <= b then a else b
  }

  /** `.limit(limit).offset((page - 1) * limit)`: one page of the conversation. */
  function Window(ms: seq<Message>, limit: nat, page: nat): (r: seq<Message>)
    requires page >= 1
    ensures |r| <= limit
    ensures Offset(limit, page) >= |ms| ==> r == []
    ensures Offset(limit, page) < |ms| ==> |r| == Min(limit, |ms| - Offset(limit, page))
    ensures forall i :: 0 <= i < |r| ==> Offset(limit, page) + i < |ms| && r[i] == ms[Offset(limit, page) + i]
    ensures Sorted(ms) ==> Sorted(r)
  {
    var offset := Offset(limit, page);
    if offset >= |ms| then [] else ms[offset..Min(offset + limit, |ms|)]
  }

  /** The bulk `update({"notify": False})` over one conversation. */
  function MarkRead(ms: seq<Message>): (r: seq<Message>)
    ensures |r| == |ms| && SameSlots(ms, r)
    ensures forall i :: 0 <= i < |ms| ==> r[i] == ms[i].(notify := false)
  {
    seq(|ms|, i requires 0 <= i < |ms| => ms[i].(notify := false))
  }

  /** The fields a fork copies unchanged from the original message. */
  predicate SameRecord(a: Message, b: Message)
  {
    a.role == b.role && a.content == b.content && a.timestamp == b.timestamp &&
    a.updatedAt == b.updatedAt && a.updatedBy == b.updatedBy &&
    a.feedbackReceived == b.feedbackReceived
  }

  /** A fork's copy of a message: a new id, notify off, every other field kept. */
  function ForkCopy(m: Message, id: nat): Message
  {
    m.(id := id, notify := false)
  }

  /** The copies of `ms`, numbered from `firstId`. */
  function ForkCopies(ms: seq<Message>, firstId: nat): (r: seq<Message>)
    ensures |r| == |ms|
    ensures forall i :: 0 <= i < |ms| ==>
      r[i].id == firstId + i && !r[i].notify && SameRecord(r[i], ms[i])
    decreases |ms|
  {
    if ms == [] then [] else [ForkCopy(ms[0], firstId)] + ForkCopies(ms[1..], firstId + 1)
  }

  /** Copies keep their originals' timestamps, so they keep the order. */
  lemma ForkCopiesSorted(ms: seq<Message>, firstId: nat)
    requires Sorted(ms)
    ensures Sorted(ForkCopies(ms, firstId))
  {
  }

  /** Two versions of a conversation that agree on every message's id, role and timestamp. */
  ghost predicate SameSlots(ms: seq<Message>, ms': seq<Message>)
  {
    |ms'| == |ms| &&
    forall i :: 0 <= i < |ms| ==>
      ms'[i].id == ms[i].id && ms'[i].role == ms[i].role && ms'[i].timestamp == ms[i].timestamp
  }

  /** With distinct ids, looking a message up again by its own id finds that very message. */
  lemma LookupOwnId(ms: seq<Message>, j: nat)
    requires DistinctIds(ms) && j < |ms|
    ensures FirstWhere(ms, WithId(ms[j].id)) == Some(j)
  {
  }

  /** With distinct ids, deleting the message found by id leaves no message with that id. */
  lemma RemoveDropsId(ms: seq<Message>, k: nat)
    requires DistinctIds(ms) && k < |ms|
    ensures forall i :: 0 <= i < |ms| - 1 ==> RemoveAt(ms, k)[i].id != ms[k].id
    ensures DistinctIds(RemoveAt(ms, k))
  {
  }

  /** `messages[-1].notify = True`: one row's flag set. */
  function SetNotify(ms: seq<Message>, k: nat, flag: bool): (r: seq<Message>)
    requires k < |ms|
    ensures SameSlots(ms, r)
  {
    ms[k := ms[k].(notify := flag)]
  }

  /** `message.content = new_message` */
  function SetContent(ms: seq<Message>, k: nat, content: string): (r: seq<Message>)
    requires k < |ms|
    ensures SameSlots(ms, r)
  {
    ms[k := ms[k].(content := content)]
  }

  /** After an update by id, looking the id up again finds the new text; nothing else changes. */
  lemma SetContentThenLookup(ms: seq<Message>, k: nat, content: string)
    requires DistinctIds(ms) && k < |ms|
    ensures var t := SetContent(ms, k, content);
      && FirstWhere(t, WithId(ms[k].id)) == Some(k)
      && t[k].content == content && SameRecord(t[k], ms[k].(content := content))
      && t[k].(content := ms[k].content) == ms[k]
      && forall i :: 0 <= i < |ms| && i != k ==> t[i] == ms[i]
  {
    var t := SetContent(ms, k, content);
    assert DistinctIds(t);
    LookupOwnId(t, k);
  }

  /** `message.feedback_received = not message.feedback_received` */
  function ToggleFeedback(ms: seq<Message>, k: nat): (r: seq<Message>)
    requires k < |ms|
    ensures SameSlots(ms, r)
  {
    ms[k := ms[k].(feedbackReceived := !ms[k].feedbackReceived)]
  }

  /** A lookup by content finds a message whenever one has that content. */
  lemma ContentFound(ms: seq<Message>, content: string)
    requires exists j :: 0 <= j < |ms| && ms[j].content == content
    ensures FirstWhere(ms, WithContent(content)).Some?
  {
    var i :| 0 <= i < |ms| && ms[i].content == content;
    assert Matches(ms[i], WithContent(content));
  }

  /** The first message with some content depends on the contents alone. */
  lemma {:induction false} FirstWithContentKept(ms: seq<Message>, t: seq<Message>, content: string)
    requires |t| == |ms| && forall x :: 0 <= x < |ms| ==> t[x].content == ms[x].content
    ensures FirstWhere(t, WithContent(content)) == FirstWhere(ms, WithContent(content))
    decreases |ms|
  {
    if ms != [] {
      FirstWithContentKept(ms[1..], t[1..], content);
    }
  }

  /**
   * Toggling the feedback of the first message with some content flips it,
   * leaves that message the first with that content, and toggling it again
   * restores the conversation.
   */
  lemma ToggleFeedbackFlips(ms: seq<Message>, content: string)
    requires exists j :: 0 <= j < |ms| && ms[j].content == content
    ensures var j := FirstWhere(ms, WithContent(content));
      j.Some? &&
      FirstWhere(ToggleFeedback(ms, j.value), WithContent(content)) == j &&
      ToggleFeedback(ms, j.value)[j.value].feedbackReceived == !ms[j.value].feedbackReceived &&
      ToggleFeedback(ToggleFeedback(ms, j.value), j.value) == ms
  {
    var i :| 0 <= i < |ms| && ms[i].content == content;
    assert Matches(ms[i], WithContent(content));
    var j := FirstWhere(ms, WithContent(content)).value;
    ToggleFeedbackInvolution(ms, j);
    FirstWithContentKept(ms, ToggleFeedback(ms, j), content);
  }

  /** Toggling flips the one flag, changes nothing else, and undoes itself. */
  lemma ToggleFeedbackInvolution(ms: seq<Message>, k: nat)
    requires k < |ms|
    ensures var t := ToggleFeedback(ms, k);
      && (forall x :: 0 <= x < |ms| ==> t[x].content == ms[x].content)
      && t[k].feedbackReceived == !ms[k].feedbackReceived
      && t[k].(feedbackReceived := ms[k].feedbackReceived) == ms[k]
      && (forall i :: 0 <= i < |ms| && i != k ==> t[i] == ms[i])
      && ToggleFeedback(t, k) == ms
  {
    var t := ToggleFeedback(ms, k);
    assert t[k].(feedbackReceived := !t[k].feedbackReceived) == ms[k];
  }

  /** `session.delete(row)`, of a message or of a conversation: the row at `k` leaves the table. */
  function RemoveAt<T>(xs: seq<T>, k: nat): (r: seq<T>)
    requires k < |xs|
    ensures |r| == |xs| - 1
    ensures forall i :: 0 <= i < |r| ==> r[i] == if i < k then xs[i] else xs[i + 1]
  {
    xs[..k] + xs[k + 1..]
  }
}
