/**
 * The activity views of a conversation: one page of its activities, the
 * sub-activities filed under one activity, and the markdown report that
 * groups every sub-activity under the activity opened before it.
 */
module Activities {
  import opened Wrappers
  import opened Text
  import opened Tags
  import opened Messages

  /** `get_activities` on an existing conversation: the activities of one page. */
  function ActivitiesPage(ms: seq<Message>, limit: nat, page: nat): (r: seq<Message>)
    requires page >= 1
    ensures |r| <= limit
    ensures forall m :: m in r <==> m in Window(ms, limit, page) && IsActivity(m.content)
    ensures forall m :: multiset(r)[m] == if IsActivity(m.content) then multiset(Window(ms, limit, page))[m] else 0
    ensures Sorted(ms) ==> Sorted(r)
  {
    var window := Window(ms, limit, page);
    FilterMembers(window, AnyActivity);
    FilterSorted(window, AnyActivity);
    forall m ensures multiset(Filter(window, AnyActivity))[m] == if IsActivity(m.content) then multiset(window)[m] else 0 {
      FilterCount(window, AnyActivity, m);
    }
    Filter(window, AnyActivity)
  }

  const ReportHeader: string := "### Detailed Activities:\n"

  /** `#### Activity at <timestamp>\n<content>`, one line block of `get_subactivities`. */
  function SubactivityEntry(m: Message): string
  {
    "#### Activity at " + IntToString(m.timestamp) + "\n" + m.content
  }

  /** `get_subactivities`' selection: the messages filed under `[SUBACTIVITY][<activityId>]`. */
  function SubactivitiesOf(ms: seq<Message>, activityId: string): (r: seq<Message>)
    ensures forall m :: m in r <==> m in ms && StartsWith(m.content, ParentTag(activityId))
    ensures forall m :: multiset(r)[m] == if StartsWith(m.content, ParentTag(activityId)) then multiset(ms)[m] else 0
    ensures forall m :: m in r ==> IsSubactivity(m.content)
    ensures Sorted(ms) ==> Sorted(r)
  {
    var r := Filter(ms, UnderActivity(activityId));
    FilterMembers(ms, UnderActivity(activityId));
    forall m ensures multiset(r)[m] == if StartsWith(m.content, ParentTag(activityId)) then multiset(ms)[m] else 0 {
      FilterCount(ms, UnderActivity(activityId), m);
    }
    assert forall m :: m in r ==> IsSubactivity(m.content) by {
      forall m | m in r ensures IsSubactivity(m.content) {
        assert ParentTag(activityId)[..|SubactivityTag|] == SubactivityTag;
        StartsWithTrans(m.content, ParentTag(activityId), SubactivityTag);
      }
    }
    FilterSorted(ms, UnderActivity(activityId));
    r
  }

  /** A sub-activity stored under parent `p` is listed for activity `q` exactly when p == q. */
  lemma SubactivitySelectedByParent(m: Message, p: nat, q: nat, rest: string)
    requires m.content == SubactivityPrefix(p) + rest
    ensures Matches(m, UnderActivity(NatToString(q))) <==> p == q
  {
    ParentTagSelects(p, q, rest);
  }

  /**
   * The report `get_subactivities` returns for an existing conversation:
   * empty when it has no messages, otherwise the header and one entry per
   * selected sub-activity.
   */
  function SubactivitiesReport(ms: seq<Message>, activityId: string): (r: string)
    ensures ms == [] <==> r == ""
    ensures ms != [] ==> StartsWith(r, ReportHeader)
    ensures ms != [] && SubactivitiesOf(ms, activityId) == [] ==> r == ReportHeader
  {
    if ms == [] then ""
    else
      var subs := SubactivitiesOf(ms, activityId);
      var r := ReportHeader + Join("\n", seq(|subs|, i requires 0 <= i < |subs| => SubactivityEntry(subs[i])));
      assert r[..|ReportHeader|] == ReportHeader;
      r
  }

  /** Every selected sub-activity has its entry in the report. */
  lemma SubactivitiesReportLists(ms: seq<Message>, activityId: string, i: nat)
    requires ms != [] && i < |SubactivitiesOf(ms, activityId)|
    ensures Occurs(SubactivitiesReport(ms, activityId), SubactivityEntry(SubactivitiesOf(ms, activityId)[i]))
  {
    var subs := SubactivitiesOf(ms, activityId);
    var entries := seq(|subs|, j requires 0 <= j < |subs| => SubactivityEntry(subs[j]));
    JoinHasPart("\n", entries, i);
    OccursSuffix(ReportHeader, Join("\n", entries), entries[i]);
  }

  /** One entry of `return_activities`: an activity and the sub-activities gathered under it. */
  datatype Group = Group(activity: Message, subactivities: seq<Message>)

  /**
   * The groups after reading `ms` in order: an activity opens a new group,
   * a sub-activity joins the last group opened (whatever parent its tag
   * names) and is dropped when no group is open yet, anything else is
   * skipped.
   */
  function Grouping(ms: seq<Message>): seq<Group>
    decreases |ms|
  {
    if ms == [] then [] else Step(Grouping(ms[..|ms| - 1]), ms[|ms| - 1])
  }

  /** What reading one more message does to the groups. */
  function Step(prior: seq<Group>, m: Message): seq<Group>
  {
    if IsActivity(m.content) then prior + [Group(m, [])]
    else if IsSubactivity(m.content) && prior != [] then
      var open := prior[|prior| - 1];
      prior[..|prior| - 1] + [open.(subactivities := open.subactivities + [m])]
    else prior
  }

  lemma GroupingAppend(ms: seq<Message>, m: Message)
    ensures Grouping(ms + [m]) == Step(Grouping(ms), m)
  {
    assert (ms + [m])[..|ms|] == ms;
  }

  /** The activity heading each group, in order. */
  function Heads(gs: seq<Group>): (r: seq<Message>)
    ensures |r| == |gs| && forall i :: 0 <= i < |gs| ==> r[i] == gs[i].activity
  {
    seq(|gs|, i requires 0 <= i < |gs| => gs[i].activity)
  }

  /** Reading one message adds a head exactly when it is an activity. */
  lemma HeadsStep(prior: seq<Group>, m: Message)
    ensures Heads(Step(prior, m)) == Heads(prior) + if IsActivity(m.content) then [m] else []
  {
    if !IsActivity(m.content) && IsSubactivity(m.content) && prior != [] {
      var next := Step(prior, m);
      assert |next| == |prior|;
      assert forall i :: 0 <= i < |next| ==> next[i].activity == prior[i].activity;
    }
  }

  /** There is one group per activity, headed by it, in the conversation's order. */
  lemma {:induction false} GroupingHeads(ms: seq<Message>)
    ensures Heads(Grouping(ms)) == Filter(ms, AnyActivity)
    decreases |ms|
  {
    if ms != [] {
      var init := ms[..|ms| - 1];
      var m := ms[|ms| - 1];
      assert ms == init + [m];
      GroupingHeads(init);
      FilterAppend(init, m, AnyActivity);
      HeadsStep(Grouping(init), m);
    }
  }

  /**
   * Everything after an activity and before the next one is collected under
   * it: exactly the sub-activities among those messages, in order.
   */
  lemma {:induction false} GroupingSplit(pre: seq<Message>, a: Message, mid: seq<Message>)
    requires IsActivity(a.content)
    requires forall j :: 0 <= j < |mid| ==> !IsActivity(mid[j].content)
    ensures Grouping(pre + [a] + mid) == Grouping(pre) + [Group(a, Filter(mid, AnySubactivity))]
    decreases |mid|
  {
    if mid == [] {
      assert pre + [a] + mid == pre + [a];
      GroupingAppend(pre, a);
    } else {
      var init := mid[..|mid| - 1];
      var x := mid[|mid| - 1];
      assert mid == init + [x] && !IsActivity(x.content);
      assert pre + [a] + mid == (pre + [a] + init) + [x];
      GroupingAppend(pre + [a] + init, x);
      GroupingSplit(pre, a, init);
      FilterAppend(init, x, AnySubactivity);
      var prior := Grouping(pre) + [Group(a, Filter(init, AnySubactivity))];
      assert prior[..|prior| - 1] == Grouping(pre);
      if IsSubactivity(x.content) {
        assert Step(prior, x) == Grouping(pre) + [Group(a, Filter(init, AnySubactivity) + [x])];
      } else {
        assert Step(prior, x) == prior;
        assert !Matches(x, AnySubactivity);
        assert Filter(mid, AnySubactivity) == Filter(init, AnySubactivity);
      }
    }
  }

  /** Nothing before the first activity shows up: the report starts at that activity. */
  lemma LeadingMessagesDropped(pre: seq<Message>, a: Message, mid: seq<Message>)
    requires forall j :: 0 <= j < |pre| ==> !IsActivity(pre[j].content)
    requires IsActivity(a.content)
    requires forall j :: 0 <= j < |mid| ==> !IsActivity(mid[j].content)
    ensures Grouping(pre + [a] + mid) == [Group(a, Filter(mid, AnySubactivity))]
  {
    GroupingHeads(pre);
    FilterNone(pre, AnyActivity);
    GroupingSplit(pre, a, mid);
  }

  /**
   * The single pass of `get_activities_with_subactivities`, with the open
   * group held in an accumulator until the next activity closes it.
   */
  method GroupActivities(ms: seq<Message>) returns (groups: seq<Group>)
    ensures groups == Grouping(ms)
  {
    groups := [];
    var current: Option<Group> := None;
    var i := 0;
    while i < |ms|
      invariant 0 <= i <= |ms|
      invariant Grouping(ms[..i]) == groups + (if current.Some? then [current.value] else [])
      invariant current.None? ==> groups == []
    {
      var m := ms[i];
      assert ms[..i + 1] == ms[..i] + [m];
      GroupingAppend(ms[..i], m);
      if IsActivity(m.content) {
        if current.Some? {
          groups := groups + [current.value];
        }
        current := Some(Group(m, []));
      } else if IsSubactivity(m.content) {
        if current.Some? {
          current := Some(current.value.(subactivities := current.value.subactivities + [m]));
        }
      }
      i := i + 1;
    }
    if current.Some? {
      groups := groups + [current.value];
    }
    assert ms[..|ms|] == ms;
  }

  /** `#### Subactivity at <timestamp>\n<content>` */
  function SubactivityLine(m: Message): string
  {
    "#### Subactivity at " + IntToString(m.timestamp) + "\n" + m.content
  }

  /** One group: its activity block, then its sub-activities joined by newlines. */
  function GroupEntry(g: Group): (r: string)
    ensures StartsWith(r, "### Activity at ")
  {
    var subs := g.subactivities;
    var r := "### Activity at " + IntToString(g.activity.timestamp) + "\n" + g.activity.content + "\n" +
      Join("\n", seq(|subs|, i requires 0 <= i < |subs| => SubactivityLine(subs[i])));
    assert r[..16] == "### Activity at ";
    r
  }

  /** Every sub-activity of a group has its line in the group's block. */
  lemma GroupEntryLists(g: Group, j: nat)
    requires j < |g.subactivities|
    ensures Occurs(GroupEntry(g), SubactivityLine(g.subactivities[j]))
  {
    var subs := g.subactivities;
    var lines := seq(|subs|, i requires 0 <= i < |subs| => SubactivityLine(subs[i]));
    JoinHasPart("\n", lines, j);
    OccursSuffix("### Activity at " + IntToString(g.activity.timestamp) + "\n" + g.activity.content + "\n",
      Join("\n", lines), lines[j]);
  }

  /** The markdown report over the groups: the header, then the groups joined by newlines. */
  function GroupsReport(gs: seq<Group>): (r: string)
    ensures StartsWith(r, ReportHeader)
    ensures gs == [] ==> r == ReportHeader
    ensures |gs| == 1 ==> r == ReportHeader + GroupEntry(gs[0])
  {
    var r := ReportHeader + Join("\n", seq(|gs|, i requires 0 <= i < |gs| => GroupEntry(gs[i])));
    assert r[..|ReportHeader|] == ReportHeader;
    r
  }

  /** Every group has its block in the report. */
  lemma GroupsReportLists(gs: seq<Group>, i: nat)
    requires i < |gs|
    ensures Occurs(GroupsReport(gs), GroupEntry(gs[i]))
  {
    var entries := seq(|gs|, j requires 0 <= j < |gs| => GroupEntry(gs[j]));
    JoinHasPart("\n", entries, i);
    OccursSuffix(ReportHeader, Join("\n", entries), entries[i]);
  }

  /**
   * `get_activities_with_subactivities` on an existing conversation: empty
   * when it holds no messages, the header alone when none of them is an
   * activity, and otherwise the header followed by one entry per activity.
   */
  function ActivityReport(ms: seq<Message>): (r: string)
  {
    if ms == [] then "" else GroupsReport(Grouping(ms))
  }

  lemma ActivityReportCases(ms: seq<Message>)
    ensures ms == [] <==> ActivityReport(ms) == ""
    ensures ms != [] ==> StartsWith(ActivityReport(ms), ReportHeader)
    ensures ms != [] && (forall j :: 0 <= j < |ms| ==> !IsActivity(ms[j].content)) ==>
      ActivityReport(ms) == ReportHeader
    ensures ms != [] ==> |Grouping(ms)| == |Filter(ms, AnyActivity)|
  {
    GroupingHeads(ms);
    if ms != [] && forall j :: 0 <= j < |ms| ==> !IsActivity(ms[j].content) {
      FilterNone(ms, AnyActivity);
    }
  }

  /**
   * Every activity of the conversation has its block in the report, and so
   * has every sub-activity gathered under it.
   */
  lemma ActivityReportLists(ms: seq<Message>, i: nat, j: nat)
    requires i < |Grouping(ms)|
    ensures Occurs(ActivityReport(ms), GroupEntry(Grouping(ms)[i]))
    ensures j < |Grouping(ms)[i].subactivities| ==> Occurs(GroupEntry(Grouping(ms)[i]), SubactivityLine(Grouping(ms)[i].subactivities[j]))
  {
    assert ms != [];
    GroupsReportLists(Grouping(ms), i);
    if j < |Grouping(ms)[i].subactivities| {
      GroupEntryLists(Grouping(ms)[i], j);
    }
  }
}
