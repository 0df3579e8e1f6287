# Conversation store, modelled in Dafny

This project models the conversation store of `agixt/Conversations.py`. The
store keeps conversations, each owned by one user under a name, and the
message turns logged into them. On top of plain message text it keeps an
activity convention:

- `[ACTIVITY] ...` opens an activity.
- `[SUBACTIVITY][<id>] ...` files a step under activity `<id>`.
- `[ACTIVITY] Thinking.` is a reusable placeholder activity.

The model has these modules:

- `Text`: the Python string operations the store relies on (`startswith`,
  `endswith`, `replace`, ASCII `lower`, `str(int)`, `join`).
- `Tags`: the tag layer and the normalisation `log_interaction` applies to a
  turn before storing it. This covers the role fold to `USER`, the
  `[SUBACTIVITY] ` rewrite, the notify flag and the newline trim.
- `Messages`: the message record and the queries the store runs over one
  conversation's messages. These are first, newest, filtered, paged, inserted
  by timestamp, marked read and copied for a fork.
- `Table`: the Conversation table as a sequence of rows, each holding its
  messages in timestamp order. It defines the table invariant (`Table.Valid`)
  and the specification functions of the writes: `LogInto`, `ForkInto`,
  `ThinkingDecision` and `ConversationNames`.
- `Activities`: the three activity views, including the single-pass grouping
  loop of `get_activities_with_subactivities` and its specification
  `Grouping`.
- `Store`: two classes.
  - `Database` holds the table and the id counter.
  - `Conversations` is the handle on one user's named conversation. Its
    methods update the table in place, and its `held` field is the source's
    cached `_conversation`.

Every state-changing method is proved against a specification function of
the old state, and keeps `Table.Valid`. The properties the source promises
are proved as lemmas about those functions. These cover:

- exactly one message added per log;
- the three-way Thinking decision;
- grouping per activity;
- the fork prefix and its copies;
- marking read;
- the lookups by content and by id.

Wherever the system's own documentation and the code disagree, the model
follows the code:

- A `[SUBACTIVITY] ` request is attached to the newest message starting with
  `[ACTIVITY]`, placeholders included. The code does not skip
  `[ACTIVITY] Thinking.` (agixt/Conversations.py:878-892).
- A fork raises the notify flag of the last *original* message in the copied
  prefix (`messages[-1]` is a row of the old conversation). Every copy gets
  notify off (agixt/Conversations.py:349-364).
- A fork never fails for an empty prefix, because the target itself is
  always in it (`Messages.UpToPrefix`).

Ids are drawn from one natural-number counter shared by conversations and
messages. The source uses UUIDs rendered as strings. The fork's date stamp
and the clock are parameters (`stamp`, `now`).

## Model

| member | source | states |
|---|---|---|
| `Text.StartsWith` | agixt/Conversations.py:395 | `s.startswith(p)`: the first `len(p)` characters of `s` are `p` |
| `Text.EndsWith` | agixt/Conversations.py:592-595 | `s.endswith(p)`: the last `len(p)` characters of `s` are `p` |
| `Text.Lower` | agixt/Conversations.py:582 | `s.lower()` on ASCII letters: same length, each character lowered |
| `Text.NatToString` | agixt/Conversations.py:576 | `str(n)`: a non-empty string of decimal digits, at least two of them from 10 on; `Text.NatToStringInjective` proves distinct numbers render differently |
| `Text.IntToString` | agixt/Conversations.py:435 | `str(timestamp)` in the reports' f-strings: a `-` before the digits of a negative number |
| `Text.Join` | agixt/Conversations.py:433-438 | `sep.join(parts)`: empty for no parts, the part itself for one; `Text.JoinHasPart` shows every part occurs in it |
| `Text.OccursSuffix` | agixt/Conversations.py:439 | a text found in the tail of a string is found in the whole string |
| `Text.JoinHasPart` | agixt/Conversations.py:433-438 | every part of `sep.join(parts)` occurs in the joined string |
| `Text.ReplaceAll` | agixt/Conversations.py:575-579 | `str.replace` leaves text without the pattern untouched, and text that starts with the pattern starts with the replacement |
| `Tags.IsActivity` | agixt/Conversations.py:455 | `content.startswith("[ACTIVITY]")`, the activity test used at 395, 455 and 585 |
| `Tags.IsSubactivity` | agixt/Conversations.py:465 | `content.startswith("[SUBACTIVITY]")`, the sub-activity test used at 465 and 586 |
| `Tags.IsUserRole` | agixt/Conversations.py:582 | `role.lower() == "user"`; `Tags.UserRoleSpellings` lists the roles it holds for |
| `Tags.ParentTag` | agixt/Conversations.py:420 | `[SUBACTIVITY][<id>]`, the selector of `get_subactivities`; `Tags.ParentTagSelects` proves it selects its parent only |
| `Tags.UserRoleSpellings` | agixt/Conversations.py:582 | `role.lower() == "user"` holds for exactly the sixteen case spellings of `user` |
| `Tags.NormalizeRole` | agixt/Conversations.py:581-584 | the stored role is `USER` exactly when the role lowers to `user`; otherwise it is kept; a stored role never lowers to `user` unless it is `USER` |
| `Tags.SubactivityPrefix` | agixt/Conversations.py:576 | `[SUBACTIVITY][<id>] ` is a sub-activity tag and not an activity tag |
| `Tags.ParentTagSelects` | agixt/Conversations.py:575-577 | a sub-activity written under parent `p` starts with the selector tag of `q` exactly when p == q (decimal ids are injective, so `[SUBACTIVITY][1]` does not select `[SUBACTIVITY][12]`) |
| `Tags.RewriteSubactivity` | agixt/Conversations.py:569-579 | text without the `[SUBACTIVITY] ` prefix is untouched; with a latest activity it becomes a sub-activity under that id, otherwise an `[ACTIVITY] ` entry |
| `Tags.RewriteSingleRequest` | agixt/Conversations.py:575-579 | when the request tag occurs only at the head, the rewrite replaces exactly that head with the parent tag or with `[ACTIVITY] ` |
| `Tags.TrimNewlines` | agixt/Conversations.py:592-595 | the result is a prefix of the text that is at most two characters shorter; everything removed is a newline; if fewer than two were removed, the result does not end in a newline |
| `Tags.TrimKeepsPrefix` | agixt/Conversations.py:585-595 | trimming never changes whether the text starts with `[ACTIVITY]` or `[SUBACTIVITY]`, so the notify flag computed before the trim is the same as one computed after it |
| `Tags.Prepare` | agixt/Conversations.py:568-595 | the stored role is `USER` exactly for user roles and otherwise the role itself; notify holds exactly for a non-user role whose stored text is neither an activity nor a sub-activity; a turn that asks for a sub-activity, or is already an activity, never notifies |
| `Tags.PrepareThinking` | agixt/Conversations.py:545-548 | the placeholder is stored verbatim and never notifies |
| `Store.NormalizeTurn` | agixt/Conversations.py:568-595 | the step-by-step reassignment of `message`, `role` and `notify` computes exactly `Tags.Prepare` |
| `Store.RewriteRequest` | agixt/Conversations.py:569-579 | the in-place rewrite computes `Tags.RewriteSubactivity` |
| `Store.TrimTrailingNewlines` | agixt/Conversations.py:592-595 | the two `message[:-1]` steps compute `Tags.TrimNewlines` |
| `Messages.Matches` | agixt/Conversations.py:516-536 | the `.filter(...)` clauses the store puts on messages (also 705-706 and 884-885): by id, by content, activity, parent activity, placeholder, agent turn, time bound, sub-activity and parent tag; each lemma about a query states what it selects |
| `Messages.FirstWhere` | agixt/Conversations.py:719-726 | `.first()`, taken as the oldest match in the conversation's timestamp order: the index found matches and is preceded by no match; none means nothing matches |
| `Messages.LastWhere` | agixt/Conversations.py:882-888 | `order_by(timestamp.desc()).first()`: the index found matches and no later message does; over ordered messages no match is newer; none means nothing matches |
| `Messages.ThinkingNotParent` | agixt/Conversations.py:516-536 | the placeholder matches the thinking query and the activity query, but not the parent-activity query |
| `Messages.LastWhereAppend` | agixt/Conversations.py:545-558 | appending a message changes the newest match only when the new message matches |
| `Messages.Filter` | agixt/Conversations.py:325-333 | `.filter(q).all()` in the conversation's order; `Messages.FilterMembers`, `Messages.FilterCount` and `Messages.FilterSorted` state what it selects |
| `Messages.FilterCount` | agixt/Conversations.py:325-333 | the filter keeps every copy of a matching message and no copy of any other, so its result is exactly the matching rows counted with multiplicity |
| `Messages.FilterMembers` | agixt/Conversations.py:325-333 | `.filter(q).all()` selects exactly the messages that match |
| `Messages.FilterSorted` | agixt/Conversations.py:428-431 | filtering keeps timestamp order, so the source's `sorted(..., key=timestamp)` finds the list already in order |
| `Messages.AtOrBeforeIsPrefix` | agixt/Conversations.py:325-333 | over ordered messages, "no later than t" selects a prefix, and every message after it is later than t |
| `Messages.UpTo` | agixt/Conversations.py:325-333 | the fork's selection `timestamp <= target.timestamp`; it holds at least the target, and `Messages.UpToPrefix` states it exactly |
| `Messages.UpToPrefix` | agixt/Conversations.py:325-333 | the fork's selection is exactly the messages stamped no later than the target; over ordered messages it is the ordered prefix that reaches the target, and nothing after it is that old |
| `Messages.InsertPosition` | agixt/Conversations.py:617 | where the new row lands in timestamp order: every row after it is newer, and over ordered rows none before it is |
| `Messages.InsertByTime` | agixt/Conversations.py:617-618 | adding a row keeps every old row, adds exactly one (as a multiset), keeps timestamp order and distinct ids, and appends when no stored message is newer |
| `Messages.InsertByTimeBounded` | agixt/Conversations.py:596-618 | after an insertion every row is an old one or the new one, so ids stay below the counter and roles stay normalised |
| `Messages.Window` | agixt/Conversations.py:275-283 | `limit(limit).offset((page-1)*limit)`: at most `limit` rows, empty beyond the end, otherwise `min(limit, rest)` rows equal to the messages from the offset on, in order |
| `Messages.MarkRead` | agixt/Conversations.py:266-273 | every message of the conversation has notify cleared and nothing else changed |
| `Messages.ForkCopies` | agixt/Conversations.py:349-360 | one copy per original, in order, with consecutive fresh ids and notify off; role, content, timestamp, updated_at, updated_by and feedback are kept |
| `Messages.LookupOwnId` | agixt/Conversations.py:749-756 | with distinct ids, the second lookup by the id just found lands on that very message |
| `Messages.RemoveDropsId` | agixt/Conversations.py:728-734 | deleting the message found by id leaves no message with that id, and ids stay distinct |
| `Messages.RemoveAt` | agixt/Conversations.py:733 | `session.delete(row)`, used for a message here and for a conversation row at 640-643: the rows before the deleted one stay put and the rows after it shift down by one |
| `Messages.SetNotify` | agixt/Conversations.py:364 | `messages[-1].notify = True`: one flag set, id, role and timestamp of every row kept; `Table.ForkKeepsRows` states the whole effect |
| `Messages.SetContent` | agixt/Conversations.py:847 | `message.content = new_message`: id, role and timestamp of every row kept; `Messages.SetContentThenLookup` states the whole effect |
| `Messages.ToggleFeedback` | agixt/Conversations.py:762 | `feedback_received = not feedback_received`: id, role and timestamp of every row kept; `Messages.ToggleFeedbackInvolution` states the whole effect |
| `Messages.SetContentThenLookup` | agixt/Conversations.py:846-847 | after an update by id, looking the id up finds the same row carrying the new text; that row differs from the old one in its text alone, and every other row is unchanged |
| `Messages.FirstWithContentKept` | agixt/Conversations.py:741-748 | the first message with some text depends on the texts alone, so a flag edit does not move it |
| `Messages.ContentFound` | agixt/Conversations.py:741-748 | when some message has the text, the lookup by content finds one |
| `Messages.ToggleFeedbackInvolution` | agixt/Conversations.py:762 | toggling flips the one flag; that row differs from the old one in this flag alone, every other row is unchanged, and toggling twice restores the conversation |
| `Messages.ToggleFeedbackFlips` | agixt/Conversations.py:741-763 | toggling the first message with the text flips its flag, leaves it the first with that text, and a second toggle undoes the first |
| `Table.ValidRemove` | agixt/Conversations.py:640-643 | deleting a conversation row keeps the table valid and leaves no row with its id |
| `Table.FindById` | agixt/Conversations.py:83-93 | in a valid table a row is the first and only one with its id, so the handle finds the row it holds |
| `Table.ResolveHeld` | agixt/Conversations.py:83-93 | a handle holding a row's id finds that row |
| `Table.ConversationMatches` | agixt/Conversations.py:83-93 | the `.filter(...)` clauses on the Conversation table: by name and user, by the held id, and by rendered id and user (50-56); `Table.FirstConversation` and `Table.NameByIdFindsConversation` state what they select |
| `Table.FirstConversation` | agixt/Conversations.py:83-93 | `query(Conversation).filter(...).first()`: the first matching row, or none when no row matches |
| `Table.Resolve` | agixt/Conversations.py:83-93 | without a held id, the first row with the handle's name and user; with one, the row holding that id when it still exists and otherwise the first named row; none exactly when neither exists |
| `Table.LastActivityId` | agixt/Conversations.py:878-892 | none exactly when no message is an activity; otherwise the id of an activity with no activity after it |
| `Table.LastAgentName` | agixt/Conversations.py:698-712 | `AGiXT` exactly when no message has a role other than `USER` and `user`; otherwise the role of the newest such message |
| `Table.LastAgentNameIsAgent` | agixt/Conversations.py:702-712 | with roles stored normalised, the last agent name never lowers to `user` |
| `Table.ThinkingDecision` | agixt/Conversations.py:538-565 | the placeholder is reused exactly when one exists and is strictly newer than the newest other activity (or there is none), and then its id is returned; every other case, equal timestamps included, logs a new one |
| `Table.ThinkingReusedAfterLogging` | agixt/Conversations.py:538-565 | right after a placeholder is logged at `now`, the next decision reuses it, unless the newest other activity is stamped `now` too |
| `Table.StoredMessage` | agixt/Conversations.py:597-602 | the row a log adds: the prepared role, text and notify flag, stamped `now`; `Table.LogIntoExistingAddsOne` states it as the added row |
| `Table.LogInto` | agixt/Conversations.py:567-630 | the specification of `log_interaction`; `Table.LogIntoCreates`, `Table.LogIntoExistingAddsOne` and `Table.LogAddsExactlyOne` state what it does |
| `Table.LogIntoCreates` | agixt/Conversations.py:589-591 | logging with no conversation is the same as creating the empty row under the handle's name and then logging into it |
| `Table.LogIntoExistingValid` | agixt/Conversations.py:596-618 | adding a normalised message with the next id keeps the table valid |
| `Table.LogIntoExistingAddsOne` | agixt/Conversations.py:596-630 | logging into an existing conversation returns the next id, adds exactly the prepared message there, refreshes its `updated_at`, keeps the table valid, and leaves every other row unchanged |
| `Table.LogAddsExactlyOne` | agixt/Conversations.py:567-630 | logging adds exactly one message to exactly one conversation, with an id no stored message has. That conversation is the handle's, or a new one under its name and user. The table stays valid and all other rows are unchanged |
| `Table.ForkInto` | agixt/Conversations.py:339-366 | the specification of the fork's writes; `Table.ForkValid`, `Table.ForkKeepsRows` and `Table.ForkAddsCopy` state what it does |
| `Table.WithFork` | agixt/Conversations.py:339-366 | the fork's table for given copies: the new row appended and the notify flag raised; `Table.ForkCopiedValid` ties it to the copy loop |
| `Table.ForkNextId` | agixt/Conversations.py:339-360 | the counter after a fork: one id for the new row and one per copied message; `Store.BuildFork` states it |
| `Table.ForkName` | agixt/Conversations.py:341 | `f"{name}_fork_{stamp}"`; `Store.Conversations.ForkConversation` returns it |
| `Table.ForkCopiesValid` | agixt/Conversations.py:349-360 | the copies of a valid conversation's prefix form a valid conversation under the advanced counter |
| `Table.ForkValid` | agixt/Conversations.py:339-366 | a fork keeps the table valid |
| `Table.ForkCopiedValid` | agixt/Conversations.py:349-366 | building the table from copies made one by one gives the fork's table, which is valid |
| `Table.ForkKeepsRows` | agixt/Conversations.py:362-364 | a fork adds one row, leaves every other conversation alone, and in the original changes only one notify flag, raising it on the last message it copied (at or after the target) |
| `Table.ForkAddsCopy` | agixt/Conversations.py:340-360 | the new last row has the fork's id, name and user, and holds one copy per message stamped no later than the target, in the original's order, notify off |
| `Table.InsertByRecency` | agixt/Conversations.py:147 | inserting into a newest-first list keeps it newest-first and adds exactly that conversation |
| `Table.ByRecency` | agixt/Conversations.py:147 | `order_by(updated_at.desc())` yields a newest-first permutation |
| `Table.OwnedWithMessages` | agixt/Conversations.py:143-148 | the join with `.distinct()` keeps exactly the user's conversations that hold at least one message, each as often as it is a row of the table (once in a valid table), however many messages it has |
| `Table.Names` | agixt/Conversations.py:152 | one name per conversation, in order |
| `Table.ConversationNames` | agixt/Conversations.py:140-154 | the names of `get_conversations`; `Table.ConversationNamesListed` states what it lists |
| `Table.NamesOfPermutation` | agixt/Conversations.py:147-152 | reordering the conversations does not change which names are listed |
| `Table.ConversationNamesListed` | agixt/Conversations.py:140-154 | a name is listed exactly when some conversation of the user that holds a message carries it, and the list is the names of a newest-first permutation of those conversations |
| `Table.NameById` | agixt/Conversations.py:45-63 | `-` for the sentinel or when no row matches, otherwise the name of the user's row with that rendered id |
| `Table.NameByIdFindsConversation` | agixt/Conversations.py:50-63 | looking up any conversation of the user by its rendered id gives back its name |
| `Activities.ActivitiesPage` | agixt/Conversations.py:382-405 | at most `limit` results; exactly the activities of the requested page, each as often as it occurs there, in timestamp order |
| `Activities.SubactivitiesOf` | agixt/Conversations.py:410-431 | exactly the messages starting with `[SUBACTIVITY][<id>]`, each as often as it occurs, all of them sub-activities, in timestamp order |
| `Activities.SubactivityEntry` | agixt/Conversations.py:435 | `#### Activity at <timestamp>\n<content>`; `Activities.SubactivitiesReportLists` shows each selected sub-activity's entry is in the report |
| `Activities.SubactivitySelectedByParent` | agixt/Conversations.py:420 | a sub-activity logged under parent `p` is listed for activity `q` exactly when p == q |
| `Activities.SubactivitiesReport` | agixt/Conversations.py:416-439 | empty exactly when the conversation has no messages; otherwise the report starts with the header, and is the header alone when nothing is selected |
| `Activities.Grouping` | agixt/Conversations.py:452-478 | the specification of the grouping pass; `Activities.GroupingHeads`, `Activities.GroupingSplit` and `Activities.LeadingMessagesDropped` state what it builds |
| `Activities.Step` | agixt/Conversations.py:454-476 | one message of the pass: an activity opens a group, a sub-activity joins the open one, anything else is skipped; `Activities.HeadsStep` states its effect on the heads |
| `Activities.HeadsStep` | agixt/Conversations.py:454-466 | reading one message adds a group head exactly when the message is an activity |
| `Activities.GroupingHeads` | agixt/Conversations.py:452-478 | there is one group per activity, headed by it, in the conversation's order |
| `Activities.GroupingSplit` | agixt/Conversations.py:454-476 | everything after an activity and before the next one is gathered under it, namely exactly its sub-activities in order, whatever parent their tags name |
| `Activities.LeadingMessagesDropped` | agixt/Conversations.py:465-466 | sub-activities and untagged messages before the first activity are dropped |
| `Activities.GroupActivities` | agixt/Conversations.py:452-478 | the accumulator loop computes `Activities.Grouping` exactly |
| `Activities.SubactivitiesReportLists` | agixt/Conversations.py:433-439 | every selected sub-activity has its entry in the report |
| `Activities.SubactivityLine` | agixt/Conversations.py:485 | `#### Subactivity at <timestamp>\n<content>`; `Activities.GroupEntryLists` shows each one is in its group's block |
| `Activities.GroupEntry` | agixt/Conversations.py:482-488 | each group's block starts with `### Activity at ` |
| `Activities.GroupEntryLists` | agixt/Conversations.py:482-488 | every sub-activity of a group has its line in the group's block |
| `Activities.GroupsReport` | agixt/Conversations.py:479-492 | the report starts with the header; no groups give the header alone; one group gives the header followed by its block |
| `Activities.GroupsReportLists` | agixt/Conversations.py:480-492 | every group has its block in the report |
| `Activities.ActivityReport` | agixt/Conversations.py:441-492 | the report of `get_activities_with_subactivities`; `Activities.ActivityReportCases` states its cases |
| `Activities.ActivityReportLists` | agixt/Conversations.py:441-492 | every activity of the conversation has its block in the report, and every sub-activity gathered under it has its line in that block |
| `Activities.ActivityReportCases` | agixt/Conversations.py:441-492 | the report is empty exactly when there are no messages; otherwise it starts with the header, is the header alone when no message is an activity, and has one group per activity |
| `Store.Database.constructor` | agixt/Conversations.py:70 | the session's tables start empty, with the id counter at zero |
| `Store.Database.Commit` | agixt/Conversations.py:366 | `self._db.commit()` of the fork's writes: the tables become exactly the state built, which is valid |
| `Store.Conversations.constructor` | agixt/Conversations.py:67-72 | a new handle holds no row |
| `Store.Conversations.Located` | agixt/Conversations.py:83-93 | the handle's conversation, if any, is a row of the table; without a held row it is the first row with the handle's name and user |
| `Store.Conversations.CreateConversation` | agixt/Conversations.py:494-501 | appends an empty row under the handle's name and user with the next id, which the handle then holds |
| `Store.Conversations.AddMessage` | agixt/Conversations.py:617-618 | inserts the message by timestamp, refreshes `updated_at`, advances the counter and keeps the table valid |
| `Store.Conversations.LogInteraction` | agixt/Conversations.py:567-630 | the new table, counter and returned id are those of `Table.LogInto` on the old state; afterwards the handle holds, and finds, the conversation logged into |
| `Store.Conversations.LogAt` | agixt/Conversations.py:596-630 | the write into an existing conversation is `Table.LogInto` on the old state |
| `Store.Conversations.GetThinkingId` | agixt/Conversations.py:510-565 | nothing and no change without a conversation; otherwise the reused placeholder's id with no change, or a newly logged placeholder exactly as `Table.LogInto` logs it, as `Table.ThinkingDecision` chooses |
| `Store.Conversations.GetLastActivityId` | agixt/Conversations.py:878-892 | none without a conversation, otherwise `Table.LastActivityId` of its messages |
| `Store.Conversations.GetLastAgentName` | agixt/Conversations.py:698-712 | `AGiXT` without a conversation, otherwise `Table.LastAgentName` of its messages |
| `Store.Conversations.GetConversation` | agixt/Conversations.py:255-302 | an absent conversation is created with no flag changed and an empty page; an existing one has every message marked read, with no other row touched, and the page is the window of its messages |
| `Store.Conversations.GetActivities` | agixt/Conversations.py:379-405 | nothing without a conversation, otherwise the activities of the page |
| `Store.Conversations.GetSubactivities` | agixt/Conversations.py:407-439 | `""` without a conversation, otherwise the sub-activity report |
| `Store.Conversations.GetActivitiesWithSubactivities` | agixt/Conversations.py:441-492 | `""` without a conversation, otherwise the grouped report built by the loop |
| `Store.Conversations.AddFork` | agixt/Conversations.py:339-366 | the writes of a fork give `Table.ForkInto`'s table and counter, and keep the table valid |
| `Store.Conversations.ForkConversation` | agixt/Conversations.py:304-377 | nothing and no change without a conversation or without the target; otherwise returns `<name>_fork_<stamp>`, and the table is that of `Table.ForkInto` |
| `Store.CopyMessages` | agixt/Conversations.py:349-360 | the copy loop computes `Messages.ForkCopies` |
| `Store.BuildFork` | agixt/Conversations.py:339-366 | the table built with the loop's copies is `Table.ForkInto`'s, with `Table.ForkNextId`'s counter, and is valid |
| `Store.Conversations.DeleteConversation` | agixt/Conversations.py:632-645 | nothing changes without a conversation; otherwise its messages go. Its row goes too when it belongs to the handle's user, and the handle forgets it. The counter stays and the table stays valid |
| `Store.Conversations.FoundId` | agixt/Conversations.py:651-666 | the id found by text is that of the first message with the text, and the lookup by that id finds the same message again |
| `Store.Conversations.DeleteMessage` | agixt/Conversations.py:647-674 | deletes the first message with the text, found again by its id; nothing else changes |
| `Store.Conversations.GetMessageById` | agixt/Conversations.py:676-696 | none exactly when no message of the conversation has the id; otherwise the text of the message that does |
| `Store.Conversations.DeleteMessageById` | agixt/Conversations.py:714-734 | deletes the message with the id when there is one; nothing else changes |
| `Store.Conversations.UpdateMessage` | agixt/Conversations.py:795-822 | replaces the text of the first message with the old text; nothing else changes |
| `Store.Conversations.UpdateMessageById` | agixt/Conversations.py:824-853 | replaces the text of the message with the id when there is one; nothing else changes |
| `Store.Conversations.ToggleFeedbackReceived` | agixt/Conversations.py:736-763 | flips the feedback flag of the first message with the text; nothing else changes |
| `Store.Conversations.HasReceivedFeedback` | agixt/Conversations.py:765-793 | none without a conversation, otherwise the feedback flag of the first message with the text |
| `Store.Conversations.RenameConversation` | agixt/Conversations.py:866-876 | returns the new name. An existing conversation is renamed in place and stays held. Without one, an empty row is created under the handle's own name and held instead |
| `Store.Conversations.GetConversations` | agixt/Conversations.py:140-154 | the names `Table.ConversationNames` lists for the handle's user |
| `Store.GetConversationNameById` | agixt/Conversations.py:45-63 | `-` for the sentinel, after making sure the user has a `-` conversation; otherwise `Table.NameById` with no change to the table |

## Left out

- `agixt/endpoints/Prompt.py` is not part of this model. It is an HTTP router over a prompt client the repository does not show, and holds no store logic.
- Database sessions are not modelled: `get_session`, `close`, `__enter__`, `__exit__` and the commits, flushes and rollbacks. Each method of the model is one atomic update of the in-memory table.
- `user_data` is not modelled: the handle carries the user's id directly.
- Logging calls are not modelled; they have no effect on the table.
- `convert_time` and the date stamp are not modelled: timestamps are integers, and the fork's `%Y%m%d_%H%M%S` stamp is a parameter. The database clock that stamps a new message's `timestamp` and `updated_at`, and the conversation's `func.now()`, are all the parameter `now`.
- `updated_at` is not refreshed by rename or by a message update. The source does not write it there, and any ORM on-update default lives in the table definitions, which are not part of this model.
- Failure handling is not modelled, because these branches only recover from database failures:
  - the exception fallback from `get_last_activity_id` to `get_thinking_id` in `log_interaction` (572-573);
  - the retry that recreates the conversation (605-615);
  - the fork's rollback (374-377);
  - the update's rollback (849-853).
- `get_agent_id` is not modelled: it reads the Agent table.
- Summary and attachment functions, and `get_conversation_id`, are not modelled. `set_conversation_summary`, `get_conversation_summary`, `get_attachment_count`, `update_attachment_count` and `increment_attachment_count` are among them, and most of these fail as soon as the conversation exists, by reading an unbound local.
- `get_conversations_with_ids`, `get_conversations_with_detail`, `get_notifications` and `export_conversation` are not modelled. They are reporting queries outside the modelled core.
- `new_conversation` is modelled only as the creation of an empty row (`Store.Conversations.CreateConversation`); its import of initial turns (502-507) is not modelled.
- Return values keep record form: ids are numbers rather than strings, and pages are message records rather than JSON dictionaries.
- Store.Conversations.ToggleFeedbackReceived, Store.Conversations.HasReceivedFeedback, Store.Conversations.DeleteMessage and Store.Conversations.UpdateMessage require that some message of the conversation has the given text. The source dereferences `None` in that case instead of failing cleanly.
- Store.Conversations.Located: the property caches the row it finds on every access. The model caches it only where the source assigns `_conversation` or calls `log_interaction`: on create, log and rename, and it forgets it on delete. The two differ only when another handle renames or deletes the row in between.
- Store.GetConversationNameById creates the `-` conversation as intended. In the source that path (`get_conversation_id_by_name`, 24-42) never reaches `get_conversation_id`. Its `with` statement calls `__enter__` (105-106), which calls `get_session` (95-98), which reads `self._session`. `__init__` never sets that attribute (67-72), so the `with` raises `AttributeError`.
- Table.ConversationNamesListed states newest-first order and the exact set of names, not the order among conversations with equal `updated_at`, which the database leaves open.
- Messages.FirstWhere and Table.FirstConversation take `.first()` to be the oldest matching message, or the earliest-created matching conversation. The content lookups (651-658, 741-748, 771-778, 800-807) and the conversation lookup (83-93) have no `ORDER BY`, so with duplicate texts or names the database may return any matching row. `Store.Conversations.DeleteMessage`, `Store.Conversations.UpdateMessage`, `Store.Conversations.ToggleFeedbackReceived`, `Store.Conversations.HasReceivedFeedback` and `Table.Resolve` inherit this choice.
- Table.StoredMessage gives a new row `updated_by` none and `feedback_received` false. The source does not set these fields at 597-602; they are taken as the schema's defaults, and the table definitions are not part of this model.
- Messages.InsertByTime places a new message after every message with an equal timestamp. The database's order among equal timestamps is left open.
- `role.lower()` is modelled on ASCII letters only, because Unicode case folding is not modelled.
- `LIKE '[ACTIVITY]%'` is modelled as a case-sensitive prefix test. The pattern's `[` and `]` are taken literally.
- Store.Conversations.GetConversation and Store.Conversations.GetActivities require `page >= 1` and take `limit` as a natural number (so do `Messages.Window` and `Activities.ActivitiesPage`). The source passes both to `.limit()` and `.offset()` unchecked (280-281, 387-388). A page below 1 gives a negative offset and a negative limit is passed to `LIMIT`, and what either means depends on the database engine.
- Store.Conversations.GetConversation and Store.Conversations.GetActivities take `limit` and `page` as explicit arguments. The source's defaults (`limit=100`, `page=1`, at 255 and 379) are not modelled, because Dafny methods have no default arguments.
