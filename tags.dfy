/**
 * The activity convention layered on plain message text, and the
 * normalisation `log_interaction` applies to a role and a message before
 * storing them.
 *
 *   `[ACTIVITY] ...`              a top-level activity
 *   `[SUBACTIVITY][<id>] ...`     a sub-activity of activity `<id>`
 *   `[SUBACTIVITY] ...`           what a caller writes to ask for a
 *                                 sub-activity of the latest activity
 */
module Tags {
  import opened Wrappers
  import opened Text

  const ActivityTag: string := "[ACTIVITY]"
  const SubactivityTag: string := "[SUBACTIVITY]"
  /** The request form of a sub-activity, rewritten on write. */
  const SubactivityRequest: string := "[SUBACTIVITY] "
  /** What a request degrades to when there is no activity to attach to. */
  const ActivityPrefix: string := "[ACTIVITY] "
  /** The reusable placeholder activity. */
  const ThinkingContent: string := "[ACTIVITY] Thinking."
  /** The stored role of every user turn. */
  const UserRole: string := "USER"

  predicate IsActivity(content: string)
  {
    StartsWith(content, ActivityTag)
  }

  predicate IsSubactivity(content: string)
  {
    StartsWith(content, SubactivityTag)
  }

  /** `role.lower() == "user"` */
  predicate IsUserRole(role: string)
  {
    Lower(role) == "user"
  }

  /** The sixteen spellings of "user" that `role.lower()` maps to it, and no others. */
  lemma UserRoleSpellings(role: string)
    ensures IsUserRole(role) <==>
      |role| == 4 && role[0] in "uU" && role[1] in "sS" && role[2] in "eE" && role[3] in "rR"
  {
    var low := Lower(role);
    if |role| == 4 {
      if IsUserRole(role) {
        assert low[0] == 'u' && low[1] == 's' && low[2] == 'e' && low[3] == 'r';
      }
    } else {
      assert |low| != |"user"|;
    }
  }

  /** `[SUBACTIVITY][<activityId>]`, the prefix `get_subactivities` selects by. */
  function ParentTag(activityId: string): string
  {
    SubactivityTag + "[" + activityId + "]"
  }

  /** What `[SUBACTIVITY] ` becomes once its parent activity is known. */
  function SubactivityPrefix(parent: nat): (r: string)
    ensures IsSubactivity(r) && !IsActivity(r)
  {
    var r := ParentTag(NatToString(parent)) + " ";
    assert r[..|SubactivityTag|] == SubactivityTag;
    assert r[1] == 'S';
    r
  }

  /** A sub-activity written under parent `p` is selected by the tag of `q` exactly when p == q. */
  lemma {:induction false} ParentTagSelects(p: nat, q: nat, rest: string)
    ensures StartsWith(SubactivityPrefix(p) + rest, ParentTag(NatToString(q))) <==> p == q
  {
    var head := SubactivityTag + "[";
    var d, e := NatToString(p), NatToString(q);
    var s := SubactivityPrefix(p) + rest;
    var t := ParentTag(NatToString(q));
    assert |head| == 14;
    assert s == head + d + "] " + rest;
    assert t == head + e + "]";
    assert s[14 + |d|] == ']' && t[14 + |e|] == ']';
    assert forall i :: 14 <= i < 14 + |d| ==> s[i] == d[i - 14];
    assert forall i :: 14 <= i < 14 + |e| ==> t[i] == e[i - 14];
    if p == q {
      assert s == t + " " + rest;
      assert s[..|t|] == t;
    } else if StartsWith(s, t) {
      assert forall i :: 0 <= i < |t| ==> s[i] == t[i];
      if |e| < |d| {
        assert false;
      } else if |e| > |d| {
        assert false;
      } else {
        assert forall i :: 0 <= i < |d| ==> d[i] == s[14 + i] == t[14 + i] == e[i];
        assert d == e;
        NatToStringInjective(p, q);
      }
    }
  }

  /**
   * The `[SUBACTIVITY] ` rewrite of `log_interaction`: with a known latest
   * activity every `[SUBACTIVITY] ` becomes `[SUBACTIVITY][<id>] `, without
   * one it becomes `[ACTIVITY] `; text without the request prefix is kept.
   */
  function RewriteSubactivity(message: string, lastActivity: Option<nat>): (r: string)
    ensures !StartsWith(message, SubactivityRequest) ==> r == message
    ensures StartsWith(message, SubactivityRequest) && lastActivity.Some? ==>
      StartsWith(r, SubactivityPrefix(lastActivity.value)) && IsSubactivity(r) && !IsActivity(r)
    ensures StartsWith(message, SubactivityRequest) && lastActivity.None? ==>
      StartsWith(r, ActivityPrefix) && IsActivity(r) && !IsSubactivity(r)
  {
    if !StartsWith(message, SubactivityRequest) then message
    else match lastActivity
      case Some(id) =>
        var r := ReplaceAll(message, SubactivityRequest, SubactivityPrefix(id));
        StartsWithTrans(r, SubactivityPrefix(id), SubactivityTag);
        assert !IsActivity(r) by {
          assert r[1] == SubactivityPrefix(id)[1] == 'S';
        }
        r
      case None =>
        var r := ReplaceAll(message, SubactivityRequest, ActivityPrefix);
        StartsWithTrans(r, ActivityPrefix, ActivityTag);
        assert !IsSubactivity(r) by {
          assert r[1] == ActivityPrefix[1] == 'A';
        }
        r
  }

  /** A request that names itself only once is rewritten at its head and nowhere else. */
  lemma {:induction false} RewriteSingleRequest(message: string, parent: nat)
    requires StartsWith(message, SubactivityRequest)
    requires !Occurs(message[|SubactivityRequest|..], SubactivityRequest)
    ensures RewriteSubactivity(message, Some(parent)) == SubactivityPrefix(parent) + message[|SubactivityRequest|..]
    ensures RewriteSubactivity(message, None) == ActivityPrefix + message[|SubactivityRequest|..]
  {
  }

  /** The role stored for a turn: every spelling of "user" becomes `USER`. */
  function NormalizeRole(role: string): (r: string)
    ensures r == UserRole <==> IsUserRole(role)
    ensures !IsUserRole(role) ==> r == role
    ensures IsUserRole(r) ==> r == UserRole
  {
    assert IsUserRole(UserRole) by {
      assert Lower(UserRole) == "user";
    }
    if IsUserRole(role) then UserRole else role
  }

  /** `message[:-1]` while it ends in a newline, at most twice. */
  function TrimNewlines(s: string): (r: string)
    ensures |s| - 2 <= |r| <= |s| && r == s[..|r|]
    ensures forall i :: |r| <= i < |s| ==> s[i] == '\n'
    ensures |r| > |s| - 2 ==> !EndsWith(r, "\n")
  {
    var once := if EndsWith(s, "\n") then s[..|s| - 1] else s;
    if EndsWith(once, "\n") then once[..|once| - 1] else once
  }

  /** Trimming newlines never cuts into a tag such as `[ACTIVITY]`. */
  lemma TrimKeepsPrefix(s: string, p: string)
    requires p != [] && p[|p| - 1] != '\n'
    ensures StartsWith(TrimNewlines(s), p) <==> StartsWith(s, p)
  {
    var r := TrimNewlines(s);
    if StartsWith(r, p) {
      StartsWithTrans(s, r, p);
    }
  }

  /** The role, text and notify flag `log_interaction` stores. */
  datatype Prepared = Prepared(role: string, content: string, notify: bool)

  /**
   * `log_interaction`'s normalisation of a turn, given the id of the latest
   * activity of the conversation (if any). The notify flag is computed from
   * the rewritten text before trimming; the contract states it in terms of
   * the stored text.
   */
  function Prepare(role: string, message: string, lastActivity: Option<nat>): (p: Prepared)
    ensures p.role == UserRole <==> IsUserRole(role)
    ensures !IsUserRole(role) ==> p.role == role
    ensures p.notify <==> !IsUserRole(role) && !IsActivity(p.content) && !IsSubactivity(p.content)
    ensures StartsWith(message, SubactivityRequest) || IsActivity(message) ==> !p.notify
    ensures p.content == TrimNewlines(RewriteSubactivity(message, lastActivity))
  {
    var rewritten := RewriteSubactivity(message, lastActivity);
    TrimKeepsPrefix(rewritten, ActivityTag);
    TrimKeepsPrefix(rewritten, SubactivityTag);
    var notify := !IsUserRole(role) && !IsActivity(rewritten) && !IsSubactivity(rewritten);
    Prepared(NormalizeRole(role), TrimNewlines(rewritten), notify)
  }

  /** Logging the placeholder stores it verbatim and never as a notification. */
  lemma PrepareThinking(role: string, lastActivity: Option<nat>)
    ensures Prepare(role, ThinkingContent, lastActivity).content == ThinkingContent
    ensures !Prepare(role, ThinkingContent, lastActivity).notify
  {
    assert !StartsWith(ThinkingContent, SubactivityRequest) by {
      assert ThinkingContent[1] != SubactivityRequest[1];
    }
    assert !EndsWith(ThinkingContent, "\n");
    assert IsActivity(ThinkingContent) by {
      assert ThinkingContent[..|ActivityTag|] == ActivityTag;
    }
  }
}
