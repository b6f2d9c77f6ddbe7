/** Notification gating and message composition of RedGit's
    `NotificationService`. The configuration manager and the integration
    registry are collaborators outside this model: the per-event switch is a
    predicate fixed at construction, and the integration `get_notification`
    returns is a value, with the outcome of its `send_message` given as a
    predicate on the message (true when the call returns without raising). */
module Notifications {
  import opened Text
  import opened Optional

  /** A notification integration: its `enabled` flag, and whether
      `send_message` completes for a given message. */
  datatype Integration = Integration(enabled: bool, delivers: string -> bool)

  /** At most this many characters of an issue summary are sent. */
  const SummaryLimit := 100

  function Min(a: int, b: int): int
  {
    if a <= b then a else b
  }

  // ---------------------------------------------------------------------
  // Message builders. Optional strings are "" when absent: Python treats
  // `None` and "" alike in the `if x:` tests the builders use.
  // ---------------------------------------------------------------------

  function PushHead(branch: string): string
  {
    "Pushed `" + branch + "` to remote"
  }

  /** The message of `send_push`. */
  function PushMessage(branch: string, issues: seq<string>): string
  {
    PushHead(branch) + (if issues != [] then "\nIssues: " + Join(issues, ", ") else "")
  }

  function PrHead(branch: string): string
  {
    "PR created for `" + branch + "`"
  }

  /** The message of `send_pr_created`. */
  function PrCreatedMessage(branch: string, prUrl: string, issueKey: string): string
  {
    PrHead(branch) + (if issueKey != "" then " (" + issueKey + ")" else "") + "\n" + prUrl
  }

  /** The event `send_ci_result` reports under. */
  function CiEvent(status: string): string
  {
    if status == "success" then "ci_success" else "ci_failure"
  }

  function CiSuccessHead(branch: string): string
  {
    "Pipeline for `" + branch + "` completed successfully"
  }

  function CiFailureHead(branch: string): string
  {
    "Pipeline for `" + branch + "` failed"
  }

  /** The message of `send_ci_result`. */
  function CiMessage(branch: string, status: string, url: string): string
  {
    (if status == "success" then CiSuccessHead(branch) else CiFailureHead(branch))
    + (if url != "" then "\n" + url else "")
  }

  /** The message of `send_issue_completed`, which sends nothing for an
      empty list. */
  function IssueCompletedMessage(issues: seq<string>): string
    requires issues != []
  {
    if |issues| == 1 then "Issue " + issues[0] + " marked as Done"
    else IntToString(|issues|) + " issues marked as Done: " + Join(issues, ", ")
  }

  function IssueCreatedHead(issueKey: string): string
  {
    "Issue created: " + issueKey
  }

  /** The message of `send_issue_created`: the summary is cut to its first
      `SummaryLimit` characters. */
  function IssueCreatedMessage(issueKey: string, summary: string): string
  {
    IssueCreatedHead(issueKey)
    + (if summary != "" then "\n" + summary[..Min(SummaryLimit, |summary|)] else "")
  }

  function CommitHead(branch: string, issueKey: string): string
  {
    "Committed to `" + branch + "`" + (if issueKey != "" then " (" + issueKey + ")" else "")
  }

  /** The message of `send_commit`; a zero file count adds no line. */
  function CommitMessage(branch: string, issueKey: string, filesCount: int): string
  {
    CommitHead(branch, issueKey) + (if filesCount != 0 then "\n" + IntToString(filesCount) + " files" else "")
  }

  /** The message of `send_session_complete`. */
  function SessionMessage(branchesCount: int, issuesCount: int): string
  {
    "Session completed: " + IntToString(branchesCount) + " branches, " + IntToString(issuesCount) + " issues"
  }

  /** The message of `send_quality_failed`. */
  function QualityMessage(score: int, threshold: int): string
  {
    "Quality check failed: " + IntToString(score) + "% (threshold: " + IntToString(threshold) + "%)"
  }

  // ---------------------------------------------------------------------
  // What the messages say
  // ---------------------------------------------------------------------

  /** The issue line of a push message is present exactly when there are
      issues, and then names every one of them. */
  lemma PushMessageParts(branch: string, issues: seq<string>)
    ensures var r := PushMessage(branch, issues);
            && IsPrefix(PushHead(branch), r)
            && (issues == [] <==> r == PushHead(branch))
            && forall i :: 0 <= i < |issues| ==> Contains(r, issues[i])
  {
    var r := PushMessage(branch, issues);
    assert r[..|PushHead(branch)|] == PushHead(branch);
    forall i | 0 <= i < |issues|
      ensures Contains(r, issues[i])
    {
      JoinContainsPieces(issues, ", ", i);
      ContainsPrepend(PushHead(branch) + "\nIssues: ", Join(issues, ", "), issues[i]);
      assert r == PushHead(branch) + "\nIssues: " + Join(issues, ", ");
    }
  }

  /** The PR message ends with the URL on its own line, and mentions the
      issue key in parentheses only when one is given. */
  lemma PrCreatedParts(branch: string, prUrl: string, issueKey: string)
    ensures var r := PrCreatedMessage(branch, prUrl, issueKey);
            && IsSuffix("\n" + prUrl, r)
            && (issueKey != "" ==> IsPrefix(PrHead(branch) + " (" + issueKey + ")", r))
            && (issueKey == "" ==> r == PrHead(branch) + "\n" + prUrl)
  {
  }

  /** A CI result is reported as a success, under "ci_success", exactly when
      the status is "success"; the URL line is there only when a URL is. */
  lemma CiResultParts(branch: string, status: string, url: string)
    ensures (CiEvent(status) == "ci_success") <==> status == "success"
    ensures var r := CiMessage(branch, status, url);
            && (IsPrefix(CiSuccessHead(branch), r) <==> status == "success")
            && (IsPrefix(CiFailureHead(branch), r) <==> status != "success")
            && (url != "" ==> IsSuffix("\n" + url, r))
            && (url == "" ==> r == CiSuccessHead(branch) || r == CiFailureHead(branch))
  {
    var r := CiMessage(branch, status, url);
    var head := if status == "success" then CiSuccessHead(branch) else CiFailureHead(branch);
    var tail := if url != "" then "\n" + url else "";
    assert r == head + tail;
    var k := |"Pipeline for `" + branch + "` "|;
    assert CiSuccessHead(branch)[k] == 'c';
    assert CiFailureHead(branch)[k] == 'f';
    assert r[..|head|] == head;
    assert r[k] == head[k];
    if url != "" {
      assert r[|r| - |tail|..] == tail;
    }
  }

  /** One issue is named on its own; several are counted and listed. */
  lemma IssueCompletedWording(issues: seq<string>)
    requires issues != []
    ensures var r := IssueCompletedMessage(issues);
            && (|issues| == 1 ==> r == "Issue " + issues[0] + " marked as Done")
            && (|issues| > 1 ==> IsPrefix(IntToString(|issues|) + " issues marked as Done: ", r))
            && forall i :: 0 <= i < |issues| ==> Contains(r, issues[i])
  {
    var r := IssueCompletedMessage(issues);
    if |issues| == 1 {
      ContainsSelf(issues[0]);
      ContainsPrepend("Issue ", issues[0], issues[0]);
      ContainsExtend("Issue " + issues[0], " marked as Done", issues[0]);
    } else {
      var head := IntToString(|issues|) + " issues marked as Done: ";
      assert r == head + Join(issues, ", ");
      assert r[..|head|] == head;
      forall i | 0 <= i < |issues|
        ensures Contains(r, issues[i])
      {
        JoinContainsPieces(issues, ", ", i);
        ContainsPrepend(head, Join(issues, ", "), issues[i]);
      }
    }
  }

  /** A message about several issues as the count and the rest. */
  lemma IssueCompletedShape(issues: seq<string>)
    requires |issues| > 1
    ensures IssueCompletedMessage(issues)
         == IntToString(|issues|) + (" issues marked as Done: " + Join(issues, ", "))
  {
  }

  /** The count in a message about several issues reads back as the number
      of issues: two such messages with the same text count the same. */
  lemma IssueCompletedCountReadsBack(a: seq<string>, b: seq<string>)
    requires |a| > 1 && |b| > 1
    requires IssueCompletedMessage(a) == IssueCompletedMessage(b)
    ensures |a| == |b|
  {
    var w := " issues marked as Done: ";
    var ma, mb := w + Join(a, ", "), w + Join(b, ", ");
    IssueCompletedShape(a);
    IssueCompletedShape(b);
    IntToStringChars(|a|, ' ');
    IntToStringChars(|b|, ' ');
    SplitAtMarker(IntToString(|a|), ma, IntToString(|b|), mb, ' ');
    IntToStringInjective(|a|, |b|);
  }

  /** The summary line holds at most the first `SummaryLimit` characters of
      the summary, and is present only for a non-empty summary. */
  lemma IssueCreatedCut(issueKey: string, summary: string)
    ensures var r := IssueCreatedMessage(issueKey, summary);
            var head := IssueCreatedHead(issueKey);
            && IsPrefix(head, r)
            && (summary == "" ==> r == head)
            && (summary != "" ==> |r| == |head| + 1 + Min(SummaryLimit, |summary|)
                                  && IsPrefix(r[|head| + 1..], summary)
                                  && r[|head|] == '\n')
            && |r| <= |head| + 1 + SummaryLimit
  {
  }

  /** A commit message ends with " files" exactly when the file count is
      nonzero, and mentions the issue key in parentheses only when given. */
  lemma CommitMessageParts(branch: string, issueKey: string, filesCount: int)
    ensures var r := CommitMessage(branch, issueKey, filesCount);
            && (IsSuffix(" files", r) <==> filesCount != 0)
            && IsPrefix(CommitHead(branch, issueKey), r)
            && (issueKey != "" ==> IsPrefix("Committed to `" + branch + "` (" + issueKey + ")", r))
            && var h := "Committed to `" + branch + "`";
               IsPrefix(h, r) && (issueKey == "" ==> |r| == |h| || r[|h|] == '\n')
  {
    var r := CommitMessage(branch, issueKey, filesCount);
    var head := CommitHead(branch, issueKey);
    assert r[..|head|] == head;
    if filesCount != 0 {
      var tail := "\n" + IntToString(filesCount) + " files";
      assert r == head + tail;
      assert r[|r| - 6..] == tail[|tail| - 6..] == " files";
    } else {
      assert r == head;
      assert r[|r| - 1] == '`' || r[|r| - 1] == ')';
    }
    if issueKey != "" {
      assert head == "Committed to `" + branch + "` (" + issueKey + ")";
    }
    var h := "Committed to `" + branch + "`";
    assert head[..|h|] == h;
  }

  /** The session message as its opening words, the branch count, and the rest. */
  lemma SessionMessageShape(b: int, i: int)
    ensures SessionMessage(b, i)
         == "Session completed: " + (IntToString(b) + (" branches, " + (IntToString(i) + " issues")))
  {
  }

  /** The quality message as its opening words, the score, and the rest. */
  lemma QualityMessageShape(s: int, t: int)
    ensures QualityMessage(s, t)
         == "Quality check failed: " + (IntToString(s) + ("% (threshold: " + (IntToString(t) + "%)")))
  {
  }

  /** Different session counts give different messages. */
  lemma SessionMessageInjective(b1: int, i1: int, b2: int, i2: int)
    requires SessionMessage(b1, i1) == SessionMessage(b2, i2)
    ensures b1 == b2 && i1 == i2
  {
    var p, w := "Session completed: ", " branches, ";
    var t1, t2 := IntToString(i1) + " issues", IntToString(i2) + " issues";
    var m1, m2 := w + t1, w + t2;
    SessionMessageShape(b1, i1);
    SessionMessageShape(b2, i2);
    DropPrefix(p, IntToString(b1) + m1, IntToString(b2) + m2);
    IntToStringChars(b1, ' ');
    IntToStringChars(b2, ' ');
    SplitAtMarker(IntToString(b1), m1, IntToString(b2), m2, ' ');
    DropPrefix(w, t1, t2);
    DropSuffix(IntToString(i1), IntToString(i2), " issues");
    IntToStringInjective(b1, b2);
    IntToStringInjective(i1, i2);
  }

  /** Different scores or thresholds give different messages. */
  lemma QualityMessageInjective(s1: int, t1: int, s2: int, t2: int)
    requires QualityMessage(s1, t1) == QualityMessage(s2, t2)
    ensures s1 == s2 && t1 == t2
  {
    var p, w := "Quality check failed: ", "% (threshold: ";
    var u1, u2 := IntToString(t1) + "%)", IntToString(t2) + "%)";
    var m1, m2 := w + u1, w + u2;
    QualityMessageShape(s1, t1);
    QualityMessageShape(s2, t2);
    DropPrefix(p, IntToString(s1) + m1, IntToString(s2) + m2);
    IntToStringChars(s1, '%');
    IntToStringChars(s2, '%');
    SplitAtMarker(IntToString(s1), m1, IntToString(s2), m2, '%');
    DropPrefix(w, u1, u2);
    DropSuffix(IntToString(t1), IntToString(t2), "%)");
    IntToStringInjective(s1, s2);
    IntToStringInjective(t1, t2);
  }

  // ---------------------------------------------------------------------
  // The service
  // ---------------------------------------------------------------------

  class NotificationService {
    /** `is_notification_enabled(event)` of the configuration manager. */
    const eventEnabled: string -> bool
    /** What `get_notification(config)` returns; `None` when there is no integration. */
    const registry: Option<Integration>
    /** `_notification` and `_initialized`, the lazily loaded integration. */
    var cached: Option<Integration>
    var initialized: bool
    /** How many times `get_notification` has been called. */
    var lookups: nat
    /** The messages handed to `send_message`, in order. */
    var attempts: seq<string>

    /** The integration is looked up at most once, and once looked up it is
        the registry's answer. */
    ghost predicate Valid()
      reads this
    {
      && lookups == (if initialized then 1 else 0)
      && cached == (if initialized then registry else None)
    }

    constructor (eventEnabled: string -> bool, registry: Option<Integration>)
      ensures Valid() && !initialized && attempts == []
      ensures this.eventEnabled == eventEnabled && this.registry == registry
    {
      this.eventEnabled := eventEnabled;
      this.registry := registry;
      cached := None;
      initialized := false;
      lookups := 0;
      attempts := [];
    }

    /** The `notification` property: the first access loads the integration,
        later ones return the loaded value. */
    method Notification() returns (n: Option<Integration>)
      requires Valid()
      modifies this`cached, this`initialized, this`lookups
      ensures Valid() && initialized && n == registry
      ensures old(initialized) ==> lookups == old(lookups)
    {
      if !initialized {
        cached := registry;
        initialized := true;
        lookups := lookups + 1;
      }
      n := cached;
    }

    /** The guards of `send` let `message` through to the integration. */
    predicate Reaches(event: string)
    {
      eventEnabled(event) && registry.Some? && registry.value.enabled
    }

    /** `send(event, message)` returns true. */
    predicate Sent(event: string, message: string)
    {
      Reaches(event) && registry.value.delivers(message)
    }

    /** `send`: a disabled event stops before the integration is loaded; a
        missing or disabled integration stops before `send_message`; a
        raising `send_message` counts as not sent. */
    method Send(event: string, message: string) returns (ok: bool)
      requires Valid()
      modifies this`cached, this`initialized, this`lookups, this`attempts
      ensures Valid()
      ensures ok == Sent(event, message)
      ensures attempts == old(attempts) + (if Reaches(event) then [message] else [])
      ensures initialized == (old(initialized) || eventEnabled(event))
    {
      if !eventEnabled(event) {
        return false;
      }
      var n := Notification();
      if n.None? {
        return false;
      }
      var again := Notification();
      if !again.value.enabled {
        return false;
      }
      var integration := Notification();
      attempts := attempts + [message];
      ok := integration.value.delivers(message);
    }

    method SendPush(branch: string, issues: seq<string>) returns (ok: bool)
      requires Valid()
      modifies this`cached, this`initialized, this`lookups, this`attempts
      ensures Valid()
      ensures ok == Sent("push", PushMessage(branch, issues))
      ensures attempts == old(attempts) + (if Reaches("push") then [PushMessage(branch, issues)] else [])
    {
      var message := "Pushed `" + branch + "` to remote";
      if issues != [] {
        message := message + "\nIssues: " + Join(issues, ", ");
      }
      assert message == PushMessage(branch, issues);
      ok := Send("push", message);
    }

    method SendPrCreated(branch: string, prUrl: string, issueKey: string) returns (ok: bool)
      requires Valid()
      modifies this`cached, this`initialized, this`lookups, this`attempts
      ensures Valid()
      ensures ok == Sent("pr_created", PrCreatedMessage(branch, prUrl, issueKey))
      ensures attempts == old(attempts)
                          + (if Reaches("pr_created") then [PrCreatedMessage(branch, prUrl, issueKey)] else [])
    {
      var message := "PR created for `" + branch + "`";
      if issueKey != "" {
        message := message + " (" + issueKey + ")";
      }
      message := message + "\n" + prUrl;
      assert message == PrCreatedMessage(branch, prUrl, issueKey);
      ok := Send("pr_created", message);
    }

    method SendCiResult(branch: string, status: string, url: string) returns (ok: bool)
      requires Valid()
      modifies this`cached, this`initialized, this`lookups, this`attempts
      ensures Valid()
      ensures ok == Sent(CiEvent(status), CiMessage(branch, status, url))
      ensures attempts == old(attempts)
                          + (if Reaches(CiEvent(status)) then [CiMessage(branch, status, url)] else [])
    {
      var event := if status == "success" then "ci_success" else "ci_failure";
      var message;
      if status == "success" {
        message := "Pipeline for `" + branch + "` completed successfully";
      } else {
        message := "Pipeline for `" + branch + "` failed";
      }
      if url != "" {
        message := message + "\n" + url;
      }
      assert message == CiMessage(branch, status, url);
      ok := Send(event, message);
    }

    method SendIssueCompleted(issues: seq<string>) returns (ok: bool)
      requires Valid()
      modifies this`cached, this`initialized, this`lookups, this`attempts
      ensures Valid()
      ensures issues == [] ==> !ok && unchanged(this)
      ensures issues != [] ==> ok == Sent("issue_completed", IssueCompletedMessage(issues))
      ensures issues != [] ==>
                attempts == old(attempts) + (if Reaches("issue_completed") then [IssueCompletedMessage(issues)] else [])
    {
      if issues == [] {
        return false;
      }
      var message;
      if |issues| == 1 {
        message := "Issue " + issues[0] + " marked as Done";
      } else {
        message := IntToString(|issues|) + " issues marked as Done: " + Join(issues, ", ");
      }
      ok := Send("issue_completed", message);
    }

    method SendIssueCreated(issueKey: string, summary: string) returns (ok: bool)
      requires Valid()
      modifies this`cached, this`initialized, this`lookups, this`attempts
      ensures Valid()
      ensures ok == Sent("issue_created", IssueCreatedMessage(issueKey, summary))
      ensures attempts == old(attempts)
                          + (if Reaches("issue_created") then [IssueCreatedMessage(issueKey, summary)] else [])
    {
      var message := "Issue created: " + issueKey;
      if summary != "" {
        message := message + "\n" + summary[..Min(SummaryLimit, |summary|)];
      }
      assert message == IssueCreatedMessage(issueKey, summary);
      ok := Send("issue_created", message);
    }

    method SendCommit(branch: string, issueKey: string, filesCount: int) returns (ok: bool)
      requires Valid()
      modifies this`cached, this`initialized, this`lookups, this`attempts
      ensures Valid()
      ensures ok == Sent("commit", CommitMessage(branch, issueKey, filesCount))
      ensures attempts == old(attempts)
                          + (if Reaches("commit") then [CommitMessage(branch, issueKey, filesCount)] else [])
    {
      var message := "Committed to `" + branch + "`";
      if issueKey != "" {
        message := message + " (" + issueKey + ")";
      }
      if filesCount != 0 {
        message := message + "\n" + IntToString(filesCount) + " files";
      }
      assert message == CommitMessage(branch, issueKey, filesCount);
      ok := Send("commit", message);
    }

    method SendSessionComplete(branchesCount: int, issuesCount: int) returns (ok: bool)
      requires Valid()
      modifies this`cached, this`initialized, this`lookups, this`attempts
      ensures Valid()
      ensures ok == Sent("session_complete", SessionMessage(branchesCount, issuesCount))
      ensures attempts == old(attempts)
                          + (if Reaches("session_complete") then [SessionMessage(branchesCount, issuesCount)] else [])
    {
      var message := "Session completed: " + IntToString(branchesCount) + " branches, "
                     + IntToString(issuesCount) + " issues";
      ok := Send("session_complete", message);
    }

    method SendQualityFailed(score: int, threshold: int) returns (ok: bool)
      requires Valid()
      modifies this`cached, this`initialized, this`lookups, this`attempts
      ensures Valid()
      ensures ok == Sent("quality_failed", QualityMessage(score, threshold))
      ensures attempts == old(attempts)
                          + (if Reaches("quality_failed") then [QualityMessage(score, threshold)] else [])
    {
      var message := "Quality check failed: " + IntToString(score) + "% (threshold: "
                     + IntToString(threshold) + "%)";
      ok := Send("quality_failed", message);
    }
  }

  /** The module-level `send_notification`: a fresh service sends one message.
      Its only delivery attempt is that message, made exactly when the event
      is enabled and an enabled integration exists. */
  method SendNotification(eventEnabled: string -> bool, registry: Option<Integration>, event: string, message: string)
    returns (ok: bool, attempted: seq<string>)
    ensures ok <==> eventEnabled(event) && registry.Some? && registry.value.enabled && registry.value.delivers(message)
    ensures attempted == if eventEnabled(event) && registry.Some? && registry.value.enabled then [message] else []
  {
    var service := new NotificationService(eventEnabled, registry);
    ok := service.Send(event, message);
    attempted := service.attempts;
  }
}
