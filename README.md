# smart_commit / RedGit core in Dafny

This project models three pieces of the smart_commit / RedGit command-line tools and proves properties of them.

- **The git layer (`GitOps`)** of smart_commit. It covers:
  - how the changed files of a repository are enumerated from three git sources (untracked files, the unstaged diff, and the staged diff when HEAD is valid), with a shared `seen` set and a sensitivity filter;
  - how the sensitive files among them are listed;
  - how files are staged while sensitive paths are refused;
  - how a commit records the index;
  - how work is bracketed on an isolated branch. The bracket stashes a dirty tree, creates the branch (or `<name>-v2`), runs the body, and on every exit path checks out the original branch and pops the stash.
- **The notification service** of RedGit. It covers:
  - the lazily loaded integration;
  - the guard chain of `send`, which checks the event switch, then whether an integration exists and is enabled, and treats a `send_message` that raises as not sent;
  - the message each `send_*` method composes.
- **The `rg config` decisions**:
  - `unset` walks a dot path down the nested configuration and deletes the final key. Python's `in` is applied to whatever value it meets: a key test on a dict, an element test on a list, a substring test on a string. `None`, booleans and integers raise `TypeError`, as does indexing or deleting through a list or string. Both failure kinds exit with code 1 and save nothing.
  - the not-found rule of `get`;
  - the scalar rendering of `_render_value`;
  - the defaults of the notifications view, where a missing switch counts as enabled.

## Modules

- `text.dfy` (`Text`): the Python string operations the core uses, with their laws:
  - `sep.join`;
  - `str.split` with a one-character separator;
  - the substring test `in`;
  - `str(n)` for integers.
- `changes.dfy` (`ChangeSet`): reference definitions of the change set.
  - the candidate stream of the three sources;
  - first-occurrence de-duplication (`Fresh`);
  - the `include_excluded` filter (`Visible`) and the sensitive selection (`Flagged`).
- `gitops.dfy` (`GitOps`):
  - `Repo`, the repository state, whose methods are the git commands the layer issues;
  - the `GitOps` class, whose methods are proved against the `ChangeSet` definitions and against the command sequence `IsolationCommands`.
- `option.dfy` (`Optional`): the `Option` type shared by the notification and configuration modules.
- `notifications.dfy` (`Notifications`): the message builders, the `NotificationService` class and the module-level `send_notification`.
- `config_cmd.dfy` (`ConfigCommands`):
  - the YAML `Value` type;
  - `RenderValue`, `GetCmd` and `NotificationsView`;
  - the `unset` specification (`Navigate`, `DeleteAt`, `Unset`);
  - the `ConfigFile` class whose `UnsetCmd` method runs the navigation loop.

Absent optional strings (`None`) and empty strings are both written `""`. Every test the source applies to them is a truthiness test, which treats the two alike.

## Model

| member | source | states |
|---|---|---|
| ChangeSet.ChangesDistinct | smart_commit/core/gitops.py:24-58 | `get_changes` never returns two entries for the same path |
| ChangeSet.ChangesFiltering | smart_commit/core/gitops.py:28-56 | without `include_excluded` no sensitive path is returned; with it the de-duplicated candidates are returned unfiltered; in both cases a path is returned iff some source reports it and it passes the filter |
| ChangeSet.ChangesFirstClassificationWins | smart_commit/core/gitops.py:27-56 | every returned entry is the first entry any source gives for its path, so a later source never reclassifies a path |
| ChangeSet.UntrackedWins | smart_commit/core/gitops.py:28-41 | a returned entry whose path is untracked has status "U", whatever the diffs say |
| ChangeSet.ChangesInSourceOrder | smart_commit/core/gitops.py:27-56 | the result is the untracked part, then the unstaged part, then the staged part, each in source order and skipping paths an earlier part saw |
| ChangeSet.ExcludedSplitsChanges | smart_commit/core/gitops.py:60-89 | the sensitive list holds only sensitive paths, each once; with the filtered list it covers the unfiltered list's paths, disjointly and with matching counts |
| ChangeSet.StagedIgnoredWithoutHead | smart_commit/core/gitops.py:44-45 | when HEAD is invalid the staged diff contributes nothing |
| GitOps.Repo.PushStash | smart_commit/core/gitops.py:96 | in this model `git stash push` without `-u` saves an entry on top of the stash exactly when there are tracked changes (unstaged, or staged against a valid HEAD), and otherwise leaves the stash alone; the command is logged either way |
| GitOps.Repo.PopStash | smart_commit/core/gitops.py:110 | in this model `git stash pop` fails on an empty stash or when applying the top entry conflicts (`popConflicts`), and then keeps the stash; otherwise it drops the top entry |
| GitOps.Repo.CreateBranch | smart_commit/core/gitops.py:99 | in this model `git checkout -b` fails exactly when the branch exists or git refuses the name (`refNameOk`, standing for git's ref-name and ref-clash rules), and then changes nothing; otherwise it creates the branch and switches to it |
| GitOps.Repo.SwitchBranch | smart_commit/core/gitops.py:105 | in this model `git checkout` fails exactly when the branch does not exist, and then changes nothing; otherwise it switches to it |
| GitOps.IsolationBalanced | smart_commit/core/gitops.py:93-112 | the bracket pushes the temporary stash exactly when the tree is dirty, pops exactly as often as it pushed, and runs the body at most once |
| GitOps.IsolationRestores | smart_commit/core/gitops.py:103-112 | the bracket always ends by checking out the original branch, followed only by the stash pop, and the body never runs after that checkout |
| GitOps.StagePartition | smart_commit/core/gitops.py:124-138 | every input path is refused (sensitive), staged (present on disk) or dropped (missing), exactly one of them, and the three counts add up to the input length |
| GitOps.GitOps.constructor | smart_commit/core/gitops.py:10-12 | the original branch is the active branch, or "main" when HEAD is invalid |
| GitOps.GitOps.Visit | smart_commit/core/gitops.py:29-32 | one loop step keeps `seen` equal to the paths scanned so far and `changes` equal to the filtered first occurrences so far |
| GitOps.GitOps.VisitAll | smart_commit/core/gitops.py:28-32 | one source loop extends both invariants over the whole source |
| GitOps.GitOps.GetChanges | smart_commit/core/gitops.py:14-58 | the result equals the reference change list `ChangeSet.Changes` of the three sources |
| GitOps.GitOps.VisitExcluded | smart_commit/core/gitops.py:70-72 | one loop step keeps `seen` equal to the sensitive paths scanned so far and `excluded` equal to their first occurrences |
| GitOps.GitOps.VisitExcludedAll | smart_commit/core/gitops.py:69-72 | one source loop extends both invariants over the whole source |
| GitOps.GitOps.GetExcludedChanges | smart_commit/core/gitops.py:60-89 | the result equals the reference list `ChangeSet.ExcludedChanges` |
| GitOps.GitOps.IsolatedBranch | smart_commit/core/gitops.py:91-112 | the commands issued are exactly `IsolationCommands` for the dirty flag and for which `checkout -b` fails; the branch created is the name, else `<name>-v2`, else none; the active branch is then the original one when it exists, else the branch created, else the one before; the stash is `BracketStash` of the old stash (see `BracketStashCases`); the run raises iff the body raises or both creations fail |
| GitOps.GitOps.SaveWork | smart_commit/core/gitops.py:95-97 | a push is issued and `had_stash` set exactly when the tree is dirty (untracked files count); the stash gains the temporary entry only when there are tracked changes |
| GitOps.GitOps.EnterBranch | smart_commit/core/gitops.py:98-101 | `checkout -b name`, then `name-v2` only if that failed; a branch is created iff one of the two is creatable, and it becomes active |
| GitOps.GitOps.Restore | smart_commit/core/gitops.py:103-112 | the original branch is checked out when it exists, a failure changing nothing; a pop is issued iff `had_stash`, dropping the top entry unless the stash is empty or the pop conflicts |
| GitOps.BracketStashCases | smart_commit/core/gitops.py:93-112 | the bracket leaves the stash unchanged for a clean tree, and for tracked changes with a clean pop; it leaves its own entry on top after a conflicting pop; with untracked files alone it drops the newest entry that was already there |
| GitOps.UntrackedOnlyPopsForeignEntry | smart_commit/core/gitops.py:95-97 | as written, when the push saves nothing but a pop is issued, a non-empty stash loses its newest entry: `["wip"]` becomes empty |
| GitOps.IntendedStashRestored | smart_commit/core/gitops.py:95-112 | when the pop is tied to an entry actually saved, the stash comes back unchanged unless that pop conflicts, when exactly the bracket's own entry stays on top; no earlier entry is ever lost |
| GitOps.GitOps.StageFiles | smart_commit/core/gitops.py:114-138 | the staged and refused lists are `Stageable` and `Refused` of the input; the index grows by exactly the staged paths, none of them sensitive |
| GitOps.GitOps.Commit | smart_commit/core/gitops.py:140-142 | the indexed paths become one new commit on the active branch and the index is emptied |
| Notifications.PushMessageParts | redgit/utils/notifications.py:89-91 | the push message starts with the branch line, has the issue line iff issues are given, and names every issue |
| Notifications.PrCreatedParts | redgit/utils/notifications.py:108-111 | the PR message ends with the URL on its own line and carries "(key)" right after the branch only when a key is given |
| Notifications.CiResultParts | redgit/utils/notifications.py:128-136 | the event is "ci_success" and the message reads "completed successfully" iff the status is "success"; the URL line is present iff a URL is |
| Notifications.IssueCompletedWording | redgit/utils/notifications.py:147-153 | one issue is named alone; several are counted first and all listed |
| Notifications.IssueCompletedCountReadsBack | redgit/utils/notifications.py:153 | the count at the head of a several-issues message determines the number of issues |
| Notifications.IssueCreatedCut | redgit/utils/notifications.py:169-171 | the summary line appears only for a non-empty summary and holds its first min(100, length) characters |
| Notifications.CommitMessageParts | redgit/utils/notifications.py:189-193 | the commit message starts with "Committed to `branch`"; it ends with " files" iff the file count is nonzero; with a key it continues with " (key)", and without one it ends there or continues with a newline |
| Notifications.SessionMessageInjective | redgit/utils/notifications.py:209 | distinct branch or issue counts give distinct session messages |
| Notifications.QualityMessageInjective | redgit/utils/notifications.py:220 | distinct scores or thresholds give distinct quality messages |
| Notifications.NotificationService.constructor | redgit/utils/notifications.py:21-31 | a new service has not loaded its integration and has attempted nothing |
| Notifications.NotificationService.Notification | redgit/utils/notifications.py:33-39 | the property returns the registry's integration and calls `get_notification` at most once per service |
| Notifications.NotificationService.Send | redgit/utils/notifications.py:53-75 | returns true iff the event is enabled, an enabled integration exists and delivery completes; the message reaches `send_message` exactly when the guards pass; a disabled event never loads the integration |
| Notifications.NotificationService.SendPush | redgit/utils/notifications.py:81-92 | sends `PushMessage` under "push" |
| Notifications.NotificationService.SendPrCreated | redgit/utils/notifications.py:94-112 | sends `PrCreatedMessage` under "pr_created" |
| Notifications.NotificationService.SendCiResult | redgit/utils/notifications.py:114-138 | sends `CiMessage` under `CiEvent(status)` |
| Notifications.NotificationService.SendIssueCompleted | redgit/utils/notifications.py:140-155 | an empty list returns false and changes nothing; otherwise sends `IssueCompletedMessage` under "issue_completed" |
| Notifications.NotificationService.SendIssueCreated | redgit/utils/notifications.py:157-173 | sends `IssueCreatedMessage` under "issue_created" |
| Notifications.NotificationService.SendCommit | redgit/utils/notifications.py:175-195 | sends `CommitMessage` under "commit" |
| Notifications.NotificationService.SendSessionComplete | redgit/utils/notifications.py:197-210 | sends `SessionMessage` under "session_complete" |
| Notifications.NotificationService.SendQualityFailed | redgit/utils/notifications.py:212-221 | sends `QualityMessage` under "quality_failed" |
| Notifications.SendNotification | redgit/utils/notifications.py:245-264 | a fresh service sends iff the event is enabled, an enabled integration exists and delivery completes, and attempts that one message only then |
| ConfigCommands.RenderDistinguishesScalars | redgit/commands/config.py:28-39 | null, true, false and every integer render differently |
| ConfigCommands.RenderIntReadsBack | redgit/commands/config.py:38-39 | an integer renders as a decimal numeral that reads back to it |
| ConfigCommands.GetNotFoundRule | redgit/commands/config.py:111-123 | `get` exits 1 iff the value is `None` (so a key set to null reads as not found); otherwise it exits 0 with the path and the rendered value |
| ConfigCommands.NotificationsView | redgit/commands/config.py:233-265 | a missing master switch, a missing events table and a missing event entry all count as enabled; present entries count by truthiness; an events entry that is not a mapping makes the view fail |
| ConfigCommands.UnsetFollowsPath | redgit/commands/config.py:157-175 | `unset` removes iff the whole dot path leads to a value, reports not found iff a key on it is missing, and fails otherwise |
| ConfigCommands.UnsetMissingIntermediate | redgit/commands/config.py:160-164 | a missing intermediate key makes `unset` report not found |
| ConfigCommands.UnsetRemovesOnlyPath | redgit/commands/config.py:168-171 | after a removal the path is gone, its parent holds exactly its old keys minus the final one, and every path branching off the removed one leads where it led before |
| ConfigCommands.ConfigFile.UnsetCmd | redgit/commands/config.py:149-175 | the loop's outcome is `Unset` of the loaded configuration and the split path; a removal is saved once, and not found or a failure leaves the file and its saves alone; the exit code is 0 only for a removal |

## Left out

- GitPython is not modelled. `untracked_files`, `index.diff`, `is_dirty`, the `stash`, `checkout` and `index.add` / `index.commit` calls appear only as the abstract state of `Repo` and its four command methods. Working-tree contents, stash contents and commit objects are not modelled.
- `is_excluded` (smart_commit/utils/security.py) is not part of this model. It is an uninterpreted predicate fixed per `GitOps` object.
- `Path(f).exists()` is membership in the `onDisk` set.
- A repository whose HEAD is detached is not modelled. GitPython raises on `active_branch` there; the constructor assumes a valid HEAD names a branch.
- GitOps.Repo leaves out these git failures: a `checkout` refused because local changes would be overwritten, and a `git stash push` that fails in a repository without commits (the bracket then raises before creating a branch). Which names git refuses, and whether a pop conflicts, are inputs (`refNameOk`, `popConflicts`), not derived from ref names or file contents.
- GitOps.Repo.TrackedChanges counts staged changes only against a valid HEAD, as the change enumeration does; in a repository without commits it therefore misses files that are only staged.
- GitOps.GitOps.IsolatedBranch makes three simplifications, to keep the bracket's control flow without modelling git internals:
  - it reduces the `with` body to a marker and a flag saying whether the body raises;
  - it assumes `git stash push` succeeds;
  - it reads `is_dirty` once.
- `send_message`'s failure is a predicate on the message. Any exception it raises counts as not sent, as the `except Exception` does.
- `ConfigManager.is_notification_enabled` is a predicate fixed per service. This covers `is_enabled` and the module-level `is_notification_enabled`, which only delegate to it. `get_notification` is the integration value it returns, and an integration object is always truthy.
- `ConfigManager.get_value`, `load`, `save` and `get_notifications_config` are not shown. Their results are inputs: `GetCmd`'s value, `ConfigFile.contents`, `ConfigFile.saves`, and `NotificationsView`'s settings.
- ConfigCommands.ConfigFile.UnsetCmd models the in-place `del current[final_key]` that reaches `config` through the `current` alias as `DeleteAt`, which rebuilds the maps along the path. Nested maps are values here, so aliasing is not modelled.
- YAML floats, non-string keys and other YAML types are not modelled. `yaml.dump` for lists and dicts is a parameter of `RenderValue`.
- Console output is not modelled: rich markup beyond the returned strings, the trees of `config_cmd`/`_build_tree`, the icons, and the `{event:20}` padding of the notifications view.
- The other `rg config` subcommands are not modelled: `set_cmd` (parsing lives in the config manager), `edit_cmd` (launches an editor), `list_cmd` (lists keys from the config manager), `reset_cmd` (interactive prompts, defaults not shown), and `path`/`yaml`.
- The Typer command wiring of smart_commit/cli.py and retgit/cli.py is not modelled.

## Findings

| source | as written | input that shows it | evidently intended | confidence | as-written member | corrected member |
|---|---|---|---|---|---|---|
| smart_commit/core/gitops.py:95-97 | `had_stash` is set after `git stash push --keep-index` whenever `is_dirty(untracked_files=True)` holds; without `-u` the push saves an entry only for tracked changes, yet the `finally` pops whenever `had_stash` is set | tracked files clean, one untracked file, the stash holding an earlier entry `wip`: the push saves nothing and the pop applies and drops `wip`, leaving the stash empty | pop only an entry the bracket saved (set `had_stash` only when the push created one, or push with `-u`), so the stash ends as it began | medium; not executed | GitOps.UntrackedOnlyPopsForeignEntry | GitOps.IntendedStashRestored |
