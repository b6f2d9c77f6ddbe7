/** The git layer of smart_commit: a `GitOps` object over one repository that
    enumerates changes, stages files while refusing sensitive paths, commits,
    and runs work on an isolated branch. The repository itself is abstract
    state (`Repo`); the git commands the layer issues are its methods. */
module GitOps {
  import opened ChangeSet

  /** Branch name assumed when HEAD is not valid (a repository without commits). */
  const UnbornBranch := "main"

  /** Message of the stash that `isolated_branch` pushes. */
  const TempStashMessage := "smart-commit temp"

  /** Suffix of the fallback branch name when creating the branch fails. */
  const FallbackSuffix := "-v2"

  /** A git command issued against the repository, in the order issued. */
  datatype Command =
    | StashPush(message: string)
    | CheckoutNew(branch: string)
    | Checkout(branch: string)
    | StashPop
    | RunBody

  datatype CommitRecord = CommitRecord(branch: string, message: string, files: set<Path>)

  /** How a bracketed body ended: normally, or with an exception that propagates. */
  datatype Exit = Normal | Raised

  /** The repository as the git layer sees it. `untracked`, `unstaged` and
      `staged` are what git reports (`untracked_files`, `index.diff(None)`,
      `index.diff("HEAD")`); `index` holds the paths added since the last
      commit; `onDisk` the paths that exist in the working directory.
      `refNameOk` says which new branch names git accepts (well formed, and
      clashing with no existing ref such as `feat` for `feat/x`);
      `popConflicts` whether applying the newest stash entry to the working
      tree conflicts. */
  class Repo {
    var untracked: seq<Path>
    var unstaged: seq<DiffItem>
    var staged: seq<DiffItem>
    var headValid: bool
    var onDisk: set<Path>
    var index: set<Path>
    var history: seq<CommitRecord>
    var activeBranch: string
    var branches: set<string>
    var refNameOk: string -> bool
    var stash: seq<string>
    var popConflicts: bool
    var log: seq<Command>

    /** `is_dirty(untracked_files=True)`: tracked changes or untracked files. */
    predicate Dirty()
      reads this`untracked, this`unstaged, this`staged, this`headValid
    {
      TrackedChanges() || untracked != []
    }

    /** Changes to tracked files, staged or not: what `git stash push`
        without `-u` saves. */
    predicate TrackedChanges()
      reads this`unstaged, this`staged, this`headValid
    {
      unstaged != [] || (headValid && staged != [])
    }

    /** `git stash push`: saves an entry, newest first, only when there are
        tracked changes; otherwise it saves nothing and still succeeds. */
    method PushStash(message: string) returns (created: bool)
      modifies this`stash, this`log
      ensures created == TrackedChanges()
      ensures stash == if created then [message] + old(stash) else old(stash)
      ensures log == old(log) + [StashPush(message)]
    {
      created := TrackedChanges();
      if created {
        stash := [message] + stash;
      }
      log := log + [StashPush(message)];
    }

    /** `git stash pop`: fails on an empty stash, and fails keeping the entry
        when applying it conflicts. */
    method PopStash() returns (ok: bool)
      modifies this`stash, this`log
      ensures ok == (old(stash) != [] && !popConflicts)
      ensures stash == if ok then old(stash)[1..] else old(stash)
      ensures log == old(log) + [StashPop]
    {
      ok := stash != [] && !popConflicts;
      if ok {
        stash := stash[1..];
      }
      log := log + [StashPop];
    }

    /** `git checkout -b name`: succeeds exactly when the branch does not
        exist yet and git accepts the name. */
    method CreateBranch(name: string) returns (ok: bool)
      modifies this`branches, this`activeBranch, this`log
      ensures ok == Creatable(old(branches), refNameOk, name)
      ensures branches == if ok then old(branches) + {name} else old(branches)
      ensures activeBranch == if ok then name else old(activeBranch)
      ensures log == old(log) + [CheckoutNew(name)]
    {
      ok := Creatable(branches, refNameOk, name);
      if ok {
        branches := branches + {name};
        activeBranch := name;
      }
      log := log + [CheckoutNew(name)];
    }

    /** `git checkout name`: fails when there is no such branch. */
    method SwitchBranch(name: string) returns (ok: bool)
      modifies this`activeBranch, this`log
      ensures ok == (name in branches)
      ensures activeBranch == if ok then name else old(activeBranch)
      ensures log == old(log) + [Checkout(name)]
    {
      ok := name in branches;
      if ok {
        activeBranch := name;
      }
      log := log + [Checkout(name)];
    }
  }

  /** Whether `git checkout -b b` succeeds. */
  predicate Creatable(branches: set<string>, refNameOk: string -> bool, b: string)
  {
    b !in branches && refNameOk(b)
  }

  /** The command `c` when `b` holds, nothing otherwise. */
  function When(b: bool, c: Command): seq<Command>
  {
    if b then [c] else []
  }

  /** The commands `isolated_branch` issues: stash if the tree is dirty, create
      the branch, or its fallback when that fails, run the body if a branch
      was created, then, whatever happened, check out the original branch and
      pop the stash if a push was issued. */
  function IsolationCommands(dirty: bool, firstFails: bool, secondFails: bool, name: string, original: string)
    : seq<Command>
  {
    When(dirty, StashPush(TempStashMessage))
    + [CheckoutNew(name)]
    + When(firstFails, CheckoutNew(name + FallbackSuffix))
    + When(!firstFails || !secondFails, RunBody)
    + [Checkout(original)]
    + When(dirty, StashPop)
  }

  /** The bracket's commands appended one at a time to an existing log. */
  lemma IsolationLog(log: seq<Command>, dirty: bool, firstFails: bool, secondFails: bool, name: string, original: string)
    ensures log + IsolationCommands(dirty, firstFails, secondFails, name, original)
         == log + When(dirty, StashPush(TempStashMessage))
          + ([CheckoutNew(name)] + When(firstFails, CheckoutNew(name + FallbackSuffix)))
          + When(!firstFails || !secondFails, RunBody)
          + ([Checkout(original)] + When(dirty, StashPop))
  {
  }

  /** How many times `c` occurs in `cmds`. */
  function Count(cmds: seq<Command>, c: Command): nat
  {
    if cmds == [] then 0 else (if cmds[0] == c then 1 else 0) + Count(cmds[1..], c)
  }

  lemma {:induction false} CountAppend(a: seq<Command>, b: seq<Command>, c: Command)
    ensures Count(a + b, c) == Count(a, c) + Count(b, c)
    decreases |a|
  {
    if a == [] {
      assert a + b == b;
    } else {
      assert (a + b)[1..] == a[1..] + b;
      CountAppend(a[1..], b, c);
    }
  }

  lemma CountBracket(dirty: bool, firstFails: bool, secondFails: bool, name: string, original: string, c: Command)
    ensures Count(IsolationCommands(dirty, firstFails, secondFails, name, original), c)
         == Count(When(dirty, StashPush(TempStashMessage)), c) + Count([CheckoutNew(name)], c)
          + Count(When(firstFails, CheckoutNew(name + FallbackSuffix)), c)
          + Count(When(!firstFails || !secondFails, RunBody), c)
          + Count([Checkout(original)], c) + Count(When(dirty, StashPop), c)
  {
    var w1 := When(dirty, StashPush(TempStashMessage));
    var w2 := When(firstFails, CheckoutNew(name + FallbackSuffix));
    var w3 := When(!firstFails || !secondFails, RunBody);
    var w4 := When(dirty, StashPop);
    CountAppend(w1, [CheckoutNew(name)], c);
    CountAppend(w1 + [CheckoutNew(name)], w2, c);
    CountAppend(w1 + [CheckoutNew(name)] + w2, w3, c);
    CountAppend(w1 + [CheckoutNew(name)] + w2 + w3, [Checkout(original)], c);
    CountAppend(w1 + [CheckoutNew(name)] + w2 + w3 + [Checkout(original)], w4, c);
  }

  /** The bracket's commands are balanced: it issues a stash push exactly
      when the tree is dirty, a pop exactly as often as a push, and runs the
      body at most once. (Whether the push saved an entry is `BracketStash`'s
      concern.) */
  lemma IsolationBalanced(dirty: bool, firstFails: bool, secondFails: bool, name: string, original: string)
    ensures var cmds := IsolationCommands(dirty, firstFails, secondFails, name, original);
            && Count(cmds, StashPush(TempStashMessage)) == Count(cmds, StashPop) == (if dirty then 1 else 0)
            && Count(cmds, RunBody) <= 1
  {
    CountBracket(dirty, firstFails, secondFails, name, original, StashPush(TempStashMessage));
    CountBracket(dirty, firstFails, secondFails, name, original, StashPop);
    CountBracket(dirty, firstFails, secondFails, name, original, RunBody);
  }

  /** Whatever happens, the bracket ends by checking out the original branch,
      followed by nothing but the stash pop, and the body never runs after
      that checkout. */
  lemma IsolationRestores(dirty: bool, firstFails: bool, secondFails: bool, name: string, original: string)
    ensures var cmds := IsolationCommands(dirty, firstFails, secondFails, name, original);
            exists k :: 0 <= k < |cmds| && cmds[k] == Checkout(original)
                  && cmds[k + 1..] == When(dirty, StashPop)
                  && RunBody !in cmds[k..]
  {
    var cmds := IsolationCommands(dirty, firstFails, secondFails, name, original);
    var pop := When(dirty, StashPop);
    var k := |cmds| - 1 - |pop|;
    assert cmds == cmds[..k] + [Checkout(original)] + pop;
    assert cmds[k] == Checkout(original);
    assert cmds[k + 1..] == pop;
    assert cmds[k..] == [Checkout(original)] + pop;
  }

  /** The stash after the bracket, from stash `s`: `created` says whether the
      push saved an entry, `popped` whether a pop is issued, `conflicts`
      whether that pop conflicts (and so fails, keeping the entry). */
  function BracketStash(s: seq<string>, created: bool, popped: bool, conflicts: bool): seq<string>
  {
    var pushed := if created then [TempStashMessage] + s else s;
    if popped && pushed != [] && !conflicts then pushed[1..] else pushed
  }

  /** The stash the bracket leaves, case by case, for a tree that is
      `dirty` and has `trackedChanges`: a clean tree or a conflicting pop
      leaves what the push left; tracked changes and a clean pop give back
      the stash it started from; untracked files alone make the pop drop the
      newest entry that was already there. */
  lemma BracketStashCases(s: seq<string>, dirty: bool, trackedChanges: bool, conflicts: bool)
    requires trackedChanges ==> dirty
    ensures var r := BracketStash(s, dirty && trackedChanges, dirty, conflicts);
            && (!dirty ==> r == s)
            && (trackedChanges && !conflicts ==> r == s)
            && (trackedChanges && conflicts ==> r == [TempStashMessage] + s)
            && (dirty && !trackedChanges ==> r == if s != [] && !conflicts then s[1..] else s)
  {
  }

  /** As written, a tree that is dirty only through untracked files makes the
      push save nothing, yet `had_stash` is set and the pop drops the newest
      entry already there, one the bracket never saved: with the stash
      `["wip"]` the bracket ends with an empty stash. */
  lemma UntrackedOnlyPopsForeignEntry(s: seq<string>)
    requires s != []
    ensures BracketStash(s, false, true, false) == s[1..] != s
    ensures BracketStash(["wip"], false, true, false) == []
  {
  }

  /** The evidently intended bracket: `had_stash` records whether the push
      saved an entry, so the pop is issued only for the bracket's own entry. */
  function IntendedBracketStash(s: seq<string>, dirty: bool, trackedChanges: bool, conflicts: bool): seq<string>
  {
    BracketStash(s, dirty && trackedChanges, dirty && trackedChanges, conflicts)
  }

  /** The intended bracket restores the stash it started from unless its own
      pop conflicts, and then it keeps its own entry on top of it; it never
      loses an entry it did not save. */
  lemma IntendedStashRestored(s: seq<string>, dirty: bool, trackedChanges: bool, conflicts: bool)
    ensures !conflicts ==> IntendedBracketStash(s, dirty, trackedChanges, conflicts) == s
    ensures conflicts ==> IntendedBracketStash(s, dirty, trackedChanges, conflicts)
                          == (if dirty && trackedChanges then [TempStashMessage] + s else s)
    ensures IsSuffixOf(s, IntendedBracketStash(s, dirty, trackedChanges, conflicts))
  {
  }

  /** `s` is what remains of `t` below its newest entries. */
  predicate IsSuffixOf(s: seq<string>, t: seq<string>)
  {
    |s| <= |t| && t[|t| - |s|..] == s
  }

  /** The input paths `stage_files` stages: not sensitive and present on disk. */
  function Stageable(files: seq<Path>, isExcluded: Path -> bool, onDisk: set<Path>): seq<Path>
  {
    if files == [] then []
    else
      var init, f := files[..|files| - 1], files[|files| - 1];
      Stageable(init, isExcluded, onDisk) + (if !isExcluded(f) && f in onDisk then [f] else [])
  }

  /** The input paths `stage_files` refuses as sensitive. */
  function Refused(files: seq<Path>, isExcluded: Path -> bool): seq<Path>
  {
    if files == [] then []
    else
      var init, f := files[..|files| - 1], files[|files| - 1];
      Refused(init, isExcluded) + (if isExcluded(f) then [f] else [])
  }

  /** The input paths `stage_files` drops silently: not sensitive, not on disk. */
  function Dropped(files: seq<Path>, isExcluded: Path -> bool, onDisk: set<Path>): seq<Path>
  {
    if files == [] then []
    else
      var init, f := files[..|files| - 1], files[|files| - 1];
      Dropped(init, isExcluded, onDisk) + (if !isExcluded(f) && f !in onDisk then [f] else [])
  }

  /** Every input path lands in exactly one of the three outcomes, in input
      order: refused when sensitive, staged when present, dropped otherwise. */
  lemma {:induction false} StagePartition(files: seq<Path>, isExcluded: Path -> bool, onDisk: set<Path>)
    ensures var staged, refused, dropped :=
              Stageable(files, isExcluded, onDisk), Refused(files, isExcluded), Dropped(files, isExcluded, onDisk);
            && |staged| + |refused| + |dropped| == |files|
            && (forall p :: p in refused <==> p in files && isExcluded(p))
            && (forall p :: p in staged <==> p in files && !isExcluded(p) && p in onDisk)
            && (forall p :: p in dropped <==> p in files && !isExcluded(p) && p !in onDisk)
    decreases |files|
  {
    if files != [] {
      var init := files[..|files| - 1];
      assert files == init + [files[|files| - 1]];
      StagePartition(init, isExcluded, onDisk);
    }
  }

  class GitOps {
    const repo: Repo
    /** `original_branch`: the branch every isolated run returns to. */
    const originalBranch: string
    /** The sensitivity predicate `is_excluded`, fixed for a run. */
    const isExcluded: Path -> bool

    constructor (repo: Repo, isExcluded: Path -> bool)
      ensures this.repo == repo && this.isExcluded == isExcluded
      ensures originalBranch == if repo.headValid then repo.activeBranch else UnbornBranch
    {
      this.repo := repo;
      this.isExcluded := isExcluded;
      originalBranch := if repo.headValid then repo.activeBranch else UnbornBranch;
    }

    /** One step of `get_changes`: a path not seen before is marked seen
        and, unless the filter drops it, reported with its status. */
    method Visit(cs: seq<Change>, i: nat, includeExcluded: bool, seen0: set<Path>, changes0: seq<Change>,
                 ghost scanned: seq<Change>)
      returns (seen: set<Path>, changes: seq<Change>)
      requires i < |cs|
      requires seen0 == Paths(scanned + cs[..i])
      requires changes0 == Visible(Fresh(scanned + cs[..i], {}), includeExcluded, isExcluded)
      ensures seen == Paths(scanned + cs[..i + 1])
      ensures changes == Visible(Fresh(scanned + cs[..i + 1], {}), includeExcluded, isExcluded)
    {
      var c := cs[i];
      assert scanned + cs[..i + 1] == (scanned + cs[..i]) + [c];
      ChangesStep(scanned + cs[..i], c, includeExcluded, isExcluded, seen0, changes0);
      seen, changes := seen0, changes0;
      if c.file !in seen {
        seen := seen + {c.file};
        if includeExcluded || !isExcluded(c.file) {
          changes := changes + [c];
        }
      }
    }

    /** The loop `get_changes` runs over each source: a path not seen before
        is marked seen and, unless the filter drops it, reported with its
        status. `scanned` stands for the entries of the earlier sources. */
    method VisitAll(cs: seq<Change>, includeExcluded: bool, seen0: set<Path>, changes0: seq<Change>,
                    ghost scanned: seq<Change>)
      returns (seen: set<Path>, changes: seq<Change>)
      requires seen0 == Paths(scanned)
      requires changes0 == Visible(Fresh(scanned, {}), includeExcluded, isExcluded)
      ensures seen == Paths(scanned + cs)
      ensures changes == Visible(Fresh(scanned + cs, {}), includeExcluded, isExcluded)
    {
      seen, changes := seen0, changes0;
      assert scanned + cs[..0] == scanned;
      for i := 0 to |cs|
        invariant seen == Paths(scanned + cs[..i])
        invariant changes == Visible(Fresh(scanned + cs[..i], {}), includeExcluded, isExcluded)
      {
        seen, changes := Visit(cs, i, includeExcluded, seen, changes, scanned);
      }
      assert cs[..|cs|] == cs;
    }

    /** `get_changes(include_excluded)`: one pass per source with a shared
        `seen` set (untracked files, the unstaged diff, then the staged diff
        when HEAD is valid), the filter applied after a path is marked seen. */
    method GetChanges(includeExcluded: bool) returns (changes: seq<Change>)
      ensures changes == Changes(repo.untracked, repo.unstaged, repo.staged, repo.headValid,
                                 includeExcluded, isExcluded)
    {
      var seen: set<Path>;
      var untracked := FromUntracked(repo.untracked);
      var unstaged := FromUnstaged(repo.unstaged);
      seen, changes := VisitAll(untracked, includeExcluded, {}, [], []);
      assert [] + untracked == untracked;
      seen, changes := VisitAll(unstaged, includeExcluded, seen, changes, untracked);
      if repo.headValid {
        seen, changes := VisitAll(FromStaged(repo.staged), includeExcluded, seen, changes, untracked + unstaged);
      } else {
        assert untracked + unstaged + [] == untracked + unstaged;
      }
    }

    /** One step of `get_excluded_changes`: a flagged path not seen before
        is marked seen and reported. */
    method VisitExcluded(cs: seq<Change>, i: nat, seen0: set<Path>, excluded0: seq<Path>, ghost scanned: seq<Change>)
      returns (seen: set<Path>, excluded: seq<Path>)
      requires i < |cs|
      requires seen0 == FlaggedPaths(scanned + cs[..i], isExcluded)
      requires excluded0 == Files(Flagged(Fresh(scanned + cs[..i], {}), isExcluded))
      ensures seen == FlaggedPaths(scanned + cs[..i + 1], isExcluded)
      ensures excluded == Files(Flagged(Fresh(scanned + cs[..i + 1], {}), isExcluded))
    {
      var c := cs[i];
      assert scanned + cs[..i + 1] == (scanned + cs[..i]) + [c];
      ExcludedStep(scanned + cs[..i], c, isExcluded, seen0, excluded0);
      seen, excluded := seen0, excluded0;
      if c.file !in seen && isExcluded(c.file) {
        seen := seen + {c.file};
        excluded := excluded + [c.file];
      }
    }

    /** The loop `get_excluded_changes` runs over each source: a flagged path
        not seen before is marked seen and reported. */
    method VisitExcludedAll(cs: seq<Change>, seen0: set<Path>, excluded0: seq<Path>, ghost scanned: seq<Change>)
      returns (seen: set<Path>, excluded: seq<Path>)
      requires seen0 == FlaggedPaths(scanned, isExcluded)
      requires excluded0 == Files(Flagged(Fresh(scanned, {}), isExcluded))
      ensures seen == FlaggedPaths(scanned + cs, isExcluded)
      ensures excluded == Files(Flagged(Fresh(scanned + cs, {}), isExcluded))
    {
      seen, excluded := seen0, excluded0;
      assert scanned + cs[..0] == scanned;
      for i := 0 to |cs|
        invariant seen == FlaggedPaths(scanned + cs[..i], isExcluded)
        invariant excluded == Files(Flagged(Fresh(scanned + cs[..i], {}), isExcluded))
      {
        seen, excluded := VisitExcluded(cs, i, seen, excluded, scanned);
      }
      assert cs[..|cs|] == cs;
    }

    /** `get_excluded_changes()`: the same three passes, keeping only the
        flagged paths; its `seen` set records flagged paths only. */
    method GetExcludedChanges() returns (excluded: seq<Path>)
      ensures excluded == ExcludedChanges(repo.untracked, repo.unstaged, repo.staged, repo.headValid, isExcluded)
    {
      var seen: set<Path>;
      var untracked := FromUntracked(repo.untracked);
      var unstaged := FromUnstaged(repo.unstaged);
      seen, excluded := VisitExcludedAll(untracked, {}, [], []);
      assert [] + untracked == untracked;
      seen, excluded := VisitExcludedAll(unstaged, seen, excluded, untracked);
      if repo.headValid {
        seen, excluded := VisitExcludedAll(FromStaged(repo.staged), seen, excluded, untracked + unstaged);
      } else {
        assert untracked + unstaged + [] == untracked + unstaged;
      }
    }

    /** `isolated_branch(name)` around a body that may raise: a stash push
        is issued only for a dirty tree; the branch, or `name-v2` when that
        fails, is created; the body runs only if a branch was created; and on
        every exit path the original branch is checked out (a failure is
        ignored) and a pop is issued if a push was. */
    method IsolatedBranch(name: string, bodyRaises: bool) returns (exit: Exit)
      modifies repo`stash, repo`log, repo`branches, repo`activeBranch
      ensures var first, second := Creatable(old(repo.branches), repo.refNameOk, name),
                                   Creatable(old(repo.branches), repo.refNameOk, name + FallbackSuffix);
              && repo.log == old(repo.log) + IsolationCommands(repo.Dirty(), !first, !second, name, originalBranch)
              && repo.branches == old(repo.branches) + (if first then {name} else if second then {name + FallbackSuffix} else {})
              && repo.activeBranch == (if originalBranch in repo.branches then originalBranch
                                       else if first then name
                                       else if second then name + FallbackSuffix
                                       else old(repo.activeBranch))
              && (exit == Raised <==> bodyRaises || (!first && !second))
      ensures repo.stash == BracketStash(old(repo.stash), repo.Dirty() && repo.TrackedChanges(), repo.Dirty(), repo.popConflicts)
    {
      ghost var dirty, first, second := repo.Dirty(), Creatable(repo.branches, repo.refNameOk, name),
                                        Creatable(repo.branches, repo.refNameOk, name + FallbackSuffix);
      IsolationLog(repo.log, dirty, !first, !second, name, originalBranch);
      var hadStash := SaveWork();
      var created := EnterBranch(name);
      ghost var entered := repo.log;
      if created {
        // The body of the `with` block.
        repo.log := repo.log + [RunBody];
        exit := if bodyRaises then Raised else Normal;
      } else {
        // The fallback checkout raised inside the `try`: the `finally` still runs.
        exit := Raised;
        assert entered + [] == entered;
      }
      assert repo.log == entered + When(first || second, RunBody);
      Restore(hadStash);
    }

    /** The set-up of `isolated_branch`: a stash push when the tree is dirty;
        `hadStash` records that the push was issued, not whether it saved an
        entry. */
    method SaveWork() returns (hadStash: bool)
      modifies repo`stash, repo`log
      ensures hadStash == repo.Dirty()
      ensures repo.stash == if repo.Dirty() && repo.TrackedChanges() then [TempStashMessage] + old(repo.stash) else old(repo.stash)
      ensures repo.log == old(repo.log) + When(repo.Dirty(), StashPush(TempStashMessage))
    {
      hadStash := false;
      if repo.Dirty() {
        var _ := repo.PushStash(TempStashMessage);
        hadStash := true;
      }
    }

    /** The `finally` of `isolated_branch`: check out the original branch
        (a failure is ignored), then pop the stash if a push was issued (a
        failure is ignored). */
    method Restore(hadStash: bool)
      modifies repo`stash, repo`log, repo`activeBranch
      ensures repo.activeBranch == if originalBranch in repo.branches then originalBranch else old(repo.activeBranch)
      ensures repo.stash == BracketStash(old(repo.stash), false, hadStash, repo.popConflicts)
      ensures repo.log == old(repo.log) + ([Checkout(originalBranch)] + When(hadStash, StashPop))
    {
      var _ := repo.SwitchBranch(originalBranch);
      if hadStash {
        var _ := repo.PopStash();
      }
    }

    /** The `try` of `isolated_branch`: `checkout -b name`, and `name-v2`
        when that fails; `created` is false when both fail (the source then
        raises out of the `try`). */
    method EnterBranch(name: string) returns (created: bool)
      modifies repo`log, repo`branches, repo`activeBranch
      ensures var first, second := Creatable(old(repo.branches), repo.refNameOk, name),
                                   Creatable(old(repo.branches), repo.refNameOk, name + FallbackSuffix);
              && created == (first || second)
              && repo.log == old(repo.log) + ([CheckoutNew(name)] + When(!first, CheckoutNew(name + FallbackSuffix)))
              && repo.branches == old(repo.branches) + (if first then {name} else if second then {name + FallbackSuffix} else {})
              && repo.activeBranch == (if first then name else if second then name + FallbackSuffix else old(repo.activeBranch))
    {
      created := repo.CreateBranch(name);
      if !created {
        created := repo.CreateBranch(name + FallbackSuffix);
      }
    }

    /** `stage_files(files)`: sensitive paths are reported and never added;
        existing paths are added to the index; missing paths are skipped. */
    method StageFiles(files: seq<Path>) returns (staged: seq<Path>, excluded: seq<Path>)
      modifies repo`index
      ensures staged == Stageable(files, isExcluded, repo.onDisk)
      ensures excluded == Refused(files, isExcluded)
      ensures repo.index == old(repo.index) + set p | p in staged
      ensures forall p :: p in repo.index && p !in old(repo.index) ==> !isExcluded(p)
    {
      staged, excluded := [], [];
      for i := 0 to |files|
        invariant staged == Stageable(files[..i], isExcluded, repo.onDisk)
        invariant excluded == Refused(files[..i], isExcluded)
        invariant repo.index == old(repo.index) + set p | p in staged
        invariant forall p :: p in staged ==> !isExcluded(p)
      {
        var f := files[i];
        assert files[..i + 1] == files[..i] + [f];
        if isExcluded(f) {
          excluded := excluded + [f];
          continue;
        }
        if f in repo.onDisk {
          repo.index := repo.index + {f};
          staged := staged + [f];
        }
      }
      assert files[..|files|] == files;
    }

    /** `commit(message)`: the indexed paths become a commit on the active branch. */
    method Commit(message: string)
      modifies repo`history, repo`index
      ensures repo.history == old(repo.history) + [CommitRecord(repo.activeBranch, message, old(repo.index))]
      ensures repo.index == {}
    {
      repo.history := repo.history + [CommitRecord(repo.activeBranch, message, repo.index)];
      repo.index := {};
    }
  }
}
