/** Reference definitions for the change set that `GitOps.get_changes` and
    `GitOps.get_excluded_changes` enumerate: the three git sources merged in
    a fixed order into one stream of candidate entries, the first-occurrence
    de-duplication, and the sensitivity filters. */
module ChangeSet {

  type Path = string

  /** The status letters "U", "M", "A" and "D". */
  datatype Status = Untracked | Modified | Added | Deleted

  datatype Change = Change(file: Path, status: Status)

  /** One entry of `repo.index.diff(...)`. A missing path (`None`) and an
      empty path are both written "": Python's `or` treats them alike. */
  datatype DiffItem = DiffItem(aPath: Path, bPath: Path, newFile: bool, deletedFile: bool)

  /** `item.a_path or item.b_path`. */
  function ItemPath(d: DiffItem): Path
  {
    if d.aPath != "" then d.aPath else d.bPath
  }

  /** Status of an entry of the unstaged diff (working tree against index). */
  function UnstagedStatus(d: DiffItem): Status
  {
    if d.deletedFile then Deleted else Modified
  }

  /** Status of an entry of the staged diff (index against HEAD). */
  function StagedStatus(d: DiffItem): Status
  {
    if d.newFile then Added else if d.deletedFile then Deleted else Modified
  }

  function FromUntracked(fs: seq<Path>): seq<Change>
  {
    seq(|fs|, i requires 0 <= i < |fs| => Change(fs[i], Untracked))
  }

  function FromUnstaged(ds: seq<DiffItem>): seq<Change>
  {
    seq(|ds|, i requires 0 <= i < |ds| => Change(ItemPath(ds[i]), UnstagedStatus(ds[i])))
  }

  function FromStaged(ds: seq<DiffItem>): seq<Change>
  {
    seq(|ds|, i requires 0 <= i < |ds| => Change(ItemPath(ds[i]), StagedStatus(ds[i])))
  }

  /** Every classification the three sources offer, in the order they are
      consulted: untracked files, the unstaged diff, then the staged diff,
      which is consulted only when HEAD is valid. */
  function Candidates(untracked: seq<Path>, unstaged: seq<DiffItem>, staged: seq<DiffItem>,
                      headValid: bool): seq<Change>
  {
    FromUntracked(untracked) + FromUnstaged(unstaged) + (if headValid then FromStaged(staged) else [])
  }

  /** The set of paths a sequence of entries mentions. */
  function Paths(s: seq<Change>): set<Path>
  {
    set c | c in s :: c.file
  }

  /** The flagged paths a sequence of entries mentions. */
  function FlaggedPaths(s: seq<Change>, isExcluded: Path -> bool): set<Path>
    decreases |s|
  {
    if s == [] then {}
    else
      var init, last := s[..|s| - 1], s[|s| - 1];
      FlaggedPaths(init, isExcluded) + (if isExcluded(last.file) then {last.file} else {})
  }

  lemma {:induction false} FlaggedPathsIn(s: seq<Change>, isExcluded: Path -> bool, p: Path)
    ensures p in FlaggedPaths(s, isExcluded) <==> p in Paths(s) && isExcluded(p)
    decreases |s|
  {
    if s != [] {
      var init, last := s[..|s| - 1], s[|s| - 1];
      FlaggedPathsIn(init, isExcluded, p);
      assert s == init + [last];
      PathsSnoc(init, last);
    }
  }

  /** The paths of a sequence of entries, in order. */
  function Files(s: seq<Change>): (r: seq<Path>)
    ensures |r| == |s|
  {
    if s == [] then [] else Files(s[..|s| - 1]) + [s[|s| - 1].file]
  }

  lemma {:induction false} FilesAt(s: seq<Change>)
    ensures forall i :: 0 <= i < |s| ==> Files(s)[i] == s[i].file
    decreases |s|
  {
    if s != [] {
      FilesAt(s[..|s| - 1]);
    }
  }

  /** No two entries share a path. */
  predicate Distinct(s: seq<Change>)
  {
    forall i, j :: 0 <= i < j < |s| ==> s[i].file != s[j].file
  }

  /** `s` is `t` with some entries left out, the rest in their order. */
  predicate Subsequence(s: seq<Change>, t: seq<Change>)
    decreases |t|
  {
    if t == [] then s == []
    else
      var init, last := t[..|t| - 1], t[|t| - 1];
      Subsequence(s, init) || (s != [] && s[|s| - 1] == last && Subsequence(s[..|s| - 1], init))
  }

  /** The entries of `s` whose path is neither in `seen` nor on an earlier
      entry of `s`: the loop over a source with a `seen` set, with the
      sensitivity filter switched off. */
  function Fresh(s: seq<Change>, seen: set<Path>): (r: seq<Change>)
    decreases |s|
  {
    if s == [] then []
    else
      var init, last := s[..|s| - 1], s[|s| - 1];
      Fresh(init, seen) + (if last.file in seen + Paths(init) then [] else [last])
  }

  /** The entries the `include_excluded or not is_excluded(f)` test lets through. */
  function Visible(s: seq<Change>, includeExcluded: bool, isExcluded: Path -> bool): (r: seq<Change>)
    decreases |s|
  {
    if s == [] then []
    else
      var init, last := s[..|s| - 1], s[|s| - 1];
      Visible(init, includeExcluded, isExcluded)
        + (if includeExcluded || !isExcluded(last.file) then [last] else [])
  }

  /** The entries whose path the sensitivity predicate flags. */
  function Flagged(s: seq<Change>, isExcluded: Path -> bool): (r: seq<Change>)
    decreases |s|
  {
    if s == [] then []
    else
      var init, last := s[..|s| - 1], s[|s| - 1];
      Flagged(init, isExcluded) + (if isExcluded(last.file) then [last] else [])
  }

  /** The result of `get_changes(include_excluded)`. */
  function Changes(untracked: seq<Path>, unstaged: seq<DiffItem>, staged: seq<DiffItem>, headValid: bool,
                   includeExcluded: bool, isExcluded: Path -> bool): seq<Change>
  {
    Visible(Fresh(Candidates(untracked, unstaged, staged, headValid), {}), includeExcluded, isExcluded)
  }

  /** The result of `get_excluded_changes()`. */
  function ExcludedChanges(untracked: seq<Path>, unstaged: seq<DiffItem>, staged: seq<DiffItem>,
                           headValid: bool, isExcluded: Path -> bool): seq<Path>
  {
    Files(Flagged(Fresh(Candidates(untracked, unstaged, staged, headValid), {}), isExcluded))
  }

  /** The first entry of `s` that mentions path `p`. */
  function FirstWith(s: seq<Change>, p: Path): (c: Change)
    requires p in Paths(s)
  {
    if s[0].file == p then s[0] else FirstWith(s[1..], p)
  }

  // ---------------------------------------------------------------------
  // Facts about the building blocks
  // ---------------------------------------------------------------------

  lemma PathsAppend(a: seq<Change>, b: seq<Change>)
    ensures Paths(a + b) == Paths(a) + Paths(b)
  {
    assert forall c :: c in a + b <==> c in a || c in b;
  }

  /** De-duplication yields distinct paths, none of them already seen, and
      loses no path that was not already seen. */
  lemma {:induction false} FreshSound(s: seq<Change>, seen: set<Path>)
    ensures Distinct(Fresh(s, seen))
    ensures forall c :: c in Fresh(s, seen) ==> c in s && c.file !in seen
    ensures forall p :: p in Paths(Fresh(s, seen)) <==> p in Paths(s) && p !in seen
    decreases |s|
  {
    if s != [] {
      var init, last := s[..|s| - 1], s[|s| - 1];
      assert s == init + [last];
      FreshSound(init, seen);
      var f := Fresh(init, seen);
      PathsAppend(init, [last]);
      if last.file !in seen + Paths(init) {
        PathsAppend(f, [last]);
        forall i | 0 <= i < |f| ensures f[i].file != last.file {
          assert f[i] in f;
        }
      }
    }
  }

  lemma FreshStep(init: seq<Change>, last: Change, seen: set<Path>)
    ensures Fresh(init + [last], seen)
         == Fresh(init, seen) + (if last.file in seen + Paths(init) then [] else [last])
  {
    assert (init + [last])[..|init|] == init;
  }

  lemma VisibleStep(init: seq<Change>, last: Change, includeExcluded: bool, isExcluded: Path -> bool)
    ensures Visible(init + [last], includeExcluded, isExcluded)
         == Visible(init, includeExcluded, isExcluded)
            + (if includeExcluded || !isExcluded(last.file) then [last] else [])
  {
    assert (init + [last])[..|init|] == init;
  }

  lemma FlaggedStep(init: seq<Change>, last: Change, isExcluded: Path -> bool)
    ensures Flagged(init + [last], isExcluded)
         == Flagged(init, isExcluded) + (if isExcluded(last.file) then [last] else [])
  {
    assert (init + [last])[..|init|] == init;
  }

  lemma {:induction false} VisibleAppend(a: seq<Change>, b: seq<Change>, includeExcluded: bool,
                                         isExcluded: Path -> bool)
    ensures Visible(a + b, includeExcluded, isExcluded)
         == Visible(a, includeExcluded, isExcluded) + Visible(b, includeExcluded, isExcluded)
    decreases |b|
  {
    if b == [] {
      assert a + b == a;
    } else {
      var init, last := b[..|b| - 1], b[|b| - 1];
      assert a + b == (a + init) + [last];
      assert b == init + [last];
      VisibleAppend(a, init, includeExcluded, isExcluded);
      VisibleStep(a + init, last, includeExcluded, isExcluded);
      VisibleStep(init, last, includeExcluded, isExcluded);
    }
  }

  /** De-duplicating two streams in a row is de-duplicating the second with
      every path of the first already seen. */
  lemma {:induction false} FreshAppend(a: seq<Change>, b: seq<Change>, seen: set<Path>)
    ensures Fresh(a + b, seen) == Fresh(a, seen) + Fresh(b, seen + Paths(a))
    decreases |b|
  {
    if b == [] {
      assert a + b == a;
    } else {
      var init, last := b[..|b| - 1], b[|b| - 1];
      var seen' := seen + Paths(a);
      assert a + b == (a + init) + [last];
      assert b == init + [last];
      PathsAppend(a, init);
      var tail := if last.file in seen' + Paths(init) then [] else [last];
      calc {
        Fresh(a + b, seen);
        Fresh((a + init) + [last], seen);
        { FreshStep(a + init, last, seen); }
        Fresh(a + init, seen) + tail;
        { FreshAppend(a, init, seen); }
        Fresh(a, seen) + Fresh(init, seen') + tail;
        { FreshStep(init, last, seen'); }
        Fresh(a, seen) + Fresh(init + [last], seen');
      }
    }
  }

  /** With `include_excluded` set nothing is filtered. */
  lemma {:induction false} VisibleAll(s: seq<Change>, isExcluded: Path -> bool)
    ensures Visible(s, true, isExcluded) == s
    decreases |s|
  {
    if s != [] {
      VisibleAll(s[..|s| - 1], isExcluded);
    }
  }

  /** The visible entries are those of `s` that pass the filter, in order. */
  lemma {:induction false} VisibleMembers(s: seq<Change>, includeExcluded: bool, isExcluded: Path -> bool)
    ensures Subsequence(Visible(s, includeExcluded, isExcluded), s)
    ensures forall c :: c in Visible(s, includeExcluded, isExcluded)
                    <==> c in s && (includeExcluded || !isExcluded(c.file))
    decreases |s|
  {
    if s != [] {
      var init, last := s[..|s| - 1], s[|s| - 1];
      assert s == init + [last];
      VisibleMembers(init, includeExcluded, isExcluded);
      var v := Visible(init, includeExcluded, isExcluded);
      if includeExcluded || !isExcluded(last.file) {
        assert Visible(s, includeExcluded, isExcluded) == v + [last];
        assert (v + [last])[..|v|] == v;
      } else {
        assert Visible(s, includeExcluded, isExcluded) == v;
      }
    }
  }

  /** The flagged entries are those of `s` the predicate flags, in order. */
  lemma {:induction false} FlaggedMembers(s: seq<Change>, isExcluded: Path -> bool)
    ensures Subsequence(Flagged(s, isExcluded), s)
    ensures forall c :: c in Flagged(s, isExcluded) <==> c in s && isExcluded(c.file)
    decreases |s|
  {
    if s != [] {
      var init, last := s[..|s| - 1], s[|s| - 1];
      assert s == init + [last];
      FlaggedMembers(init, isExcluded);
      var v := Flagged(init, isExcluded);
      if isExcluded(last.file) {
        assert Flagged(s, isExcluded) == v + [last];
        assert (v + [last])[..|v|] == v;
      } else {
        assert Flagged(s, isExcluded) == v;
      }
    }
  }

  /** Filtering keeps paths distinct. */
  lemma {:induction false} VisibleDistinct(s: seq<Change>, includeExcluded: bool, isExcluded: Path -> bool)
    requires Distinct(s)
    ensures Distinct(Visible(s, includeExcluded, isExcluded))
    decreases |s|
  {
    if s != [] {
      var init, last := s[..|s| - 1], s[|s| - 1];
      VisibleDistinct(init, includeExcluded, isExcluded);
      VisibleMembers(init, includeExcluded, isExcluded);
      var v := Visible(init, includeExcluded, isExcluded);
      forall c | c in v ensures c.file != last.file {
        var k :| 0 <= k < |init| && init[k] == c;
        assert s[k] == c;
      }
    }
  }

  lemma {:induction false} FlaggedDistinct(s: seq<Change>, isExcluded: Path -> bool)
    requires Distinct(s)
    ensures Distinct(Flagged(s, isExcluded))
    decreases |s|
  {
    if s != [] {
      var init, last := s[..|s| - 1], s[|s| - 1];
      FlaggedDistinct(init, isExcluded);
      FlaggedMembers(init, isExcluded);
      var v := Flagged(init, isExcluded);
      forall c | c in v ensures c.file != last.file {
        var k :| 0 <= k < |init| && init[k] == c;
        assert s[k] == c;
      }
    }
  }

  /** Looking up the first entry for `p` is unaffected by later entries. */
  lemma {:induction false} FirstWithAppend(a: seq<Change>, b: seq<Change>, p: Path)
    requires p in Paths(a)
    ensures p in Paths(a + b) && FirstWith(a + b, p) == FirstWith(a, p)
    decreases |a|
  {
    PathsAppend(a, b);
    if a[0].file != p {
      assert (a + b)[1..] == a[1..] + b;
      assert p in Paths(a[1..]) by {
        var c :| c in a && c.file == p;
        var k :| 0 <= k < |a| && a[k] == c;
        assert a[1..][k - 1] == c;
      }
      FirstWithAppend(a[1..], b, p);
    }
  }

  /** The entry at the first position mentioning `p`. */
  lemma {:induction false} FirstWithLast(init: seq<Change>, last: Change)
    requires last.file !in Paths(init)
    ensures last.file in Paths(init + [last]) && FirstWith(init + [last], last.file) == last
    decreases |init|
  {
    if init != [] {
      assert (init + [last])[1..] == init[1..] + [last];
      assert init[0] in init;
      assert last.file !in Paths(init[1..]) by {
        forall c | c in init[1..] ensures c in init { }
      }
      FirstWithLast(init[1..], last);
    }
  }

  /** De-duplication keeps, for every path, the first entry that mentions it. */
  lemma {:induction false} FreshKeepsFirst(s: seq<Change>)
    ensures forall c :: c in Fresh(s, {}) ==> c.file in Paths(s) && c == FirstWith(s, c.file)
    decreases |s|
  {
    if s != [] {
      var init, last := s[..|s| - 1], s[|s| - 1];
      assert s == init + [last];
      FreshKeepsFirst(init);
      forall c | c in Fresh(s, {}) ensures c.file in Paths(s) && c == FirstWith(s, c.file) {
        if c in Fresh(init, {}) {
          FirstWithAppend(init, [last], c.file);
        } else {
          assert c == last && last.file !in Paths(init);
          FirstWithLast(init, last);
        }
      }
    }
  }

  lemma PathsSnoc(s: seq<Change>, c: Change)
    ensures Paths(s + [c]) == Paths(s) + {c.file}
  {
    PathsAppend(s, [c]);
    assert Paths([c]) == {c.file};
  }

  lemma VisibleFreshSnoc(pre: seq<Change>, c: Change, includeExcluded: bool, isExcluded: Path -> bool)
    ensures Visible(Fresh(pre + [c], {}), includeExcluded, isExcluded)
         == if c.file !in Paths(pre) && (includeExcluded || !isExcluded(c.file))
            then Visible(Fresh(pre, {}), includeExcluded, isExcluded) + [c]
            else Visible(Fresh(pre, {}), includeExcluded, isExcluded)
  {
    FreshStep(pre, c, {});
    var f := Fresh(pre, {});
    if c.file !in Paths(pre) {
      VisibleStep(f, c, includeExcluded, isExcluded);
    } else {
      assert f + [] == f;
    }
  }

  lemma FlaggedFreshSnoc(pre: seq<Change>, c: Change, isExcluded: Path -> bool)
    ensures Files(Flagged(Fresh(pre + [c], {}), isExcluded))
         == if c.file !in Paths(pre) && isExcluded(c.file)
            then Files(Flagged(Fresh(pre, {}), isExcluded)) + [c.file]
            else Files(Flagged(Fresh(pre, {}), isExcluded))
  {
    FreshStep(pre, c, {});
    var f := Fresh(pre, {});
    var fl := Flagged(f, isExcluded);
    if c.file !in Paths(pre) {
      FlaggedStep(f, c, isExcluded);
      if isExcluded(c.file) {
        assert (fl + [c])[..|fl|] == fl;
      } else {
        assert fl + [] == fl;
      }
    } else {
      assert f + [] == f;
    }
  }

  /** One step of the `get_changes` loops: the state after entry `k` of the
      candidate stream follows from the state before it. */
  lemma ChangesStep(scanned: seq<Change>, c: Change, includeExcluded: bool, isExcluded: Path -> bool,
                    seen: set<Path>, changes: seq<Change>)
    requires seen == Paths(scanned)
    requires changes == Visible(Fresh(scanned, {}), includeExcluded, isExcluded)
    ensures Paths(scanned + [c]) == seen + {c.file}
    ensures Visible(Fresh(scanned + [c], {}), includeExcluded, isExcluded)
         == if c.file !in seen && (includeExcluded || !isExcluded(c.file))
            then changes + [c] else changes
  {
    PathsSnoc(scanned, c);
    VisibleFreshSnoc(scanned, c, includeExcluded, isExcluded);
  }

  /** One step of the `get_excluded_changes` loops, whose `seen` set records
      flagged paths only. */
  lemma ExcludedStep(scanned: seq<Change>, c: Change, isExcluded: Path -> bool, seen: set<Path>, excluded: seq<Path>)
    requires seen == FlaggedPaths(scanned, isExcluded)
    requires excluded == Files(Flagged(Fresh(scanned, {}), isExcluded))
    ensures FlaggedPaths(scanned + [c], isExcluded)
            == (if c.file !in seen && isExcluded(c.file) then seen + {c.file} else seen)
    ensures Files(Flagged(Fresh(scanned + [c], {}), isExcluded))
            == if c.file !in seen && isExcluded(c.file) then excluded + [c.file] else excluded
  {
    assert (scanned + [c])[..|scanned|] == scanned;
    FlaggedPathsIn(scanned, isExcluded, c.file);
    FlaggedFreshSnoc(scanned, c, isExcluded);
  }

  // ---------------------------------------------------------------------
  // Properties of get_changes and get_excluded_changes
  // ---------------------------------------------------------------------

  /** `get_changes` never returns two entries for the same path. */
  lemma ChangesDistinct(untracked: seq<Path>, unstaged: seq<DiffItem>, staged: seq<DiffItem>,
                        headValid: bool, includeExcluded: bool, isExcluded: Path -> bool)
    ensures Distinct(Changes(untracked, unstaged, staged, headValid, includeExcluded, isExcluded))
  {
    FreshSound(Candidates(untracked, unstaged, staged, headValid), {});
    VisibleDistinct(Fresh(Candidates(untracked, unstaged, staged, headValid), {}), includeExcluded, isExcluded);
  }

  /** Without `include_excluded` no flagged path is returned; with it nothing
      is filtered. Either way exactly the candidate paths that pass the
      filter are returned. */
  lemma ChangesFiltering(untracked: seq<Path>, unstaged: seq<DiffItem>, staged: seq<DiffItem>,
                         headValid: bool, includeExcluded: bool, isExcluded: Path -> bool)
    ensures var r := Changes(untracked, unstaged, staged, headValid, includeExcluded, isExcluded);
            var cands := Candidates(untracked, unstaged, staged, headValid);
            && (!includeExcluded ==> forall c :: c in r ==> !isExcluded(c.file))
            && (includeExcluded ==> r == Fresh(cands, {}))
            && forall p :: p in Paths(r) <==> p in Paths(cands) && (includeExcluded || !isExcluded(p))
  {
    var cands := Candidates(untracked, unstaged, staged, headValid);
    var f := Fresh(cands, {});
    FreshSound(cands, {});
    VisibleMembers(f, includeExcluded, isExcluded);
    VisibleAll(f, isExcluded);
    var r := Visible(f, includeExcluded, isExcluded);
    forall p ensures p in Paths(r) <==> p in Paths(cands) && (includeExcluded || !isExcluded(p)) {
      if p in Paths(cands) && (includeExcluded || !isExcluded(p)) {
        assert p in Paths(f);
        var c :| c in f && c.file == p;
        assert c in r;
      }
    }
  }

  /** A path classified by an earlier source is never reclassified by a later
      one: every returned entry is the first candidate entry for its path. */
  lemma ChangesFirstClassificationWins(untracked: seq<Path>, unstaged: seq<DiffItem>, staged: seq<DiffItem>,
                                       headValid: bool, includeExcluded: bool, isExcluded: Path -> bool)
    ensures var cands := Candidates(untracked, unstaged, staged, headValid);
            forall c :: c in Changes(untracked, unstaged, staged, headValid, includeExcluded, isExcluded)
              ==> c.file in Paths(cands) && c == FirstWith(cands, c.file)
  {
    var cands := Candidates(untracked, unstaged, staged, headValid);
    FreshKeepsFirst(cands);
    VisibleMembers(Fresh(cands, {}), includeExcluded, isExcluded);
  }

  /** An untracked path is reported as untracked, whatever the diffs say. */
  lemma UntrackedWins(untracked: seq<Path>, unstaged: seq<DiffItem>, staged: seq<DiffItem>,
                      headValid: bool, includeExcluded: bool, isExcluded: Path -> bool, c: Change)
    requires c in Changes(untracked, unstaged, staged, headValid, includeExcluded, isExcluded)
    requires c.file in untracked
    ensures c == Change(c.file, Untracked)
  {
    var u := FromUntracked(untracked);
    var rest := FromUnstaged(unstaged) + (if headValid then FromStaged(staged) else []);
    var cands := Candidates(untracked, unstaged, staged, headValid);
    assert cands == u + rest;
    UntrackedFirst(untracked, c.file);
    FirstWithAppend(u, rest, c.file);
    ChangesFirstClassificationWins(untracked, unstaged, staged, headValid, includeExcluded, isExcluded);
  }

  lemma {:induction false} UntrackedFirst(untracked: seq<Path>, p: Path)
    requires p in untracked
    ensures p in Paths(FromUntracked(untracked)) && FirstWith(FromUntracked(untracked), p) == Change(p, Untracked)
    decreases |untracked|
  {
    var u := FromUntracked(untracked);
    assert u[0] in u;
    if untracked[0] != p {
      assert FromUntracked(untracked)[1..] == FromUntracked(untracked[1..]);
      UntrackedFirst(untracked[1..], p);
    }
  }

  /** The result lists the entries from untracked files first, then those from
      the unstaged diff, then those from the staged diff, each part in the
      order of its source and each part skipping paths an earlier part saw. */
  lemma ChangesInSourceOrder(untracked: seq<Path>, unstaged: seq<DiffItem>, staged: seq<DiffItem>,
                             headValid: bool, includeExcluded: bool, isExcluded: Path -> bool)
    ensures var u, m := FromUntracked(untracked), FromUnstaged(unstaged);
            var s := if headValid then FromStaged(staged) else [];
            Changes(untracked, unstaged, staged, headValid, includeExcluded, isExcluded)
            == Visible(Fresh(u, {}), includeExcluded, isExcluded)
             + Visible(Fresh(m, Paths(u)), includeExcluded, isExcluded)
             + Visible(Fresh(s, Paths(u) + Paths(m)), includeExcluded, isExcluded)
  {
    var u, m := FromUntracked(untracked), FromUnstaged(unstaged);
    var s := if headValid then FromStaged(staged) else [];
    FreshAppend(u + m, s, {});
    FreshAppend(u, m, {});
    PathsAppend(u, m);
    assert {} + Paths(u) == Paths(u);
    assert {} + Paths(u + m) == Paths(u) + Paths(m);
    VisibleAppend(Fresh(u, {}) + Fresh(m, Paths(u)), Fresh(s, Paths(u) + Paths(m)), includeExcluded, isExcluded);
    VisibleAppend(Fresh(u, {}), Fresh(m, Paths(u)), includeExcluded, isExcluded);
  }

  /** The excluded list and the filtered list split the unfiltered list:
      together they hold each of its paths exactly once. */
  lemma ExcludedSplitsChanges(untracked: seq<Path>, unstaged: seq<DiffItem>, staged: seq<DiffItem>,
                              headValid: bool, isExcluded: Path -> bool)
    ensures var all := Changes(untracked, unstaged, staged, headValid, true, isExcluded);
            var kept := Changes(untracked, unstaged, staged, headValid, false, isExcluded);
            var dropped := ExcludedChanges(untracked, unstaged, staged, headValid, isExcluded);
            && (forall p :: p in dropped ==> isExcluded(p))
            && (forall i, j :: 0 <= i < j < |dropped| ==> dropped[i] != dropped[j])
            && (forall p :: p in Paths(all) <==> p in Paths(kept) || p in dropped)
            && (forall p :: !(p in Paths(kept) && p in dropped))
            && |kept| + |dropped| == |all|
  {
    var f := Fresh(Candidates(untracked, unstaged, staged, headValid), {});
    FreshSound(Candidates(untracked, unstaged, staged, headValid), {});
    VisibleAll(f, isExcluded);
    VisibleMembers(f, false, isExcluded);
    FlaggedMembers(f, isExcluded);
    FlaggedDistinct(f, isExcluded);
    SplitCount(f, isExcluded);
    FilesOf(Flagged(f, isExcluded));
  }

  /** The listed paths are the paths of the entries, distinct when they are. */
  lemma FilesOf(s: seq<Change>)
    ensures forall p :: p in Files(s) <==> p in Paths(s)
    ensures Distinct(s) ==> forall i, j :: 0 <= i < j < |s| ==> Files(s)[i] != Files(s)[j]
  {
    FilesAt(s);
    forall p ensures p in Files(s) <==> p in Paths(s) {
      if p in Files(s) {
        var k :| 0 <= k < |s| && Files(s)[k] == p;
        assert s[k] in s;
      }
      if p in Paths(s) {
        var c :| c in s && c.file == p;
        var k :| 0 <= k < |s| && s[k] == c;
        assert Files(s)[k] == p;
      }
    }
  }

  lemma {:induction false} SplitCount(s: seq<Change>, isExcluded: Path -> bool)
    ensures |Visible(s, false, isExcluded)| + |Flagged(s, isExcluded)| == |s|
    decreases |s|
  {
    if s != [] {
      SplitCount(s[..|s| - 1], isExcluded);
    }
  }

  /** When HEAD is invalid the staged diff contributes nothing. */
  lemma StagedIgnoredWithoutHead(untracked: seq<Path>, unstaged: seq<DiffItem>, staged: seq<DiffItem>,
                                 includeExcluded: bool, isExcluded: Path -> bool)
    ensures Changes(untracked, unstaged, staged, false, includeExcluded, isExcluded)
         == Changes(untracked, unstaged, [], true, includeExcluded, isExcluded)
  {
  }
}
