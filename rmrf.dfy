/** The program itself: parse the command line, list the directories to
    delete (each directory after everything below it), then delete them
    one by one while the progress bar advances, stopping at the first
    failure, and finish with the verdict line.

    Deleting one directory is the file system's business: `Disk` records
    which paths were handed to `DeleteDirectory` and which of them the
    call removed itself, and takes as given which paths fail to delete and
    with what error text. */
module Rmrf {
  import opened Wrappers
  import opened Strings
  import opened Terminal
  import opened ProgressBar
  import opened DirTree
  import opened Args

  /** The file system as `DeleteDirectory` sees it. */
  class Disk {
    /** The text of the working directory: a call of `DeleteDirectory` on
        a path with that text empties it but does not remove it. */
    const cwd: string
    /** The paths whose deletion throws, with the text of the exception. */
    const failures: map<Path, string>
    /** Every path handed to `DeleteDirectory`, in order. */
    var attempts: seq<Path>
    /** Every path a call removed at its end (its own `Directory.Delete`), in order. */
    var removed: seq<Path>

    constructor (cwd: string, failures: map<Path, string>)
      ensures this.cwd == cwd && this.failures == failures
      ensures attempts == [] && removed == []
    {
      this.cwd := cwd;
      this.failures := failures;
      attempts := [];
      removed := [];
    }

    /** `DeleteDirectory`: empties `path` and removes it unless its text is
        the working directory's; reports failure with the error. */
    method DeleteDirectory(path: Path) returns (ok: bool, e: Option<string>)
      modifies this
      ensures ok <==> e.None?
      ensures e == Outcome(failures, path)
      ensures attempts == old(attempts) + [path]
      ensures removed == old(removed) + (if ok && PathText(path) != cwd then [path] else [])
    {
      attempts := attempts + [path];
      e := Outcome(failures, path);
      ok := e.None?;
      if ok && PathText(path) != cwd {
        removed := removed + [path];
      } else {
        assert removed + [] == removed;
      }
    }
  }

  /** What deleting `p` yields: `None` when it succeeds, else the error. */
  function Outcome(failures: map<Path, string>, p: Path): Option<string> {
    if p in failures then Some(failures[p]) else None
  }

  /** The index of the first path whose deletion fails, `|paths|` when none does. */
  function FirstFailure(failures: map<Path, string>, paths: seq<Path>): (r: nat)
    ensures r <= |paths|
    ensures forall i :: 0 <= i < r ==> paths[i] !in failures
    ensures r < |paths| ==> paths[r] in failures
    decreases |paths|
  {
    if paths == [] then 0
    else if paths[0] in failures then 0
    else
      var r := 1 + FirstFailure(failures, paths[1..]);
      assert forall i :: 1 <= i < r ==> paths[i] == paths[1..][i - 1];
      r
  }

  /** The paths among `paths` whose text is not the working directory's, in order. */
  function Removable(cwd: string, paths: seq<Path>): seq<Path> {
    if paths == [] then []
    else
      var last := paths[|paths| - 1];
      Removable(cwd, paths[..|paths| - 1]) + (if PathText(last) != cwd then [last] else [])
  }

  /** The record of final removals holds every attempted path whose text
      is not the working directory's, and nothing else. */
  lemma {:induction false} RemovableMember(cwd: string, paths: seq<Path>, q: Path)
    ensures q in Removable(cwd, paths) <==> q in paths && PathText(q) != cwd
    decreases |paths|
  {
    if paths != [] {
      var init, last := paths[..|paths| - 1], paths[|paths| - 1];
      assert paths == init + [last];
      RemovableMember(cwd, init, q);
    }
  }

  /** Appending the removals of a run to a record adds no path whose text
      is the working directory's. */
  lemma KeepsWorkingDirectory(cwd: string, before: seq<Path>, paths: seq<Path>)
    ensures forall q {:trigger PathText(q)} :: PathText(q) == cwd ==> (q in before + Removable(cwd, paths) <==> q in before)
  {
    forall q | PathText(q) == cwd
      ensures q in before + Removable(cwd, paths) <==> q in before
    {
      RemovableMember(cwd, paths, q);
    }
  }

  /** One more path handed over, and removed unless its text is the
      working directory's. */
  lemma PrefixStep(cwd: string, attempts: seq<Path>, removed: seq<Path>, ps: seq<Path>, k: nat)
    requires k < |ps|
    ensures attempts + ps[..k] + [ps[k]] == attempts + ps[..k + 1]
    ensures removed + Removable(cwd, ps[..k]) + (if PathText(ps[k]) != cwd then [ps[k]] else []) ==
      removed + Removable(cwd, ps[..k + 1])
  {
    assert ps[..k + 1] == ps[..k] + [ps[k]];
    assert ps[..k + 1][..k] == ps[..k];
    Associative(removed, Removable(cwd, ps[..k]), if PathText(ps[k]) != cwd then [ps[k]] else []);
  }

  /** The bar state (fill index, percentage) after `done` of `total`
      deletions: the untouched state before the first. */
  function BarAt(w: int, total: int, done: int): (int, int)
    requires 0 <= done && (total > 0 || done == 0)
  {
    if done == 0 then (0, 0)
    else (CountProgress(w, done, total).1, CountProgress(w, done, total).0)
  }

  /** The bar states the loop passes through in the first `done`
      successful deletions, the untouched bar first. */
  function Trail(w: int, total: int, done: int): (r: seq<(int, int)>)
    requires 0 <= done <= total
    ensures |r| == done + 1 && r[done] == BarAt(w, total, done)
  {
    if done == 0 then [(0, 0)] else Trail(w, total, done - 1) + [BarAt(w, total, done)]
  }

  /** What consecutive `MoveDelta` calls through `states` write. */
  function Moves(w: int, states: seq<(int, int)>): seq<Token>
    requires |states| >= 1
  {
    if |states| == 1 then []
    else
      var n := |states|;
      Moves(w, states[..n - 1]) + DeltaTokens(w, states[n - 2].0, states[n - 2].1, states[n - 1].0, states[n - 1].1)
  }

  /** What the loop writes after the initial bar, for the first `done`
      successful deletions: one `MoveDelta` each. */
  function ProgressTokens(w: int, total: int, done: int): seq<Token>
    requires 0 <= done <= total
  {
    Moves(w, Trail(w, total, done))
  }

  /** One more successful deletion adds one `MoveDelta` from the previous
      bar state to the next. */
  lemma ProgressStep(w: int, total: int, done: int)
    requires 0 <= done < total
    ensures ProgressTokens(w, total, done + 1) == ProgressTokens(w, total, done) +
      DeltaTokens(w, BarAt(w, total, done).0, BarAt(w, total, done).1, BarAt(w, total, done + 1).0, BarAt(w, total, done + 1).1)
  {
    var t := Trail(w, total, done + 1);
    assert t[..done + 1] == Trail(w, total, done);
  }

  /** The closing `MoveDelta` to the full bar, issued only on success. */
  function FinishTokens(w: int, total: int, done: int, success: bool): seq<Token>
    requires 0 <= done <= total
  {
    if success then DeltaTokens(w, BarAt(w, total, done).0, BarAt(w, total, done).1, w - 1, 100)
    else []
  }

  /** Everything the deletion phase writes to the terminal. */
  function DeletionTokens(w: int, total: int, done: int, success: bool, e: Option<string>): seq<Token>
    requires 0 <= done <= total
  {
    InitialTokens(w) + ProgressTokens(w, total, done) + FinishTokens(w, total, done, success)
    + CompleteTokens(success, e)
  }

  /** The deletion phase of `Main`: draws the empty bar, deletes the
      listed directories, fills the bar when all went well, and writes
      the verdict. */
  method DeleteAll(sw: Stream, disk: Disk, flatDirs: seq<Path>)
    returns (success: bool, e: Option<string>, deleted: nat, bar: Bar)
    modifies sw, disk
    ensures deleted == FirstFailure(disk.failures, flatDirs)
    ensures success <==> deleted == |flatDirs|
    ensures e == if success then None else Outcome(disk.failures, flatDirs[deleted])
    ensures disk.attempts == old(disk.attempts) + flatDirs[..if success then deleted else deleted + 1]
    ensures disk.removed == old(disk.removed) + Removable(disk.cwd, flatDirs[..deleted])
    ensures forall q {:trigger PathText(q)} :: PathText(q) == disk.cwd ==> (q in disk.removed <==> q in old(disk.removed))
    ensures fresh(bar) && bar.Width == 30
    ensures (bar.Ind, bar.Pct) == if success then (bar.Width - 1, 100) else BarAt(bar.Width, |flatDirs|, deleted)
    ensures sw.written == old(sw.written) + DeletionTokens(bar.Width, |flatDirs|, deleted, success, e)
  {
    bar := CreateBar();
    DrawInitial(sw, bar);
    success, e, deleted := DeleteEach(sw, disk, bar, flatDirs);
    ghost var progressed := sw.written;
    ghost var finish := FinishTokens(bar.Width, |flatDirs|, deleted, success);
    if success {
      MoveDelta(sw, bar, bar.Width - 1, 100);
    }
    assert sw.written == progressed + finish;
    DrawComplete(sw, success, e);
    KeepsWorkingDirectory(disk.cwd, old(disk.removed), flatDirs[..deleted]);
    Associative5(old(sw.written), InitialTokens(bar.Width), ProgressTokens(bar.Width, |flatDirs|, deleted),
      FinishTokens(bar.Width, |flatDirs|, deleted, success), CompleteTokens(success, e));
  }

  /** The `foreach` loop of `Main`: deletes the listed directories in
      order, advancing the bar after each success, and stops at the first
      failure. */
  method DeleteEach(sw: Stream, disk: Disk, bar: Bar, flatDirs: seq<Path>)
    returns (success: bool, e: Option<string>, deleted: nat)
    requires bar.Ind == 0 && bar.Pct == 0
    modifies sw, disk, bar
    ensures deleted == FirstFailure(disk.failures, flatDirs)
    ensures success <==> deleted == |flatDirs|
    ensures e == if success then None else Outcome(disk.failures, flatDirs[deleted])
    ensures disk.attempts == old(disk.attempts) + flatDirs[..if success then deleted else deleted + 1]
    ensures disk.removed == old(disk.removed) + Removable(disk.cwd, flatDirs[..deleted])
    ensures bar.Width == old(bar.Width)
    ensures bar.Ind == BarAt(bar.Width, |flatDirs|, deleted).0 && bar.Pct == BarAt(bar.Width, |flatDirs|, deleted).1
    ensures sw.written == old(sw.written) + ProgressTokens(bar.Width, |flatDirs|, deleted)
  {
    success := true;
    e := None;
    deleted := 0;
    var total := |flatDirs|;
    var w := bar.Width;
    assert old(sw.written) + [] == old(sw.written);
    while deleted < total
      invariant deleted <= total
      invariant success && e == None
      invariant deleted <= FirstFailure(disk.failures, flatDirs)
      invariant disk.attempts == old(disk.attempts) + flatDirs[..deleted]
      invariant disk.removed == old(disk.removed) + Removable(disk.cwd, flatDirs[..deleted])
      invariant bar.Width == w && bar.Ind == BarAt(w, total, deleted).0 && bar.Pct == BarAt(w, total, deleted).1
      invariant sw.written == old(sw.written) + ProgressTokens(w, total, deleted)
    {
      success, e := DeleteNext(disk, flatDirs, deleted, old(disk.attempts), old(disk.removed));
      if !success {
        return;
      }
      deleted := Advance(sw, bar, deleted, total, old(sw.written));
    }
    assert flatDirs[..deleted] == flatDirs;
  }

  /** The start of the loop body: hands the next listed directory to
      `DeleteDirectory`, extending the record of attempts and removals. */
  method DeleteNext(disk: Disk, flatDirs: seq<Path>, deleted: nat, ghost attempts: seq<Path>, ghost removed: seq<Path>)
    returns (success: bool, e: Option<string>)
    requires deleted < |flatDirs|
    requires disk.attempts == attempts + flatDirs[..deleted]
    requires disk.removed == removed + Removable(disk.cwd, flatDirs[..deleted])
    modifies disk
    ensures success <==> e.None?
    ensures e == Outcome(disk.failures, flatDirs[deleted])
    ensures disk.attempts == attempts + flatDirs[..deleted + 1]
    ensures disk.removed == removed + Removable(disk.cwd, flatDirs[..if success then deleted + 1 else deleted])
  {
    var directory := flatDirs[deleted];
    success, e := disk.DeleteDirectory(directory);
    PrefixStep(disk.cwd, attempts, removed, flatDirs, deleted);
  }

  /** The end of the loop body after a success: counts the deletion and
      moves the bar to the state for the new count. */
  method Advance(sw: Stream, bar: Bar, deleted: nat, total: nat, ghost start: seq<Token>) returns (next: nat)
    requires deleted < total
    requires bar.Ind == BarAt(bar.Width, total, deleted).0 && bar.Pct == BarAt(bar.Width, total, deleted).1
    requires sw.written == start + ProgressTokens(bar.Width, total, deleted)
    modifies sw, bar
    ensures next == deleted + 1 && bar.Width == old(bar.Width)
    ensures bar.Ind == BarAt(bar.Width, total, next).0 && bar.Pct == BarAt(bar.Width, total, next).1
    ensures sw.written == start + ProgressTokens(bar.Width, total, next)
  {
    ProgressStep(bar.Width, total, deleted);
    Associative(start, ProgressTokens(bar.Width, total, deleted),
      DeltaTokens(bar.Width, bar.Ind, bar.Pct, BarAt(bar.Width, total, deleted + 1).0, BarAt(bar.Width, total, deleted + 1).1));
    next := deleted + 1;
    var (nextPct, nextInd) := CountProgress(bar.Width, next, total);
    MoveDelta(sw, bar, nextInd, nextPct);
  }

  /** The states never move the fill index backwards, and stay within
      the line and within 0..100%. */
  ghost predicate Forward(w: int, states: seq<(int, int)>) {
    (forall i :: 0 <= i < |states| ==> 0 <= states[i].0 <= w - 1 && 0 <= states[i].1 <= 100) &&
    (forall i :: 0 <= i < |states| - 1 ==> states[i].0 <= states[i + 1].0)
  }

  /** Moving through forward states from the bar of the first turns the
      line into the bar of the last, touching nothing right of the
      percentage, nor the cursor or the colour. */
  lemma {:induction false} MovesShows(s: Screen, w: int, states: seq<(int, int)>)
    requires w >= 2 && |states| >= 1 && Forward(w, states)
    requires Shows(s, w, states[0].0, states[0].1)
    ensures Shows(Run(s, Moves(w, states)), w, states[|states| - 1].0, states[|states| - 1].1)
    ensures SameOutside(s, Run(s, Moves(w, states)), 1, w + 6)
    decreases |states|
  {
    var n := |states|;
    if n > 1 {
      var init := states[..n - 1];
      var (ind, pct) := states[n - 2];
      var (nextInd, nextPct) := states[n - 1];
      assert Forward(w, init) && init[0] == states[0] && init[n - 2] == states[n - 2] by {
        assert forall i :: 0 <= i < n - 1 ==> init[i] == states[i];
      }
      MovesShows(s, w, init);
      var a := Moves(w, init);
      var d := DeltaTokens(w, ind, pct, nextInd, nextPct);
      assert Moves(w, states) == a + d;
      assert Shows(Run(s, a + d), w, nextInd, nextPct) && SameOutside(Run(s, a), Run(s, a + d), 1, w + 6) by {
        assert 0 <= ind <= nextInd <= w - 1 && 0 <= nextPct <= 100;
        RunAppend(s, a, d);
        MoveDeltaShows(Run(s, a), w, ind, pct, nextInd, nextPct);
      }
      SameOutsideTrans(s, Run(s, a), Run(s, a + d), 1, w + 6);
    }
  }

  /** The states of the loop start at the empty bar and move forward. */
  lemma {:induction false} TrailForward(w: int, total: int, done: int)
    requires w >= 1 && 0 <= done <= total
    ensures Trail(w, total, done)[0] == (0, 0)
    ensures Forward(w, Trail(w, total, done))
  {
    if done > 0 {
      TrailForward(w, total, done - 1);
      var t := Trail(w, total, done);
      assert t[..done] == Trail(w, total, done - 1);
      BarAtRange(w, total, done - 1, done);
      BarAtRange(w, total, done, done);
    }
  }

  /** Starting from the empty bar, the first `done` steps of the loop turn
      the line into the bar for `done` of `total` deletions, and touch
      nothing right of the percentage, nor the cursor or the colour. */
  lemma ProgressShows(s: Screen, w: int, total: int, done: int)
    requires w >= 2 && 0 <= done <= total
    requires Shows(s, w, 0, 0)
    ensures Shows(Run(s, ProgressTokens(w, total, done)), w, BarAt(w, total, done).0, BarAt(w, total, done).1)
    ensures SameOutside(s, Run(s, ProgressTokens(w, total, done)), 1, w + 6)
  {
    TrailForward(w, total, done);
    MovesShows(s, w, Trail(w, total, done));
  }

  /** The bar only moves forward, and stays within the line. */
  lemma BarAtRange(w: int, total: int, k1: int, k2: int)
    requires w >= 1 && 0 <= k1 <= k2 <= total
    ensures 0 <= BarAt(w, total, k1).0 <= BarAt(w, total, k2).0 <= w - 1
    ensures 0 <= BarAt(w, total, k1).1 <= BarAt(w, total, k2).1 <= 100
    ensures k2 == total > 0 ==> BarAt(w, total, k2) == (w - 1, 100)
  {
    if total > 0 {
      CountProgressRange(w, k1, k2, total);
      CountProgressRange(w, k2, total, total);
    }
  }

  lemma SameOutsideTrans(a: Screen, b: Screen, c: Screen, lo: int, hi: int)
    requires SameOutside(a, b, lo, hi) && SameOutside(b, c, lo, hi)
    ensures SameOutside(a, c, lo, hi)
  {
  }

  /** At the end of the deletion phase the line shows the full bar at 100%
      when every deletion succeeded, and the bar reached by the successful
      ones otherwise, with the cursor still hidden; then the verdict leaves
      the cursor visible and the colour at its default. */
  lemma DeletionScreen(s: Screen, w: int, total: int, done: int, success: bool, e: Option<string>)
    requires w >= 2 && 0 <= done <= total
    requires success ==> done == total
    ensures var r := Run(s, InitialTokens(w) + ProgressTokens(w, total, done) + FinishTokens(w, total, done, success));
      !r.cursorShown &&
      if success then Shows(r, w, w - 1, 100)
      else Shows(r, w, BarAt(w, total, done).0, BarAt(w, total, done).1)
    ensures Run(s, DeletionTokens(w, total, done, success, e)).cursorShown
    ensures Run(s, DeletionTokens(w, total, done, success, e)).sgr == "0"
  {
    var i, p := InitialTokens(w), ProgressTokens(w, total, done);
    var f, c := FinishTokens(w, total, done, success), CompleteTokens(success, e);
    ProgressScreen(s, w, total, done);
    RunAppend(s, i + p, f);
    if success {
      var ind, pct := BarAt(w, total, done).0, BarAt(w, total, done).1;
      BarAtRange(w, total, done, done);
      FinishScreen(Run(s, i + p), w, ind, pct);
    } else {
      assert i + p + f == i + p;
    }
    RunAppend(s, i + p + f, c);
    CompleteRestores(Run(s, i + p + f), success, e);
  }

  /** After the initial drawing and `done` steps of the loop the line shows
      the bar those steps reached, with the cursor hidden. */
  lemma ProgressScreen(s: Screen, w: int, total: int, done: int)
    requires w >= 2 && 0 <= done <= total
    ensures var r := Run(s, InitialTokens(w) + ProgressTokens(w, total, done));
      !r.cursorShown && Shows(r, w, BarAt(w, total, done).0, BarAt(w, total, done).1)
  {
    var i := InitialTokens(w);
    DrawInitialShows(s, w);
    ProgressShows(Run(s, i), w, total, done);
    RunAppend(s, i, ProgressTokens(w, total, done));
  }

  /** The closing `MoveDelta` of a complete run turns whatever bar the loop
      left into the full bar at 100%, and keeps the cursor hidden. */
  lemma FinishScreen(r: Screen, w: int, ind: int, pct: int)
    requires w >= 2 && 0 <= ind <= w - 1
    requires !r.cursorShown && Shows(r, w, ind, pct)
    ensures var r2 := Run(r, DeltaTokens(w, ind, pct, w - 1, 100));
      !r2.cursorShown && Shows(r2, w, w - 1, 100)
  {
    MoveDeltaShows(r, w, ind, pct, w - 1, 100);
  }

  /** When every deletion succeeds, the last step of the loop has already
      drawn the full bar, so the closing `MoveDelta` writes nothing; with
      nothing to delete, it is that closing move that fills the bar. */
  lemma FinishAfterAll(w: int, total: int)
    requires w >= 2 && total >= 0
    ensures total > 0 ==> FinishTokens(w, total, total, true) == []
    ensures total == 0 ==> FinishTokens(w, total, total, true) == DeltaTokens(w, 0, 0, w - 1, 100) != []
  {
    if total > 0 {
      CountProgressRange(w, total, total, total);
    }
  }

  /** `Main` after the encoding is set: parses the command line (stopping
      when it is rejected), writes "Analyzing...", lists the directories to
      delete below the chosen path (`tree` gives the directory tree found
      at a path) and runs the deletion phase. `ran` is false when `Main`
      returns or throws before the bar is drawn. */
  method Execute(args: seq<string>, cwd: string, tree: string -> Dir, disk: Disk, sw: Stream)
    returns (ran: bool)
    requires disk.cwd == cwd
    modifies sw, disk
    ensures !ran ==> unchanged(disk)
    ensures Parse(cwd, args).None? ==> !ran && sw.written == old(sw.written)
    ensures Parse(cwd, args).Some? && Parse(cwd, args).value.Include.None? ==> ran
    ensures Parse(cwd, args).Some? && WellFormed(tree(Parse(cwd, args).value.Path)) ==> ran
    ensures forall q {:trigger PathText(q)} :: PathText(q) == cwd ==> (q in disk.removed <==> q in old(disk.removed))
    ensures ran ==>
      var a := Parse(cwd, args).value;
      var fs := tree(a.Path);
      AllFound(fs, [a.Path], Targets(fs, a)) &&
      var flat := Flatten(fs, [a.Path], Targets(fs, a));
      var done := FirstFailure(disk.failures, flat);
      var success := done == |flat|;
      disk.attempts == old(disk.attempts) + flat[..if success then done else done + 1] &&
      disk.removed == old(disk.removed) + Removable(disk.cwd, flat[..done]) &&
      sw.written == old(sw.written) + [Text("Analyzing...")] +
        DeletionTokens(30, |flat|, done, success, if success then None else Outcome(disk.failures, flat[done]))
  {
    var ok, rmrfArgs := TryParse(args, cwd);
    if !ok {
      return false;
    }
    var found, flatDirs := Analyze(sw, tree(rmrfArgs.Path), rmrfArgs);
    if !found {
      return false;
    }
    var success, e, deleted, bar := DeleteAll(sw, disk, flatDirs);
    ran := true;
  }

  /** The analysis step of `Main`: writes "Analyzing..." and lists the
      directories of the targets below the chosen path, whose tree is `fs`.
      The listing fails only when a target names no directory, which
      cannot happen without an include list or in a well-formed tree. */
  method Analyze(sw: Stream, fs: Dir, args: RmrfArgs) returns (found: bool, flatDirs: seq<Path>)
    modifies sw
    ensures sw.written == old(sw.written) + [Text("Analyzing...")]
    ensures found <==> AllFound(fs, [args.Path], Targets(fs, args))
    ensures found ==> flatDirs == Flatten(fs, [args.Path], Targets(fs, args))
    ensures args.Include.None? || WellFormed(fs) ==> found
  {
    OutText(sw, "Analyzing...");
    var targets := GetTargets(fs, args);
    if args.Include.None? {
      SingleTarget(fs, args.Path);
    } else if WellFormed(fs) {
      TargetsFound(fs, args);
    }
    var flat;
    found, flat := FlattenTargets(fs, [args.Path], targets.items);
    flatDirs := flat.items;
  }

  /** Without an include list the only target is the starting path itself,
      which always exists: the listing is its whole subtree. */
  lemma SingleTarget(fs: Dir, start: string)
    ensures AllFound(fs, [start], [[start]])
    ensures Flatten(fs, [start], [[start]]) == PostOrder([start], fs)
  {
    var base: Path := [start];
    assert Lookup(fs, base, base) == Some(fs) by {
      assert base[|base|..] == [];
    }
    assert [[start]][..0] == [];
  }

  /** A plain run (no `-p`, no `-i`) lists the directory it was started in
      last, and whatever the outcome of the deletions it is never removed:
      the guard of `DeleteDirectory` is what keeps it. */
  lemma PlainRunKeepsStart(fs: Dir, cwd: string, failures: map<Path, string>)
    ensures AllFound(fs, [cwd], [[cwd]])
    ensures var flat := Flatten(fs, [cwd], [[cwd]]);
      |flat| >= 1 && flat[|flat| - 1] == [cwd] &&
      [cwd] !in Removable(cwd, flat[..FirstFailure(failures, flat)])
  {
    SingleTarget(fs, cwd);
    var flat := Flatten(fs, [cwd], [[cwd]]);
    assert flat == PostOrderAll([cwd], fs.children) + [[cwd]];
    RemovableMember(cwd, flat[..FirstFailure(failures, flat)], [cwd]);
  }
}
