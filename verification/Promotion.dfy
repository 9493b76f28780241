/** Promoting a staged bundle by renames, with a backup and a rollback
    (crates/pengu-mesh-core/src/lib.rs). Every step may fail, and the process may stop after any
    step; a recursive removal may also stop half-way and leave any wreck behind. */
module BundlePromotion {
  import opened ReplayBundles

  /** How a recursive removal goes: the directory is first seen as `wreck`; then, if `ok`, gone. */
  datatype Removal = Removal(wreck: Tree, ok: bool)

  /** The environment's choice for every step that can fail. */
  datatype Faults = Faults(staleBackup: Removal, moveOld: bool, moveNew: bool, rollBack: bool, oldBackup: Removal)

  function Removing(trees: Trees, name: string, fate: Removal): seq<Trees> {
    if name !in trees then []
    else [trees[name := fate.wreck]] + if fate.ok then [trees - {name}] else []
  }

  /** `fs::rename` of a directory onto a free name. */
  function Moved(trees: Trees, from: string, to: string): Trees
    requires from in trees
  {
    (trees - {from})[to := trees[from]]
  }

  /** The states after each step, in order, and whether the call succeeds. */
  datatype Course = Course(states: seq<Trees>, ok: bool)

  function After(steps: seq<Trees>, rest: Course): Course {
    Course(steps + rest.states, rest.ok)
  }

  function Promotion(trees: Trees, staging: string, f: Faults): Course {
    var clearing := Removing(trees, BACKUP, f.staleBackup);
    if BACKUP in trees && !f.staleBackup.ok then Course(clearing, false)
    else After(clearing, WithoutBackup(trees - {BACKUP}, staging, f))
  }

  function WithoutBackup(trees: Trees, staging: string, f: Faults): Course {
    if FINAL !in trees then Swapping(trees, staging, f)
    else if !f.moveOld then Course([], false)
    else
      var moved := Moved(trees, FINAL, BACKUP);
      After([moved], Swapping(moved, staging, f))
  }

  function Swapping(trees: Trees, staging: string, f: Faults): Course {
    if staging in trees && f.moveNew then
      var swapped := Moved(trees, staging, FINAL);
      Course([swapped] + Removing(swapped, BACKUP, f.oldBackup), BACKUP in swapped ==> f.oldBackup.ok)
    else if BACKUP in trees && f.rollBack then Course([Moved(trees, BACKUP, FINAL)], false)
    else Course([], false)
  }

  /** What is on disk when the call returns, or when the process stopped after its last step. */
  function EndOf(trees: Trees, course: Course): Trees {
    if course.states == [] then trees else course.states[|course.states| - 1]
  }

  // ----- the imperative form

  class ReplayRoot {
    var trees: Trees
    ghost var history: seq<Trees>

    method RemoveDirAll(name: string, fate: Removal) returns (ok: bool)
      requires name in trees
      modifies this
      ensures ok == fate.ok
      ensures history == old(history) + Removing(old(trees), name, fate)
      ensures trees == if ok then old(trees) - {name} else old(trees)[name := fate.wreck]
    {
      var before := trees;
      trees := trees[name := fate.wreck];
      history := history + [trees];
      if fate.ok {
        trees := before - {name};
        history := history + [trees];
      }
      ok := fate.ok;
    }

    /** Fails, changing nothing, when the environment says so or there is nothing to move. */
    method Rename(from: string, to: string, allowed: bool) returns (ok: bool)
      requires to !in trees
      modifies this
      ensures ok <==> allowed && from in old(trees)
      ensures trees == if ok then Moved(old(trees), from, to) else old(trees)
      ensures history == old(history) + if ok then [trees] else []
    {
      ok := allowed && from in trees;
      if ok {
        trees := Moved(trees, from, to);
        history := history + [trees];
      }
    }
  }

  ghost predicate Follows(before: Trees, history: seq<Trees>, root: ReplayRoot, course: Course)
    reads root
  {
    root.history == history + course.states && root.trees == EndOf(before, course)
  }

  method PromotePortableBundle(root: ReplayRoot, staging: string, f: Faults) returns (ok: bool)
    requires staging != FINAL && staging != BACKUP
    modifies root
    ensures var course := Promotion(old(root.trees), staging, f);
      ok == course.ok && Follows(old(root.trees), old(root.history), root, course)
  {
    hide WithoutBackup;
    ghost var before := root.trees;
    if BACKUP in root.trees {
      var removed := root.RemoveDirAll(BACKUP, f.staleBackup);
      if !removed {
        return false;
      }
    }
    assert root.trees == before - {BACKUP};
    ok := PromoteWithoutBackup(root, staging, f);
  }

  method PromoteWithoutBackup(root: ReplayRoot, staging: string, f: Faults) returns (ok: bool)
    requires BACKUP !in root.trees && staging != FINAL
    modifies root
    ensures var course := WithoutBackup(old(root.trees), staging, f);
      ok == course.ok && Follows(old(root.trees), old(root.history), root, course)
  {
    if FINAL in root.trees {
      var moved := root.Rename(FINAL, BACKUP, f.moveOld);
      if !moved {
        return false;
      }
    }
    ok := SwapIn(root, staging, f);
  }

  method SwapIn(root: ReplayRoot, staging: string, f: Faults) returns (ok: bool)
    requires FINAL !in root.trees
    modifies root
    ensures var course := Swapping(old(root.trees), staging, f);
      ok == course.ok && Follows(old(root.trees), old(root.history), root, course)
  {
    var promoted := root.Rename(staging, FINAL, f.moveNew);
    if !promoted {
      if BACKUP in root.trees {
        var rolledBack := root.Rename(BACKUP, FINAL, f.rollBack);
      }
      return false;
    }
    if BACKUP in root.trees {
      var removed := root.RemoveDirAll(BACKUP, f.oldBackup);
      if !removed {
        return false;
      }
    }
    return true;
  }

  // ----- safety

  /** Some bundle the caller regards as intact is at the final path or at the backup path. */
  ghost predicate Safe(intact: Tree -> bool, trees: Trees) {
    (FINAL in trees && intact(trees[FINAL])) || (BACKUP in trees && intact(trees[BACKUP]))
  }

  /** Whatever fails and wherever the process stops, the bundle that was at the final path is there
      unharmed or is the backup, or the new bundle is in its place. */
  lemma OldOrNewSurvives(trees: Trees, staging: string, f: Faults)
    requires FINAL in trees && staging in trees && staging != FINAL && staging != BACKUP
    ensures forall s | s in Promotion(trees, staging, f).states ::
      || (FINAL in s && s[FINAL] == trees[FINAL])
      || (BACKUP in s && s[BACKUP] == trees[FINAL])
      || (FINAL in s && s[FINAL] == trees[staging])
  {
    var cleared := trees - {BACKUP};
    var moved := Moved(cleared, FINAL, BACKUP);
    SwappingKeeps(moved, staging, f);
    var all := Promotion(trees, staging, f).states;
    forall s | s in all
      ensures s in Removing(trees, BACKUP, f.staleBackup) || s == moved || s in Swapping(moved, staging, f).states
    {
      assert BACKUP !in trees || f.staleBackup.ok ==>
        all == Removing(trees, BACKUP, f.staleBackup) + WithoutBackup(cleared, staging, f).states;
    }
  }

  lemma SwappingKeeps(trees: Trees, staging: string, f: Faults)
    requires BACKUP in trees && FINAL !in trees && staging in trees && staging != BACKUP
    ensures forall s | s in Swapping(trees, staging, f).states ::
      (FINAL in s && (s[FINAL] == trees[BACKUP] || s[FINAL] == trees[staging]))
  {
  }

  /** Success installs the new bundle, leaves no backup and no staging directory, and touches
      nothing else. */
  lemma SuccessInstalls(trees: Trees, staging: string, f: Faults)
    requires staging != FINAL && staging != BACKUP && Promotion(trees, staging, f).ok
    ensures staging in trees
    ensures EndOf(trees, Promotion(trees, staging, f)) == (trees - {FINAL, BACKUP, staging})[FINAL := trees[staging]]
  {
    var cleared := trees - {BACKUP};
    var course := WithoutBackup(cleared, staging, f);
    assert course.ok;
    assert EndOf(trees, Promotion(trees, staging, f)) == EndOf(cleared, course);
    var ready := if FINAL in cleared then Moved(cleared, FINAL, BACKUP) else cleared;
    assert EndOf(cleared, course) == EndOf(ready, Swapping(ready, staging, f));
    var swapped := Moved(ready, staging, FINAL);
    assert BACKUP !in swapped ==> EndOf(ready, Swapping(ready, staging, f)) == swapped;
    assert BACKUP in swapped ==> EndOf(ready, Swapping(ready, staging, f)) == swapped - {BACKUP};
  }

  /** A failed swap that is rolled back leaves the old bundle, the staged one and all else as they
      were, apart from the stale backup. */
  lemma RollbackRestores(trees: Trees, staging: string, f: Faults)
    requires FINAL in trees && staging in trees && staging != FINAL && staging != BACKUP
    requires f.staleBackup.ok && f.moveOld && !f.moveNew && f.rollBack
    ensures !Promotion(trees, staging, f).ok
    ensures EndOf(trees, Promotion(trees, staging, f)) == trees - {BACKUP}
  {
  }

  /** Promotion is safe at every step under every fault exactly when the final path holds an intact
      bundle on entry. When only the backup does, the first step already destroys it. */
  lemma PromotionIsSafeExactly(trees: Trees, staging: string, intact: Tree -> bool)
    requires Safe(intact, trees)
    requires staging in trees && staging != FINAL && staging != BACKUP && intact(trees[staging])
    ensures (forall f, s | s in Promotion(trees, staging, f).states :: Safe(intact, s))
      <==> FINAL in trees && intact(trees[FINAL])
  {
    if FINAL in trees && intact(trees[FINAL]) {
      forall f, s | s in Promotion(trees, staging, f).states ensures Safe(intact, s) {
        OldOrNewSurvives(trees, staging, f);
      }
    } else {
      var removal := Removal(trees[staging], true);
      var f := Faults(removal, true, true, true, removal);
      var cleared := trees - {BACKUP};
      var states := Promotion(trees, staging, f).states;
      assert states[1] == cleared && states[1] in states;
      assert !Safe(intact, cleared);
    }
  }

  /** The state between the two renames is such an entry: if the process stops there, the retry
      passes through a state with no intact bundle at either path. */
  lemma RetryAfterStopIsUnsafe(trees: Trees, staging: string, retry: string, f: Faults, intact: Tree -> bool)
    requires FINAL in trees && staging in trees && staging != FINAL && staging != BACKUP
    requires f.staleBackup.ok && f.moveOld
    ensures exists stop, g, s ::
      && stop in Promotion(trees, staging, f).states
      && s in Promotion(stop, retry, g).states
      && !Safe(intact, s)
  {
    var cleared := trees - {BACKUP};
    var stop := Moved(cleared, FINAL, BACKUP);
    var course := WithoutBackup(cleared, staging, f);
    assert course.states[0] == stop;
    assert Promotion(trees, staging, f).states
        == Removing(trees, BACKUP, f.staleBackup) + course.states;
    assert stop in Promotion(trees, staging, f).states;
    var removal := Removal(trees[staging], true);
    var g := Faults(removal, true, true, true, removal);
    var states := Promotion(stop, retry, g).states;
    assert states[1] == stop - {BACKUP} && states[1] in states;
    assert !Safe(intact, stop - {BACKUP});
  }
}
