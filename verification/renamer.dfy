/** Steps 8 and 9 of the script after confirmation: every row of the plan
    is applied with `os.replace`, failures are counted and skipped, and then
    every target is checked for existence. The file system is a map from
    path to content. */
module Renamer {
  import opened Matching
  import opened Plan

  type Content = seq<bv8>
  type FileSystem = map<Path, Content>

  /** The file system after one `os.replace`, and whether it raised. */
  datatype Step = Step(fs: FileSystem, failed: bool)

  /** The file system after the rename loop, and the `errors` counter. */
  datatype Applied = Applied(fs: FileSystem, errors: nat)

  /** `os.replace(source, target)`: moves the file, overwriting whatever is
      at `target`. It raises, changing nothing, when the source does not
      exist or when the operating system reports an error (`fault`). */
  function Replace(fs: FileSystem, source: Path, target: Path, fault: bool): (r: Step)
    ensures r.failed <==> fault || source !in fs
    ensures r.failed ==> r.fs == fs
    ensures !r.failed ==> target in r.fs && r.fs[target] == fs[source]
    ensures !r.failed && source != target ==> source !in r.fs
    ensures forall p :: p != source && p != target ==> (p in r.fs <==> p in fs)
    ensures forall p :: p != source && p != target && p in fs ==> r.fs[p] == fs[p]
  {
    if fault || source !in fs then Step(fs, true)
    else Step((fs - {source})[target := fs[source]], false)
  }

  /** The rename loop over `preview_map`; `faults` holds the positions at
      which the operating system makes `os.replace` raise. */
  function ApplyPlan(fs: FileSystem, plan: seq<Rename>, faults: set<nat>): (r: Applied)
    ensures r.errors <= |plan|
  {
    if plan == [] then Applied(fs, 0)
    else
      var n := |plan| - 1;
      var prev := ApplyPlan(fs, plan[..n], faults);
      var step := Replace(prev.fs, plan[n].source, plan[n].target, n in faults);
      Applied(step.fs, prev.errors + if step.failed then 1 else 0)
  }

  /** The verification loop's `ok` counter: how many targets exist. */
  function CountPresent(fs: FileSystem, plan: seq<Rename>): (ok: nat)
    ensures ok <= |plan|
    ensures ok == |plan| <==> forall i :: 0 <= i < |plan| ==> plan[i].target in fs
  {
    if plan == [] then 0
    else
      var n := |plan| - 1;
      var prev := CountPresent(fs, plan[..n]);
      assert forall i :: 0 <= i < n ==> plan[..n][i] == plan[i];
      prev + if plan[n].target in fs then 1 else 0
  }

  /** The loop state after row `i` extends the state before it. */
  lemma ApplyPlanPrefix(fs: FileSystem, plan: seq<Rename>, faults: set<nat>, i: nat)
    requires i < |plan|
    ensures var prev := ApplyPlan(fs, plan[..i], faults);
      var step := Replace(prev.fs, plan[i].source, plan[i].target, i in faults);
      ApplyPlan(fs, plan[..i + 1], faults) == Applied(step.fs, prev.errors + if step.failed then 1 else 0)
  {
    assert plan[..i + 1][..i] == plan[..i];
  }

  /** Step 8 after confirmation: `os.replace` on every row in order,
      counting the rows that raise and carrying on after them. */
  method RenameAll(fs: FileSystem, plan: seq<Rename>, faults: set<nat>)
    returns (after: FileSystem, errors: nat)
    ensures errors <= |plan|
    ensures Applied(after, errors) == ApplyPlan(fs, plan, faults)
  {
    after, errors := fs, 0;
    var i := 0;
    while i < |plan|
      invariant 0 <= i <= |plan|
      invariant Applied(after, errors) == ApplyPlan(fs, plan[..i], faults)
    {
      ApplyPlanPrefix(fs, plan, faults, i);
      var step := Replace(after, plan[i].source, plan[i].target, i in faults);
      if step.failed {
        errors := errors + 1;
      }
      after := step.fs;
      i := i + 1;
    }
    assert plan[..|plan|] == plan;
  }

  /** Step 9: how many targets of the plan exist. */
  method CountVerified(fs: FileSystem, plan: seq<Rename>) returns (ok: nat)
    ensures ok <= |plan|
    ensures ok == CountPresent(fs, plan)
  {
    ok := 0;
    var j := 0;
    while j < |plan|
      invariant 0 <= j <= |plan|
      invariant ok == CountPresent(fs, plan[..j])
    {
      assert plan[..j + 1][..j] == plan[..j];
      if plan[j].target in fs {
        ok := ok + 1;
      }
      j := j + 1;
    }
    assert plan[..|plan|] == plan;
  }

  /** Steps 8 and 9 after confirmation: apply every row, count the failures,
      then count the targets that exist; `complete` is the condition under
      which the script announces that renaming is complete. */
  method RenameAndVerify(fs: FileSystem, plan: seq<Rename>, faults: set<nat>)
    returns (after: FileSystem, errors: nat, ok: nat, complete: bool)
    ensures errors <= |plan| && ok <= |plan|
    ensures Applied(after, errors) == ApplyPlan(fs, plan, faults)
    ensures ok == CountPresent(after, plan)
    ensures complete <==> errors == 0 && (forall i :: 0 <= i < |plan| ==> plan[i].target in after)
  {
    after, errors := RenameAll(fs, plan, faults);
    ok := CountVerified(after, plan);
    complete := errors == 0 && ok == |plan|;
  }

  /** A path that no row mentions, as source or as target, keeps its
      presence and its content, whatever fails. */
  lemma {:induction false} ApplyPlanFrame(fs: FileSystem, plan: seq<Rename>, faults: set<nat>, p: Path)
    requires forall i :: 0 <= i < |plan| ==> p != plan[i].source && p != plan[i].target
    ensures var after := ApplyPlan(fs, plan, faults).fs;
      (p in after <==> p in fs) && (p in fs ==> after[p] == fs[p])
  {
    if plan != [] {
      var n := |plan| - 1;
      assert forall i :: 0 <= i < n ==> plan[..n][i] == plan[i];
      ApplyPlanFrame(fs, plan[..n], faults, p);
    }
  }

  /** The rows neither read a file another row has moved away nor write
      over a file another row still has to move. */
  ghost predicate Independent(plan: seq<Rename>)
  {
    && (forall i, j :: 0 <= i < j < |plan| ==> plan[i].source != plan[j].source)
    && (forall i, j :: 0 <= i < |plan| && 0 <= j < |plan| && i != j ==> plan[i].target != plan[j].source)
  }

  ghost predicate DistinctTargets(plan: seq<Rename>)
  {
    forall i, j :: 0 <= i < j < |plan| ==> plan[i].target != plan[j].target
  }

  /** The rows before `n` keep apart as the whole plan's rows do. */
  lemma PrefixKeepsRowsApart(plan: seq<Rename>, n: nat)
    requires n <= |plan|
    ensures forall i :: 0 <= i < n ==> plan[..n][i] == plan[i]
    ensures Independent(plan) ==> Independent(plan[..n])
    ensures DistinctTargets(plan) ==> DistinctTargets(plan[..n])
  {
  }

  /** With every source present, independent rows and no operating-system
      error, the loop counts no error and every target exists afterwards. */
  lemma {:induction false} ApplyPlanSucceeds(fs: FileSystem, plan: seq<Rename>, faults: set<nat>)
    requires forall i :: 0 <= i < |plan| ==> plan[i].source in fs && i !in faults
    requires Independent(plan)
    ensures ApplyPlan(fs, plan, faults).errors == 0
    ensures forall i :: 0 <= i < |plan| ==> plan[i].target in ApplyPlan(fs, plan, faults).fs
  {
    if plan != [] {
      var n := |plan| - 1;
      var init, last := plan[..n], plan[n];
      PrefixKeepsRowsApart(plan, n);
      ApplyPlanSucceeds(fs, init, faults);
      var prev := ApplyPlan(fs, init, faults);
      assert forall i :: 0 <= i < n ==> last.source != init[i].source && last.source != init[i].target;
      ApplyPlanFrame(fs, init, faults, last.source);
      var step := Replace(prev.fs, last.source, last.target, n in faults);
      assert ApplyPlan(fs, plan, faults) == Applied(step.fs, prev.errors);
      forall i | 0 <= i < n ensures init[i].target in step.fs {
        assert init[i].target != last.source;
      }
    }
  }

  /** When in addition no two rows share a target, each target ends up
      holding the content of its own row's source. */
  lemma {:induction false} ApplyPlanMovesContent(fs: FileSystem, plan: seq<Rename>, faults: set<nat>)
    requires forall i :: 0 <= i < |plan| ==> plan[i].source in fs && i !in faults
    requires Independent(plan) && DistinctTargets(plan)
    ensures forall i :: 0 <= i < |plan| ==>
              plan[i].target in ApplyPlan(fs, plan, faults).fs
              && ApplyPlan(fs, plan, faults).fs[plan[i].target] == fs[plan[i].source]
  {
    if plan != [] {
      var n := |plan| - 1;
      var init, last := plan[..n], plan[n];
      PrefixKeepsRowsApart(plan, n);
      ApplyPlanMovesContent(fs, init, faults);
      var prev := ApplyPlan(fs, init, faults);
      assert forall i :: 0 <= i < n ==> last.source != init[i].source && last.source != init[i].target;
      ApplyPlanFrame(fs, init, faults, last.source);
      var step := Replace(prev.fs, last.source, last.target, n in faults);
      var after := ApplyPlan(fs, plan, faults).fs;
      assert after == step.fs;
      assert step.fs[last.target] == fs[last.source];
      forall i | 0 <= i < |plan| ensures plan[i].target in after && after[plan[i].target] == fs[plan[i].source] {
        if i < n {
          assert plan[i] == init[i];
          assert init[i].target != last.source && init[i].target != last.target;
          assert init[i].target in prev.fs && prev.fs[init[i].target] == fs[init[i].source];
        }
      }
    }
  }

  /** Two rows with the same target (a registration number listed twice,
      for two letters in the same folder):
      the loop reports no error and both targets verify, yet one letter is
      gone, overwritten by the other. */
  lemma DuplicateTargetLosesLetter(a: Path, b: Path, t: Path, ca: Content, cb: Content)
    requires a != b && a != t && b != t
    ensures var plan := [Rename(a, t), Rename(b, t)];
      var applied := ApplyPlan(map[a := ca, b := cb], plan, {});
      && applied.errors == 0
      && CountPresent(applied.fs, plan) == |plan|
      && applied.fs == map[t := cb]
  {
    var plan := [Rename(a, t), Rename(b, t)];
    var fs := map[a := ca, b := cb];
    assert plan[..1] == [Rename(a, t)] && plan[..1][..0] == [];
    assert ApplyPlan(fs, plan[..1][..0], {}) == Applied(fs, 0);
    var one := ApplyPlan(fs, plan[..1], {});
    assert fs - {a} == map[b := cb];
    assert one == Applied(map[b := cb][t := ca], 0);
    var two := ApplyPlan(fs, plan, {});
    assert map[b := cb][t := ca] - {b} == map[t := ca];
    assert two == Applied(map[t := ca][t := cb], 0);
    assert map[t := ca][t := cb] == map[t := cb];
  }
}
