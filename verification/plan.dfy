/** Steps 6 to 8 of the script up to the first rename: the count check,
    the preview mapping that pairs the i-th sorted letter with the i-th
    registration number, and the yes/no confirmation. */
module Plan {
  import opened Options
  import opened Text
  import opened Matching

  /** One `(old_path, new_path)` row of `preview_map`. */
  datatype Rename = Rename(source: Path, target: Path)

  /** `os.path.join(os.path.dirname(old_path), f"{reg_no}.pdf")`: the
      letter keeps its folder and is named after the registration number. */
  function TargetPath(source: Path, reg: string): (p: Path)
    ensures p.dir == source.dir
    ensures |p.base| == |reg| + |Ext| && p.base[..|reg|] == reg && p.base[|reg|..] == Ext
  {
    Path(source.dir, reg + Ext)
  }

  /** The `zip(matched, registration_numbers)` loop building `preview_map`. */
  function Pair(matched: seq<Match>, regs: seq<string>): (plan: seq<Rename>)
    requires |matched| == |regs|
    ensures |plan| == |regs|
    ensures forall i :: 0 <= i < |plan| ==>
              plan[i].source == matched[i].path && plan[i].target == TargetPath(matched[i].path, regs[i])
  {
    if regs == [] then []
    else
      var n := |regs| - 1;
      Pair(matched[..n], regs[..n]) + [Rename(matched[n].path, TargetPath(matched[n].path, regs[n]))]
  }

  /** The count check and the preview: no plan at all when the number of
      matched letters differs from the number of registration numbers;
      otherwise one row per letter, pairing positions i with i. */
  function BuildPlan(matched: seq<Match>, regs: seq<string>): (r: Option<seq<Rename>>)
    ensures r.Some? <==> |matched| == |regs|
    ensures r.Some? ==> |r.value| == |matched| == |regs|
    ensures r.Some? ==> forall i :: 0 <= i < |regs| ==>
              && r.value[i].source == matched[i].path
              && r.value[i].target.dir == matched[i].path.dir
              && r.value[i].target.base == regs[i] + Ext
  {
    if |matched| != |regs| then None else Some(Pair(matched, regs))
  }

  /** The registration number a row renames its letter to. */
  function TargetName(r: Rename): string
  {
    if |r.target.base| >= |Ext| then r.target.base[..|r.target.base| - |Ext|] else r.target.base
  }

  /** The plan can be read back: its source paths are the matched letters in
      sorted order and its target names are the registration numbers in
      spreadsheet order. */
  lemma BuildPlanReadsBack(matched: seq<Match>, regs: seq<string>)
    requires |matched| == |regs|
    ensures var plan := BuildPlan(matched, regs).value;
      && (forall i :: 0 <= i < |plan| ==> plan[i].source == matched[i].path)
      && (forall i :: 0 <= i < |plan| ==> TargetName(plan[i]) == regs[i])
  {
    var plan := BuildPlan(matched, regs).value;
    forall i | 0 <= i < |plan| ensures TargetName(plan[i]) == regs[i] {
      assert plan[i].target.base == regs[i] + Ext;
      assert (regs[i] + Ext)[..|regs[i]|] == regs[i];
    }
  }

  /** Distinct registration numbers give distinct targets within a folder;
      letters in different folders never share a target. */
  lemma BuildPlanTargetsDistinct(matched: seq<Match>, regs: seq<string>)
    requires |matched| == |regs|
    requires forall i, j :: 0 <= i < j < |regs| ==> regs[i] != regs[j]
    ensures var plan := BuildPlan(matched, regs).value;
      forall i, j :: 0 <= i < j < |plan| ==> plan[i].target != plan[j].target
  {
    var plan := BuildPlan(matched, regs).value;
    BuildPlanReadsBack(matched, regs);
  }

  /** `input(...).strip().lower() == "yes"`. */
  predicate Confirmed(answer: string)
  {
    Lower(Strip(answer)) == "yes"
  }

  /** `answer[i..i + 3]` is `yes` in some mixture of case, with only
      whitespace before and after it. */
  ghost predicate YesAt(answer: string, i: int)
  {
    && 0 <= i && i + 3 <= |answer|
    && AllSpace(answer[..i]) && AllSpace(answer[i + 3..])
    && EqualsIgnoreCase(answer[i..i + 3], "yes")
  }

  /** A confirming answer is `yes` surrounded by whitespace. */
  lemma ConfirmedWindow(answer: string) returns (i: int)
    requires Confirmed(answer)
    ensures YesAt(answer, i)
  {
    var i', j :| StripWindow(answer, i', j) && Strip(answer) == answer[i'..j];
    i := i';
    var w := answer[i..j];
    assert Lower("yes") == "yes";
    assert |Lower(w)| == 3;
    EqualsIgnoreCaseIsLowerEquality(w, "yes");
  }

  /** `yes` surrounded by whitespace confirms. */
  lemma YesConfirms(answer: string, i: int)
    requires YesAt(answer, i)
    ensures Confirmed(answer)
  {
    var w := answer[i..i + 3];
    assert LowerChar(w[0]) == LowerChar('y') && LowerChar(w[2]) == LowerChar('s');
    assert StripWindow(answer, i, i + 3);
    StripCharacterised(w, answer);
    EqualsIgnoreCaseIsLowerEquality(w, "yes");
    assert Lower("yes") == "yes";
  }

  /** The answer confirms exactly when it is `yes`, in any mixture of case,
      with nothing but whitespace around it. */
  lemma ConfirmedIff(answer: string)
    ensures Confirmed(answer) <==> exists i :: YesAt(answer, i)
  {
    if Confirmed(answer) {
      var i := ConfirmedWindow(answer);
    }
    forall i | YesAt(answer, i) ensures Confirmed(answer) {
      YesConfirms(answer, i);
    }
  }

  /** Surrounding whitespace and case do not matter; a shorter answer does
      not confirm. */
  lemma ConfirmedExamples()
    ensures Confirmed(" Yes\n")
    ensures !Confirmed("y")
  {
    var a := " Yes\n";
    assert a[..1] == " " && a[4..] == "\n";
    assert AllSpace(a[..1]) && AllSpace(a[4..]);
    assert EqualsIgnoreCase(a[1..4], "yes");
    YesConfirms(a, 1);
    if Confirmed("y") {
      var i := ConfirmedWindow("y");
      assert false;
    }
  }
}
