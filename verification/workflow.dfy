/** The script end to end, with its downloads, spreadsheet reading,
    extraction and directory walk replaced by their results: the column of
    cells, the walked file paths in walk order, the typed answer, the file
    system and the positions at which `os.replace` fails. */
module Workflow {
  import opened Options
  import opened Registration
  import opened Matching
  import opened Sorting
  import opened Plan
  import opened Renamer

  /** How the script ends. */
  datatype Outcome =
    | CountMismatch(matched: nat, registrations: nat)  // "ERROR: Count mismatch", no renaming
    | Cancelled(plan: seq<Rename>)                     // "Renaming cancelled."
    | Finished(plan: seq<Rename>, errors: nat, verified: nat, complete: bool)

  /** `matched` after sorting: the letters among the walked `.pdf` files,
      ordered by suffix. */
  function Matched(walk: seq<Path>): (r: seq<Match>)
    ensures SortedBySuffix(r)
    ensures multiset(r) == multiset(MatchAll(PdfPaths(walk)))
    ensures |r| <= |walk|
  {
    var found := MatchAll(PdfPaths(walk));
    var r := SortBySuffix(found);
    assert |r| == |multiset(r)| == |multiset(found)| == |found|;
    r
  }

  /** Steps 2 to 9: no file changes unless the counts agree and the answer
      is `yes`; then the rename and verification loops run over the plan. */
  method RenameLetters(column: seq<Cell>, walk: seq<Path>, answer: string, fs: FileSystem, faults: set<nat>)
    returns (outcome: Outcome, after: FileSystem)
    ensures var matched, regs := Matched(walk), RegistrationNumbers(column);
      && (outcome.CountMismatch? <==> |matched| != |regs|)
      && (outcome.CountMismatch? ==> outcome.matched == |matched| && outcome.registrations == |regs|)
      && (outcome.Cancelled? <==> |matched| == |regs| && !Confirmed(answer))
      && (outcome.Finished? <==> |matched| == |regs| && Confirmed(answer))
      && (!outcome.CountMismatch? ==> BuildPlan(matched, regs) == Some(outcome.plan))
    ensures !outcome.Finished? ==> after == fs
    ensures outcome.Finished? ==>
      && outcome.errors <= |outcome.plan| && outcome.verified <= |outcome.plan|
      && (outcome.complete <==> outcome.errors == 0 && outcome.verified == |outcome.plan|)
      && ApplyPlan(fs, outcome.plan, faults) == Applied(after, outcome.errors)
      && outcome.verified == CountPresent(after, outcome.plan)
  {
    var regs := RegistrationNumbers(column);
    var matched := Matched(walk);
    var preview := BuildPlan(matched, regs);
    if preview.None? {
      return CountMismatch(|matched|, |regs|), fs;
    }
    var plan := preview.value;
    if !Confirmed(answer) {
      return Cancelled(plan), fs;
    }
    var errors, ok, complete;
    after, errors, ok, complete := RenameAndVerify(fs, plan, faults);
    outcome := Finished(plan, errors, ok, complete);
  }

  /** A single letter is already sorted. */
  lemma SortOne(a: Match)
    ensures SortBySuffix([a]) == [a]
  {
    assert [a][..0] == [];
    assert Insert(a, []) == [a];
  }

  /** A letter with a smaller suffix goes in front of a larger one. */
  lemma InsertBeforeLarger(b: Match, a: Match)
    requires a.suffix > b.suffix
    ensures Insert(b, [a]) == [b, a]
  {
    assert [a][..0] == [];
    assert Insert(b, []) == [b];
  }

  /** Two letters found in descending order of suffix swap places. */
  lemma SortTwoDescending(a: Match, b: Match)
    requires a.suffix > b.suffix
    ensures SortBySuffix([a, b]) == [b, a]
  {
    assert [a, b][..1] == [a];
    SortOne(a);
    InsertBeforeLarger(b, a);
  }

  /** The letter whose name ends in `latter_all_<digits>.pdf` carries the
      value of those digits. */
  lemma MatchOne(l: Path, digits: string)
    requires digits != [] && Text.AllDigits(digits)
    requires l.base == Tag + digits + Ext
    ensures MatchAll([l]) == [Match(l, Text.DigitsValue(digits))]
  {
    assert l.base == [] + Tag + digits + Ext;
    SuffixOfComposed([], Tag, digits, Ext);
    assert [l][..0] == [];
  }

  /** Matching two files is matching each of them in turn. */
  lemma MatchPair(p: Path, q: Path, mp: Match, mq: Match)
    requires MatchAll([p]) == [mp] && MatchAll([q]) == [mq]
    ensures MatchAll([p, q]) == [mp, mq]
  {
    assert [p, q] == [p] + [q];
    MatchAllAppend([p], [q]);
  }

  /** Two letters found in descending order of number come out in
      ascending order. */
  lemma SortsBySuffixNotWalkOrder(l1: Path, l2: Path, n1: nat, n2: nat)
    requires n1 < n2
    requires MatchAll([l1]) == [Match(l1, n1)] && MatchAll([l2]) == [Match(l2, n2)]
    ensures SortBySuffix(MatchAll([l2, l1])) == [Match(l1, n1), Match(l2, n2)]
  {
    MatchPair(l2, l1, Match(l2, n2), Match(l1, n1));
    SortTwoDescending(Match(l2, n2), Match(l1, n1));
  }

  /** Two sorted letters take the two registration numbers in order. */
  lemma PlanOfTwo(m1: Match, m2: Match, r1: string, r2: string)
    ensures BuildPlan([m1, m2], [r1, r2])
              == Some([Rename(m1.path, TargetPath(m1.path, r1)), Rename(m2.path, TargetPath(m2.path, r2))])
  {
    var plan := BuildPlan([m1, m2], [r1, r2]).value;
    assert plan[0] == Rename(m1.path, TargetPath(m1.path, r1));
    assert plan[1] == Rename(m2.path, TargetPath(m2.path, r2));
    assert plan == [plan[0], plan[1]];
  }

  /** Letters `…_<d2>.pdf` and `…_<d1>.pdf`, found in that order with
      `int(d1) < int(d2)`, and registration numbers `r1`, `r2`: the letter
      with the smaller number is renamed to `r1.pdf` and the other to
      `r2.pdf`, in their folder. The walk order plays no part. */
  lemma PairsByNumberNotByWalkOrder(dir: string, d1: string, d2: string, r1: string, r2: string)
    requires d1 != [] && d2 != [] && Text.AllDigits(d1) && Text.AllDigits(d2)
    requires Text.DigitsValue(d1) < Text.DigitsValue(d2)
    ensures var l1, l2 := Path(dir, Tag + d1 + Ext), Path(dir, Tag + d2 + Ext);
      BuildPlan(SortBySuffix(MatchAll([l2, l1])), [r1, r2])
        == Some([Rename(l1, Path(dir, r1 + Ext)), Rename(l2, Path(dir, r2 + Ext))])
  {
    var l1, l2 := Path(dir, Tag + d1 + Ext), Path(dir, Tag + d2 + Ext);
    MatchOne(l1, d1);
    MatchOne(l2, d2);
    var n1, n2 := Text.DigitsValue(d1), Text.DigitsValue(d2);
    SortsBySuffixNotWalkOrder(l1, l2, n1, n2);
    PlanOfTwo(Match(l1, n1), Match(l2, n2), r1, r2);
  }
}
