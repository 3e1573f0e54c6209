/** Step 5 of the script: which extracted files are letters, and which
    number each letter carries. A letter's basename ends, ignoring case, in
    `latter_all_<digits>.pdf` (the pattern `latter_all_(\d+)\.pdf$` searched
    with `re.IGNORECASE`), and the digits are its numeric suffix. */
module Matching {
  import opened Options
  import opened Text
  import opened Seqs

  /** A file path as `os.path.join(root, fname)` builds it: the directory
      it sits in and its basename. */
  datatype Path = Path(dir: string, base: string)

  /** A letter file together with the number read from its name. */
  datatype Match = Match(path: Path, suffix: nat)

  const Tag: string := "latter_all_"
  const Ext: string := ".pdf"

  /** `fname.lower().endswith(".pdf")`. */
  predicate HasPdfExtension(base: string)
  {
    |base| >= |Ext| && EqualsIgnoreCase(base[|base| - |Ext|..], Ext)
  }

  predicate IsPdfPath(p: Path)
  {
    HasPdfExtension(p.base)
  }

  /** `pdf_paths`: the walked files with a `.pdf` extension, in walk order. */
  function PdfPaths(walk: seq<Path>): (r: seq<Path>)
    ensures |r| <= |walk|
    ensures forall p :: p in r <==> p in walk && HasPdfExtension(p.base)
  {
    Filter(IsPdfPath, walk)
  }

  /** The length of the run of ASCII digits that ends `s`. */
  function TrailingDigits(s: string): (n: nat)
    ensures n <= |s|
    ensures AllDigits(s[|s| - n..])
    ensures n < |s| ==> !IsDigit(s[|s| - n - 1])
  {
    if |s| > 0 && IsDigit(s[|s| - 1]) then
      var init := s[..|s| - 1];
      var m := TrailingDigits(init);
      assert s[|s| - m - 1..] == init[|init| - m..] + [s[|s| - 1]];
      assert m + 1 < |s| ==> s[|s| - m - 2] == init[|init| - m - 1];
      m + 1
    else 0
  }

  /** Any digit run that reaches the end of `s` and cannot be extended to
      the left is the one `TrailingDigits` measures. */
  lemma {:induction false} TrailingDigitsUnique(s: string, n: nat)
    requires n <= |s| && AllDigits(s[|s| - n..])
    requires n < |s| ==> !IsDigit(s[|s| - n - 1])
    ensures TrailingDigits(s) == n
  {
    if n > 0 {
      var init := s[..|s| - 1];
      var run := s[|s| - n..];
      assert run[n - 1] == s[|s| - 1];
      assert IsDigit(s[|s| - 1]);
      assert init[|init| - (n - 1)..] == run[..n - 1];
      if n < |s| {
        assert init[|init| - (n - 1) - 1] == s[|s| - n - 1];
      }
      TrailingDigitsUnique(init, n - 1);
    } else if |s| > 0 {
      assert !IsDigit(s[|s| - 1]);
    }
  }

  /** The pattern search on one basename: the number the letter carries,
      or `None` when the name does not end in `latter_all_<digits>.pdf`. */
  function SuffixOf(base: string): (r: Option<nat>)
    ensures r.Some? ==> HasPdfExtension(base)
  {
    if !HasPdfExtension(base) then None else SuffixOfStem(Stem(base))
  }

  /** A name with its four-character extension removed. */
  function Stem(base: string): (stem: string)
    requires |base| >= |Ext|
    ensures base == stem + base[|base| - |Ext|..]
  {
    base[..|base| - |Ext|]
  }

  /** `stem[m - |Tag|..m]` is `latter_all_` in some mixture of case. */
  predicate TagBefore(stem: string, m: int)
  {
    |Tag| <= m <= |stem| && EqualsIgnoreCase(stem[m - |Tag|..m], Tag)
  }

  /** The search on a name with its `.pdf` removed: the longest run of
      digits at the end. */
  function SuffixOfStem(stem: string): (r: Option<nat>)
  {
    SuffixAt(stem, TrailingDigits(stem))
  }

  /** The run of the last `d` characters, all digits, must be non-empty and
      preceded by the tag. */
  function SuffixAt(stem: string, d: nat): (r: Option<nat>)
    requires d <= |stem| && AllDigits(stem[|stem| - d..])
  {
    if d > 0 && TagBefore(stem, |stem| - d) then Some(DigitsValue(stem[|stem| - d..])) else None
  }

  /** `base` is a stem followed by `.pdf` in some mixture of case, and the
      stem ends in `latter_all_`, in some mixture of case, followed by the
      non-empty ASCII `digits`. */
  ghost predicate MatchesWith(base: string, digits: string)
  {
    && digits != [] && AllDigits(digits)
    && HasPdfExtension(base)
    && var stem := Stem(base);
       && |digits| <= |stem| && stem[|stem| - |digits|..] == digits
       && TagBefore(stem, |stem| - |digits|)
  }

  /** The tag ends in '_', which is not a digit. */
  lemma UnderscoreBeforeRun(stem: string, m: int)
    requires TagBefore(stem, m)
    ensures 0 < m <= |stem| && stem[m - 1] == '_'
  {
    var x := stem[m - |Tag|..m];
    assert LowerChar(x[|Tag| - 1]) == LowerChar(Tag[|Tag| - 1]);
    assert x[|Tag| - 1] == stem[m - 1];
  }

  /** Whenever `SuffixOf` returns a number, the pattern matches and the
      number is the value of the digits it captured. */
  lemma SuffixOfSound(base: string)
    requires SuffixOf(base).Some?
    ensures exists digits :: MatchesWith(base, digits) && SuffixOf(base).value == DigitsValue(digits)
  {
    var stem := Stem(base);
    assert SuffixOf(base) == SuffixOfStem(stem);
    var d := TrailingDigits(stem);
    assert SuffixOfStem(stem) == SuffixAt(stem, d);
    var digits := stem[|stem| - d..];
    assert |digits| == d && d > 0 && TagBefore(stem, |stem| - d);
    assert AllDigits(digits) && HasPdfExtension(base);
    assert MatchesWith(base, digits);
    assert SuffixOf(base).value == DigitsValue(digits);
  }

  /** Whenever the pattern matches, `SuffixOf` returns the value of the
      captured digits: there is only one way to match. */
  lemma SuffixOfComplete(base: string, digits: string)
    requires MatchesWith(base, digits)
    ensures SuffixOf(base) == Some(DigitsValue(digits))
  {
    var stem := Stem(base);
    var m := |stem| - |digits|;
    assert SuffixOf(base) == SuffixOfStem(stem);
    UnderscoreBeforeRun(stem, m);
    RunIsTrailing(stem, digits);
    StemCarries(stem, digits);
  }

  /** Digits that end the stem right after an underscore are its whole
      trailing run of digits. */
  lemma RunIsTrailing(stem: string, digits: string)
    requires AllDigits(digits) && |digits| < |stem|
    requires stem[|stem| - |digits|..] == digits && stem[|stem| - |digits| - 1] == '_'
    ensures TrailingDigits(stem) == |digits|
  {
    TrailingDigitsUnique(stem, |digits|);
  }

  /** A stem ending in a maximal, non-empty run of digits preceded by the
      tag carries the value of those digits. */
  lemma StemCarries(stem: string, digits: string)
    requires |digits| <= |stem| && stem[|stem| - |digits|..] == digits
    requires TrailingDigits(stem) == |digits| > 0 && TagBefore(stem, |stem| - |digits|)
    ensures AllDigits(digits) && SuffixOfStem(stem) == Some(DigitsValue(digits))
  {
    var d := |digits|;
    assert AllDigits(digits) by { assert stem[|stem| - d..] == digits; }
    assert SuffixOfStem(stem) == SuffixAt(stem, d) by {}
    SuffixAtTagged(stem, digits);
  }

  /** A non-empty run of digits ending the stem right after the tag is
      what `SuffixAt` reads. */
  lemma SuffixAtTagged(stem: string, digits: string)
    requires 0 < |digits| <= |stem| && stem[|stem| - |digits|..] == digits
    requires AllDigits(digits) && TagBefore(stem, |stem| - |digits|)
    ensures SuffixAt(stem, |digits|) == Some(DigitsValue(digits))
  {
  }

  /** Any name built as text + `latter_all_` + digits + `.pdf`, the two
      literal parts in any mixture of case, carries the value of its digits:
      the search may start anywhere in the name. */
  lemma SuffixOfComposed(pre: string, tag: string, digits: string, ext: string)
    requires EqualsIgnoreCase(tag, Tag) && EqualsIgnoreCase(ext, Ext)
    requires digits != [] && AllDigits(digits)
    ensures SuffixOf(pre + tag + digits + ext) == Some(DigitsValue(digits))
  {
    var base := pre + tag + digits + ext;
    var stem := pre + tag + digits;
    assert base[..|base| - |Ext|] == stem && base[|base| - |Ext|..] == ext;
    var m := |stem| - |digits|;
    assert stem[m..] == digits && stem[m - |Tag|..m] == tag;
    assert MatchesWith(base, digits);
    SuffixOfComplete(base, digits);
  }

  /** Leading zeros are ignored: `_01` and `_1` both carry 1. */
  lemma {:induction false} SuffixIgnoresLeadingZeros(pre: string, digits: string)
    requires digits != [] && AllDigits(digits)
    ensures SuffixOf(pre + Tag + "0" + digits + Ext) == SuffixOf(pre + Tag + digits + Ext)
  {
    DigitsValueLeadingZero(digits);
    assert pre + Tag + "0" + digits + Ext == pre + Tag + ("0" + digits) + Ext;
    SuffixOfComposed(pre, Tag, "0" + digits, Ext);
    SuffixOfComposed(pre, Tag, digits, Ext);
  }

  /** At least one digit is needed: the tag followed directly by the
      extension, whatever comes before it and in any case, carries nothing. */
  lemma SuffixRejects(pre: string, tag: string, ext: string)
    requires EqualsIgnoreCase(tag, Tag) && EqualsIgnoreCase(ext, Ext)
    ensures SuffixOf(pre + tag + ext) == None
  {
    var base := pre + tag + ext;
    var stem := pre + tag;
    assert base[..|base| - |Ext|] == stem && base[|base| - |Ext|..] == ext;
    assert stem[|stem| - 1] == tag[|Tag| - 1];
    assert LowerChar(tag[|Tag| - 1]) == LowerChar(Tag[|Tag| - 1]);
    TrailingDigitsUnique(stem, 0);
  }

  /** The name must end right after `.pdf`: a name with anything else at
      its end, such as `latter_all_7.pdf.bak`, carries nothing. */
  lemma SuffixRejectsOtherEnding(base: string)
    requires !HasPdfExtension(base)
    ensures SuffixOf(base) == None
  {
  }

  /** What one iteration of the matching loop appends for `p`, if anything. */
  function MatchOf(p: Path): (r: Option<Match>)
    ensures r.Some? <==> SuffixOf(p.base).Some?
    ensures r.Some? ==> r.value.path == p && Some(r.value.suffix) == SuffixOf(p.base)
  {
    match SuffixOf(p.base)
    case Some(n) => Some(Match(p, n))
    case None => None
  }

  /** `matched` before sorting: the loop over `pdf_paths` that appends
      `(p, num)` for each file whose name carries a number. */
  function MatchAll(pdfs: seq<Path>): (r: seq<Match>)
    ensures |r| <= |pdfs|
  {
    FilterMap(MatchOf, pdfs)
  }

  /** The matched list holds exactly the files whose names match, each with
      the number its name carries. */
  lemma MatchAllMembers(pdfs: seq<Path>)
    ensures forall m :: m in MatchAll(pdfs) ==>
              m.path in pdfs && SuffixOf(m.path.base) == Some(m.suffix)
    ensures forall p :: p in pdfs && SuffixOf(p.base).Some? ==>
              Match(p, SuffixOf(p.base).value) in MatchAll(pdfs)
  {
    FilterMapMembers(MatchOf, pdfs);
    var r := MatchAll(pdfs);
    forall m | m in r
      ensures m.path in pdfs && SuffixOf(m.path.base) == Some(m.suffix)
    {
      var k :| 0 <= k < |r| && r[k] == m;
      var i :| 0 <= i < |pdfs| && MatchOf(pdfs[i]) == Some(r[k]);
    }
    forall p | p in pdfs && SuffixOf(p.base).Some?
      ensures Match(p, SuffixOf(p.base).value) in r
    {
      var i :| 0 <= i < |pdfs| && pdfs[i] == p;
      assert MatchOf(pdfs[i]).Some?;
    }
  }

  /** The matched list keeps discovery order: its k-th entry is the k-th
      matching file, at increasing positions of the walk. */
  lemma MatchAllInDiscoveryOrder(pdfs: seq<Path>)
    ensures var rows := Selected(MatchOf, pdfs);
      && |MatchAll(pdfs)| == |rows|
      && (forall k :: 0 <= k < |rows| ==>
            rows[k] < |pdfs| && MatchAll(pdfs)[k].path == pdfs[rows[k]]
            && SuffixOf(pdfs[rows[k]].base) == Some(MatchAll(pdfs)[k].suffix))
      && (forall k, l :: 0 <= k < l < |rows| ==> rows[k] < rows[l])
  {
    FilterMapSelects(MatchOf, pdfs);
  }

  /** Matching piecewise and concatenating gives the same list. */
  lemma MatchAllAppend(a: seq<Path>, b: seq<Path>)
    ensures MatchAll(a + b) == MatchAll(a) + MatchAll(b)
  {
    FilterMapAppend(MatchOf, a, b);
  }

  /** The `.pdf` filter drops no letter: matching the filtered list or the
      whole walk gives the same matches. */
  lemma MatchAllOfPdfPaths(walk: seq<Path>)
    ensures MatchAll(PdfPaths(walk)) == MatchAll(walk)
  {
    FilterMapOfFilter(MatchOf, IsPdfPath, walk);
  }
}
