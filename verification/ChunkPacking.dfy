/** Where a long text is cut and how the pieces are packed, said of the result alone. */
module ChunkPacking {
  import opened Text
  import opened Chunking

  ghost predicate Occurs(text: string, sep: string) {
    exists i :: At(text, sep, i)
  }

  /** Paragraphs before lines, lines before sentences, sentences before words. */
  ghost function CutAt(text: string): (r: Option<string>)
    ensures r.Some? ==> r.value != "" && Occurs(text, r.value)
  {
    if Occurs(text, "\n\n") then Some("\n\n")
    else if Occurs(text, "\n") then Some("\n")
    else if Occurs(text, ". ") then Some(". ")
    else if Occurs(text, " ") then Some(" ")
    else None
  }

  /** The pieces `lo..hi`, which become one part or, if too long, are cut further. */
  datatype Run = Run(lo: nat, hi: nat)

  function RunText(pieces: seq<string>, sep: string, r: Run): string {
    if r.lo <= r.hi <= |pieces| then Join(pieces[r.lo..r.hi], sep) else ""
  }

  /** A run holds what fits, or one piece that does not, and the next piece would not fit too. */
  predicate Full(pieces: seq<string>, sep: string, maxChars: nat, r: Run) {
    && r.lo < r.hi <= |pieces| && pieces[r.lo] != ""
    && (|RunText(pieces, sep, r)| <= maxChars || r.hi == r.lo + 1)
    && (r.hi < |pieces| ==> |RunText(pieces, sep, r)| + |sep| + |pieces[r.hi]| > maxChars)
  }

  predicate Blank(pieces: seq<string>, from: nat, to: nat) {
    forall k :: from <= k < to && k < |pieces| ==> pieces[k] == ""
  }

  /** From `from` on, the pieces are the full runs, with nothing but empty pieces outside them. */
  predicate Packed(pieces: seq<string>, sep: string, maxChars: nat, from: nat, runs: seq<Run>)
    decreases |runs|
  {
    if runs == [] then Blank(pieces, from, |pieces|)
    else
      && from <= runs[0].lo && Blank(pieces, from, runs[0].lo)
      && Full(pieces, sep, maxChars, runs[0])
      && Packed(pieces, sep, maxChars, runs[0].hi, runs[1..])
  }

  function Parts(pieces: seq<string>, sep: string, maxChars: nat, runs: seq<Run>): seq<string>
    requires maxChars >= 1
  {
    if runs == [] then []
    else SplitRecursive(RunText(pieces, sep, runs[0]), maxChars) + Parts(pieces, sep, maxChars, runs[1..])
  }

  // -------------------------------------------------------------- the separator

  lemma IncludesIs(text: string, sep: string)
    ensures Includes(text, sep) <==> Occurs(text, sep)
  {
    IndexFromFinds(text, sep, 0);
  }

  lemma SeparatorIsFirst(text: string)
    ensures FirstSeparator(text, 0) == CutAt(text)
  {
    hide Occurs, Includes;
    IncludesIs(text, "\n\n");
    IncludesIs(text, "\n");
    IncludesIs(text, ". ");
    IncludesIs(text, " ");
    FirstSeparatorStep(text, 0);
    FirstSeparatorStep(text, 1);
    FirstSeparatorStep(text, 2);
    FirstSeparatorStep(text, 3);
  }

  // ---------------------------------------------------------------- the packing

  lemma JoinIsLonger(pieces: seq<string>, sep: string, lo: nat, hi: nat)
    requires lo < hi <= |pieces|
    ensures |Join(pieces[lo..hi], sep)| >= |pieces[lo]|
  {
    assert pieces[lo..hi][0] == pieces[lo];
  }

  lemma JoinNext(pieces: seq<string>, sep: string, lo: nat, hi: nat)
    requires lo < hi < |pieces|
    ensures Join(pieces[lo..hi + 1], sep) == Join(pieces[lo..hi], sep) + sep + pieces[hi]
  {
    JoinSnoc(pieces[lo..hi], pieces[hi], sep);
    assert pieces[lo..hi + 1] == pieces[lo..hi] + [pieces[hi]];
  }

  lemma PackedWiden(pieces: seq<string>, sep: string, maxChars: nat, k: nat, runs: seq<Run>)
    requires k < |pieces| && pieces[k] == "" && Packed(pieces, sep, maxChars, k + 1, runs)
    ensures Packed(pieces, sep, maxChars, k, runs)
  {
    hide Full;
  }

  lemma PackedCons(pieces: seq<string>, sep: string, maxChars: nat, r: Run, runs: seq<Run>)
    requires maxChars >= 1
    requires Full(pieces, sep, maxChars, r) && Packed(pieces, sep, maxChars, r.hi, runs)
    ensures Packed(pieces, sep, maxChars, r.lo, [r] + runs)
    ensures Parts(pieces, sep, maxChars, [r] + runs)
         == SplitRecursive(RunText(pieces, sep, r), maxChars) + Parts(pieces, sep, maxChars, runs)
  {
    hide Full, SplitRecursive, RunText;
    assert ([r] + runs)[1..] == runs;
  }

  /** The merge with an empty current text, in front of piece `k`. */
  lemma MergeClosed(pieces: seq<string>, sep: string, maxChars: nat, k: nat, bound: nat) returns (runs: seq<Run>)
    requires 1 <= maxChars < bound && k <= |pieces| && forall p :: p in pieces ==> |p| < bound
    ensures Packed(pieces, sep, maxChars, k, runs)
    ensures Merge(pieces[k..], sep, maxChars, "", bound) == Parts(pieces, sep, maxChars, runs)
    decreases |pieces| - k, 1
  {
    hide Merge, SplitRecursive, Full, RunText, Flush;
    FlushIs("", maxChars);
    if k == |pieces| {
      MergeEnd(sep, maxChars, "", bound);
      assert pieces[k..] == [];
      return [];
    }
    MergeStep(pieces, k, sep, maxChars, "", bound);
    CandidateIs("", sep, pieces[k]);
    hide Parts;
    var next := Merge(pieces[k + 1..], sep, maxChars, pieces[k], bound);
    assert [] + next == next;
    runs := MergeAfter(pieces, sep, maxChars, k, bound);
  }

  /** The merge whose current text is piece `k`. */
  lemma MergeAfter(pieces: seq<string>, sep: string, maxChars: nat, k: nat, bound: nat) returns (runs: seq<Run>)
    requires 1 <= maxChars < bound && k < |pieces| && forall p :: p in pieces ==> |p| < bound
    ensures Packed(pieces, sep, maxChars, k, runs)
    ensures Merge(pieces[k + 1..], sep, maxChars, pieces[k], bound) == Parts(pieces, sep, maxChars, runs)
    decreases |pieces| - k, 0
  {
    hide Merge, SplitRecursive, Full, RunText, Parts;
    if pieces[k] == "" {
      runs := MergeClosed(pieces, sep, maxChars, k + 1, bound);
      PackedWiden(pieces, sep, maxChars, k, runs);
    } else {
      assert pieces[k..k + 1] == [pieces[k]];
      runs := MergeOpen(pieces, sep, maxChars, k, k + 1, bound);
    }
  }

  /** The merge whose current text is the run `lo..k`. */
  lemma MergeOpen(pieces: seq<string>, sep: string, maxChars: nat, lo: nat, k: nat, bound: nat)
    returns (runs: seq<Run>)
    requires 1 <= maxChars < bound && lo < k <= |pieces| && forall p :: p in pieces ==> |p| < bound
    requires pieces[lo] != "" && |Join(pieces[lo..k], sep)| < bound
    requires |Join(pieces[lo..k], sep)| <= maxChars || k == lo + 1
    ensures Packed(pieces, sep, maxChars, lo, runs)
    ensures Merge(pieces[k..], sep, maxChars, Join(pieces[lo..k], sep), bound) == Parts(pieces, sep, maxChars, runs)
    decreases |pieces| - k, 2
  {
    hide Merge, SplitRecursive, Parts, Packed, Join, Flush;
    var current := Join(pieces[lo..k], sep);
    JoinIsLonger(pieces, sep, lo, k);
    FlushIs(current, maxChars);
    if k == |pieces| {
      MergeEnd(sep, maxChars, current, bound);
      PackedNothing(pieces, sep, maxChars);
      PackedCons(pieces, sep, maxChars, Run(lo, k), []);
      assert pieces[k..] == [];
      var parts := SplitRecursive(current, maxChars);
      assert parts + [] == parts && [Run(lo, k)] + [] == [Run(lo, k)];
      return [Run(lo, k)];
    }
    MergeStep(pieces, k, sep, maxChars, current, bound);
    CandidateIs(current, sep, pieces[k]);
    JoinNext(pieces, sep, lo, k);
    if |current + sep + pieces[k]| <= maxChars {
      runs := MergeOpen(pieces, sep, maxChars, lo, k + 1, bound);
    } else {
      var rest := MergeAfter(pieces, sep, maxChars, k, bound);
      PackedCons(pieces, sep, maxChars, Run(lo, k), rest);
      runs := [Run(lo, k)] + rest;
    }
  }

  lemma PackedNothing(pieces: seq<string>, sep: string, maxChars: nat)
    requires maxChars >= 1
    ensures Packed(pieces, sep, maxChars, |pieces|, []) && Parts(pieces, sep, maxChars, []) == []
  {
  }

  // ------------------------------------------------------------------- theorems

  /** A text that fits is left alone. */
  lemma ShortTextIsKept(text: string, maxChars: nat)
    requires maxChars >= 1 && |text| <= maxChars
    ensures SplitRecursive(text, maxChars) == [text]
  {
    SplitSmall(text, maxChars);
  }

  /** `parts` are the runs of a packing of the pieces of `text`, each joined again. */
  ghost predicate PackedInto(text: string, sep: string, maxChars: nat, runs: seq<Run>, parts: seq<string>)
  {
    && sep != "" && Packed(Split(text, sep), sep, maxChars, 0, runs) && |parts| == |runs|
    && forall k :: 0 <= k < |runs| ==> parts[k] == RunText(Split(text, sep), sep, runs[k])
  }

  /** A longer text is cut at the first separator of the list that occurs, and its pieces are packed greedily. */
  lemma SplitPacks(text: string, maxChars: nat) returns (runs: seq<Run>)
    requires 1 <= maxChars < |text| && CutAt(text).Some?
    ensures var sep := CutAt(text).value;
      Packed(Split(text, sep), sep, maxChars, 0, runs)
      && SplitRecursive(text, maxChars) == Parts(Split(text, sep), sep, maxChars, runs)
  {
    hide CutAt, SplitRecursive, Merge, FirstSeparator, Split, Packed, Parts;
    SeparatorIsFirst(text);
    var sep := CutAt(text).value;
    PiecesShorter(text, sep);
    SplitAtSeparator(text, sep, maxChars);
    var pieces := Split(text, sep);
    runs := MergeClosed(pieces, sep, maxChars, 0, |text|);
    assert pieces[0..] == pieces;
  }

  lemma {:induction false} PartsThatFit(pieces: seq<string>, sep: string, maxChars: nat, from: nat, runs: seq<Run>)
    requires maxChars >= 1 && Packed(pieces, sep, maxChars, from, runs)
    requires forall p :: p in pieces ==> |p| <= maxChars
    ensures |Parts(pieces, sep, maxChars, runs)| == |runs|
    ensures forall k :: 0 <= k < |runs| ==> Parts(pieces, sep, maxChars, runs)[k] == RunText(pieces, sep, runs[k])
    decreases |runs|
  {
    hide SplitRecursive;
    if runs != [] {
      var r := runs[0];
      PartsThatFit(pieces, sep, maxChars, r.hi, runs[1..]);
      if r.hi == r.lo + 1 {
        assert pieces[r.lo..r.hi] == [pieces[r.lo]];
      }
      SplitSmall(RunText(pieces, sep, r), maxChars);
    }
  }

  /**
   * When every piece fits, no piece is ever cut: each part is a run of whole
   * pieces joined by the separator, and the parts are the greedy packing.
   */
  lemma PiecesStayWhole(text: string, maxChars: nat) returns (runs: seq<Run>)
    requires 1 <= maxChars < |text| && CutAt(text).Some?
    requires forall p :: p in Split(text, CutAt(text).value) ==> |p| <= maxChars
    ensures PackedInto(text, CutAt(text).value, maxChars, runs, SplitRecursive(text, maxChars))
  {
    hide CutAt, SplitRecursive, Split, Packed, Parts, RunText;
    runs := SplitPacks(text, maxChars);
    var sep := CutAt(text).value;
    PartsThatFit(Split(text, sep), sep, maxChars, 0, runs);
  }

  /** Between neighbouring parts the packing is greedy: what starts the second would not have fitted into the first. */
  lemma {:induction false} NextPieceDoesNotFit(pieces: seq<string>, sep: string, maxChars: nat, from: nat,
                                               runs: seq<Run>, k: nat)
    requires Packed(pieces, sep, maxChars, from, runs) && k + 1 < |runs|
    ensures var hi := runs[k].hi;
      && from <= runs[k].lo && runs[k].lo < hi <= runs[k + 1].lo && hi < |pieces|
      && Blank(pieces, hi, runs[k + 1].lo)
      && |Join(pieces[runs[k].lo..hi], sep)| + |sep| + |pieces[hi]| > maxChars
    decreases |runs|
  {
    if k > 0 { NextPieceDoesNotFit(pieces, sep, maxChars, runs[0].hi, runs[1..], k - 1); }
  }

  // ------------------------------------------------------------------ uniqueness

  lemma {:induction false} JoinGrows(pieces: seq<string>, sep: string, lo: nat, mid: nat, hi: nat)
    requires lo < mid < hi <= |pieces|
    ensures |Join(pieces[lo..hi], sep)| >= |Join(pieces[lo..mid], sep)| + |sep| + |pieces[mid]|
    decreases hi
  {
    hide Join;
    JoinNext(pieces, sep, lo, hi - 1);
    if mid < hi - 1 { JoinGrows(pieces, sep, lo, mid, hi - 1); }
  }

  lemma FullRunIsUnique(pieces: seq<string>, sep: string, maxChars: nat, r: Run, q: Run)
    requires r.lo == q.lo && Full(pieces, sep, maxChars, r) && Full(pieces, sep, maxChars, q)
    ensures r == q
  {
    hide Join;
    if r.hi < q.hi {
      JoinGrows(pieces, sep, r.lo, r.hi, q.hi);
    } else if q.hi < r.hi {
      JoinGrows(pieces, sep, r.lo, q.hi, r.hi);
    }
  }

  /** There is one packing only, so the parts of a long text are determined by its pieces. */
  lemma {:induction false} PackingIsUnique(pieces: seq<string>, sep: string, maxChars: nat, from: nat,
                                           a: seq<Run>, b: seq<Run>)
    requires Packed(pieces, sep, maxChars, from, a) && Packed(pieces, sep, maxChars, from, b)
    ensures a == b
    decreases |a|
  {
    hide RunText;
    if a == [] || b == [] {
    } else {
      FullRunIsUnique(pieces, sep, maxChars, a[0], b[0]);
      PackingIsUnique(pieces, sep, maxChars, a[0].hi, a[1..], b[1..]);
      assert a == [a[0]] + a[1..] && b == [b[0]] + b[1..];
    }
  }

  // ---------------------------------------------------------------- no separator

  /** All slices but the last have exactly `maxChars` characters. */
  predicate Slices(text: string, maxChars: nat, parts: seq<string>) {
    && Concat(parts) == text && parts != []
    && (forall k :: 0 <= k < |parts| - 1 ==> |parts[k]| == maxChars)
    && 1 <= |parts[|parts| - 1]| <= maxChars
  }

  lemma {:induction false} HardCutSlices(text: string, maxChars: nat)
    requires maxChars >= 1 && text != ""
    ensures Slices(text, maxChars, HardCut(text, maxChars))
    decreases |text|
  {
    if |text| <= maxChars {
      assert [text][1..] == [];
      assert Concat([text]) == text + Concat<char>([]);
    } else {
      var head, tail := text[..maxChars], text[maxChars..];
      HardCutSlices(tail, maxChars);
      var rest := HardCut(tail, maxChars);
      assert ([head] + rest)[1..] == rest && head + tail == text;
    }
  }

  /** Where no separator occurs, the text is sliced. */
  lemma WordIsSliced(text: string, maxChars: nat)
    requires 1 <= maxChars < |text| && CutAt(text) == None
    ensures Slices(text, maxChars, SplitRecursive(text, maxChars))
  {
    hide CutAt, SplitRecursive, HardCut, FirstSeparator;
    SeparatorIsFirst(text);
    FirstSeparatorEnd(text);
    SplitWithoutSeparator(text, maxChars);
    HardCutSlices(text, maxChars);
  }

  lemma FirstSeparatorEnd(text: string)
    ensures FirstSeparator(text, |SEPARATORS|) == None
  {
  }

  // ------------------------------------------------------------------ the pieces

  /** The pieces are what lies between the separators: none of them holds one. */
  lemma {:induction false} PiecesHoldNoSeparator(text: string, sep: string)
    requires sep != ""
    ensures Join(Split(text, sep), sep) == text
    ensures forall p :: p in Split(text, sep) ==> !Occurs(p, sep)
    decreases |text|
  {
    hide IndexFrom, At, Occurs;
    JoinSplit(text, sep);
    IndexFromFinds(text, sep, 0);
    if IndexFrom(text, sep, 0).None? {
      IncludesIs(text, sep);
    } else {
      var i := IndexFrom(text, sep, 0).value;
      BeforeFirst(text, sep, i);
      PiecesHoldNoSeparator(text[i + |sep|..], sep);
    }
  }

  lemma BeforeFirst(text: string, sep: string, i: nat)
    requires sep != "" && i <= |text| && forall j :: 0 <= j < i ==> !At(text, sep, j)
    ensures !Occurs(text[..i], sep)
  {
    forall j ensures !At(text[..i], sep, j) {
      if 0 <= j && j + |sep| <= i {
        assert text[..i][j..j + |sep|] == text[j..j + |sep|];
        assert !At(text, sep, j);
      }
    }
  }
}
