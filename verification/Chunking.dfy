/** Structure-aware recursive chunking of a document's text. */
module Chunking {
  import opened Text

  const DEFAULT_MAX := 1200
  const DEFAULT_OVERLAP := 150

  /** Tried in this order; when none occurs the text is cut at fixed offsets. */
  const SEPARATORS := ["\n\n", "\n", ". ", " "]

  // ----------------------------------------------------- specification of split

  function FirstSeparator(text: string, from: nat): (r: Option<string>)
    requires from <= |SEPARATORS|
    ensures r.Some? ==> r.value in SEPARATORS && r.value != "" && Includes(text, r.value)
    decreases |SEPARATORS| - from
  {
    if from == |SEPARATORS| then None
    else if Includes(text, SEPARATORS[from]) then Some(SEPARATORS[from])
    else FirstSeparator(text, from + 1)
  }

  function HardCut(text: string, maxChars: nat): seq<string>
    requires maxChars >= 1
  {
    if text == "" then []
    else if |text| <= maxChars then [text]
    else [text[..maxChars]] + HardCut(text[maxChars..], maxChars)
  }

  function SplitRecursive(text: string, maxChars: nat): seq<string>
    requires maxChars >= 1
    decreases |text|, 1, 0
  {
    if |text| <= maxChars then [text]
    else match FirstSeparator(text, 0)
      case None => HardCut(text, maxChars)
      case Some(sep) =>
        PiecesShorter(text, sep);
        Merge(Split(text, sep), sep, maxChars, "", |text|)
  }

  function Flush(current: string, maxChars: nat): seq<string>
    requires maxChars >= 1
    decreases |current|, 2, 0
  {
    if current == "" then [] else SplitRecursive(current, maxChars)
  }

  function Candidate(current: string, sep: string, piece: string): string {
    if current == "" then piece else current + sep + piece
  }

  /** Greedy merging of the pieces still to come, given the merge in progress. */
  function Merge(pieces: seq<string>, sep: string, maxChars: nat, current: string, ghost bound: nat): seq<string>
    requires 1 <= maxChars < bound && |current| < bound && forall p :: p in pieces ==> |p| < bound
    decreases bound, 0, |pieces|
  {
    if pieces == [] then Flush(current, maxChars)
    else
      var candidate := Candidate(current, sep, pieces[0]);
      if |candidate| <= maxChars then Merge(pieces[1..], sep, maxChars, candidate, bound)
      else Flush(current, maxChars) + Merge(pieces[1..], sep, maxChars, pieces[0], bound)
  }

  // ------------------------------------------------------------- the algorithm

  method SplitText(text: string, maxChars: nat) returns (parts: seq<string>)
    requires maxChars >= 1
    ensures parts == SplitRecursive(text, maxChars)
    decreases |text|
  {
    hide *;
    if |text| <= maxChars {
      SplitSmall(text, maxChars);
      return [text];
    }
    for s := 0 to |SEPARATORS|
      invariant FirstSeparator(text, 0) == FirstSeparator(text, s)
    {
      var sep := SEPARATORS[s];
      FirstSeparatorStep(text, s);
      if !Includes(text, sep) { continue; }
      PiecesShorter(text, sep);
      var pieces := Split(text, sep);
      SplitAtSeparator(text, sep, maxChars);
      ghost var whole := SplitRecursive(text, maxChars);
      assert pieces[0..] == pieces;
      var merged: seq<string> := [];
      var current := "";
      for k := 0 to |pieces|
        invariant |current| < |text|
        invariant whole == merged + Merge(pieces[k..], sep, maxChars, current, |text|)
      {
        var piece := pieces[k];
        MergeStep(pieces, k, sep, maxChars, current, |text|);
        CandidateIs(current, sep, piece);
        var candidate := if current != "" then current + sep + piece else piece;
        if |candidate| <= maxChars {
          current := candidate;
        } else {
          Assoc(merged, Flush(current, maxChars), Merge(pieces[k + 1..], sep, maxChars, piece, |text|));
          FlushIs(current, maxChars);
          if current != "" {
            var sub := SplitText(current, maxChars);
            merged := merged + sub;
          }
          current := piece;
        }
      }
      assert pieces[|pieces|..] == [];
      MergeEnd(sep, maxChars, current, |text|);
      FlushIs(current, maxChars);
      if current != "" {
        var sub := SplitText(current, maxChars);
        merged := merged + sub;
      }
      return merged;
    }
    parts := [];
    var i := 0;
    assert text[0..] == text;
    while i < |text|
      invariant 0 <= i
      invariant HardCut(text, maxChars)
             == parts + HardCut(text[if i < |text| then i else |text|..], maxChars)
    {
      var stop := if i + maxChars < |text| then i + maxChars else |text|;
      HardCutStep(text, maxChars, i, stop);
      Assoc(parts, [text[i..stop]], HardCut(text[stop..], maxChars));
      parts := parts + [text[i..stop]];
      i := i + maxChars;
    }
    assert text[|text|..] == "";
    HardCutNothing(maxChars);
    SplitWithoutSeparator(text, maxChars);
  }

  lemma SplitSmall(text: string, maxChars: nat)
    requires maxChars >= 1 && |text| <= maxChars
    ensures SplitRecursive(text, maxChars) == [text]
  {
  }

  lemma SplitAtSeparator(text: string, sep: string, maxChars: nat)
    requires 1 <= maxChars < |text| && FirstSeparator(text, 0) == Some(sep)
    requires forall p :: p in Split(text, sep) ==> |p| < |text|
    ensures SplitRecursive(text, maxChars) == Merge(Split(text, sep), sep, maxChars, "", |text|)
  {
    hide Split, Merge, FirstSeparator;
  }

  lemma SplitWithoutSeparator(text: string, maxChars: nat)
    requires 1 <= maxChars < |text| && FirstSeparator(text, 0) == FirstSeparator(text, |SEPARATORS|)
    ensures SplitRecursive(text, maxChars) == HardCut(text, maxChars)
  {
    hide Split, Merge, HardCut;
    assert FirstSeparator(text, |SEPARATORS|) == None;
    hide FirstSeparator;
  }

  lemma FirstSeparatorStep(text: string, s: nat)
    requires s < |SEPARATORS|
    ensures SEPARATORS[s] != ""
    ensures FirstSeparator(text, s)
         == if Includes(text, SEPARATORS[s]) then Some(SEPARATORS[s]) else FirstSeparator(text, s + 1)
  {
    hide Includes;
  }

  lemma CandidateIs(current: string, sep: string, piece: string)
    ensures Candidate(current, sep, piece) == if current != "" then current + sep + piece else piece
  {
  }

  lemma MergeStep(pieces: seq<string>, k: nat, sep: string, maxChars: nat, current: string, bound: nat)
    requires 1 <= maxChars < bound && |current| < bound && forall p :: p in pieces ==> |p| < bound
    requires k < |pieces|
    ensures var candidate := Candidate(current, sep, pieces[k]);
      Merge(pieces[k..], sep, maxChars, current, bound)
      == if |candidate| <= maxChars then Merge(pieces[k + 1..], sep, maxChars, candidate, bound)
         else Flush(current, maxChars) + Merge(pieces[k + 1..], sep, maxChars, pieces[k], bound)
  {
    hide Flush;
    assert pieces[k..][0] == pieces[k] && pieces[k..][1..] == pieces[k + 1..];
  }

  lemma MergeEnd(sep: string, maxChars: nat, current: string, bound: nat)
    requires 1 <= maxChars < bound && |current| < bound
    ensures Merge([], sep, maxChars, current, bound) == Flush(current, maxChars)
  {
  }

  lemma FlushIs(current: string, maxChars: nat)
    requires maxChars >= 1
    ensures Flush(current, maxChars) == if current == "" then [] else SplitRecursive(current, maxChars)
  {
  }

  lemma HardCutNothing(maxChars: nat)
    requires maxChars >= 1
    ensures HardCut("", maxChars) == []
  {
  }

  lemma HardCutStep(text: string, maxChars: nat, i: nat, stop: nat)
    requires maxChars >= 1 && i < |text|
    requires stop == if i + maxChars < |text| then i + maxChars else |text|
    ensures HardCut(text[i..], maxChars) == [text[i..stop]] + HardCut(text[stop..], maxChars)
  {
    if i + maxChars < |text| {
      assert text[i..][..maxChars] == text[i..stop];
      assert text[i..][maxChars..] == text[stop..];
    } else {
      assert text[i..] == text[i..stop];
      assert text[stop..] == "";
    }
  }

  // ------------------------------------------------------------------- tiling

  /** Built from the separators alone. */
  predicate GapRun(g: string) {
    g == ""
    || ((g[0] == '\n' || g[0] == ' ') && GapRun(g[1..]))
    || (|g| >= 2 && g[0] == '.' && g[1] == ' ' && GapRun(g[2..]))
  }

  predicate GapRuns(gaps: seq<string>) {
    forall k :: 0 <= k < |gaps| ==> GapRun(gaps[k])
  }

  predicate Sized(parts: seq<string>, maxChars: nat) {
    forall k :: 0 <= k < |parts| ==> 1 <= |parts[k]| <= maxChars
  }

  /** `parts` are consecutive pieces of `text`, and nothing but separators lies between them. */
  predicate TiledBy(gaps: seq<string>, text: string, parts: seq<string>, maxChars: nat) {
    |gaps| == |parts| + 1 && GapRuns(gaps) && Weave(gaps, parts) == text && Sized(parts, maxChars)
  }

  ghost predicate Tiled(text: string, parts: seq<string>, maxChars: nat) {
    exists gaps :: TiledBy(gaps, text, parts, maxChars)
  }

  lemma {:induction false} GapRunAppend(a: string, b: string)
    requires GapRun(a) && GapRun(b)
    ensures GapRun(a + b)
  {
    if a == "" {
      assert a + b == b;
    } else if (a[0] == '\n' || a[0] == ' ') && GapRun(a[1..]) {
      assert (a + b)[1..] == a[1..] + b;
      GapRunAppend(a[1..], b);
    } else {
      assert (a + b)[2..] == a[2..] + b;
      GapRunAppend(a[2..], b);
    }
  }

  lemma SeparatorsAreGaps(sep: string)
    requires sep in SEPARATORS
    ensures GapRun(sep)
  {
    assert GapRun("");
    assert "\n"[1..] == "" && " "[1..] == "" && "\n\n"[1..] == "\n" && ". "[2..] == "";
  }

  /** Two tilings side by side, with `mid` between them. */
  function Bridge(g1: seq<string>, mid: string, g2: seq<string>): seq<string>
    requires |g1| >= 1 && |g2| >= 1
  {
    g1[..|g1| - 1] + [g1[|g1| - 1] + mid + g2[0]] + g2[1..]
  }

  lemma {:induction false} WeaveBridge(g1: seq<string>, p1: seq<string>, mid: string, g2: seq<string>, p2: seq<string>)
    requires |g1| == |p1| + 1 && |g2| == |p2| + 1
    ensures Weave(Bridge(g1, mid, g2), p1 + p2) == Weave(g1, p1) + mid + Weave(g2, p2)
    decreases |p1|
  {
    if p1 == [] {
      assert p1 + p2 == p2;
      assert Bridge(g1, mid, g2) == [g1[0] + mid + g2[0]] + g2[1..];
      WidenFirst(g1[0] + mid, g2, p2);
    } else {
      WeaveBridge(g1[1..], p1[1..], mid, g2, p2);
      assert (p1 + p2)[1..] == p1[1..] + p2;
      assert Bridge(g1, mid, g2)[1..] == Bridge(g1[1..], mid, g2);
      assert Bridge(g1, mid, g2)[0] == g1[0];
      Regroup(g1[0] + p1[0], Weave(g1[1..], p1[1..]), mid, Weave(g2, p2));
    }
  }

  lemma WidenFirst(extra: string, g: seq<string>, p: seq<string>)
    requires |g| == |p| + 1
    ensures Weave([extra + g[0]] + g[1..], p) == extra + Weave(g, p)
  {
    var h := [extra + g[0]] + g[1..];
    assert h[1..] == g[1..];
    if p != [] {
      Regroup(extra, g[0], p[0], Weave(g[1..], p[1..]));
      Assoc(extra, g[0] + p[0], Weave(g[1..], p[1..]));
    }
  }

  lemma Regroup(a: string, b: string, c: string, d: string)
    ensures a + (b + c + d) == a + b + c + d
  {
  }

  lemma BridgeRuns(g1: seq<string>, mid: string, g2: seq<string>)
    requires |g1| >= 1 && |g2| >= 1 && GapRuns(g1) && GapRuns(g2) && GapRun(mid)
    ensures GapRuns(Bridge(g1, mid, g2))
  {
    GapRunAppend(g1[|g1| - 1], mid);
    GapRunAppend(g1[|g1| - 1] + mid, g2[0]);
    hide GapRun;
  }

  lemma TiledBridge(t1: string, p1: seq<string>, mid: string, t2: string, p2: seq<string>, maxChars: nat)
    requires Tiled(t1, p1, maxChars) && Tiled(t2, p2, maxChars) && GapRun(mid)
    ensures Tiled(t1 + mid + t2, p1 + p2, maxChars)
  {
    hide Weave, GapRun;
    var g1 :| TiledBy(g1, t1, p1, maxChars);
    var g2 :| TiledBy(g2, t2, p2, maxChars);
    WeaveBridge(g1, p1, mid, g2, p2);
    BridgeRuns(g1, mid, g2);
    assert TiledBy(Bridge(g1, mid, g2), t1 + mid + t2, p1 + p2, maxChars);
  }

  lemma TiledEmpty(maxChars: nat)
    ensures Tiled("", [], maxChars)
  {
    assert TiledBy([""], "", [], maxChars);
  }

  lemma TiledWhole(text: string, maxChars: nat)
    requires 1 <= |text| <= maxChars
    ensures Tiled(text, [text], maxChars)
  {
    assert Weave([""], []) == "";
    assert ["", ""][1..] == [""] && [text][1..] == [];
    assert TiledBy(["", ""], text, [text], maxChars);
  }

  lemma {:induction false} HardCutTiles(text: string, maxChars: nat)
    requires maxChars >= 1
    ensures Tiled(text, HardCut(text, maxChars), maxChars)
    decreases |text|
  {
    if text == "" {
      TiledEmpty(maxChars);
    } else if |text| <= maxChars {
      TiledWhole(text, maxChars);
    } else {
      var head, tail := text[..maxChars], text[maxChars..];
      TiledWhole(head, maxChars);
      HardCutTiles(tail, maxChars);
      TiledBridge(head, [head], "", tail, HardCut(tail, maxChars), maxChars);
      assert head + "" + tail == text;
    }
  }

  /** `splitRecursive` tiles its input with parts of at most `maxChars` characters. */
  lemma {:induction false} SplitTiles(text: string, maxChars: nat)
    requires maxChars >= 1 && text != ""
    ensures Tiled(text, SplitRecursive(text, maxChars), maxChars)
    decreases |text|, 1, 0
  {
    hide Split, Tiled;
    if |text| <= maxChars {
      TiledWhole(text, maxChars);
    } else {
      match FirstSeparator(text, 0) {
        case None => HardCutTiles(text, maxChars);
        case Some(sep) =>
          var pieces := Split(text, sep);
          PiecesShorter(text, sep);
          JoinSplit(text, sep);
          FirstPiece(pieces, sep, maxChars, |text|);
          MergeTiles(pieces[1..], sep, maxChars, pieces[0], |text|);
          assert [pieces[0]] + pieces[1..] == pieces;
      }
    }
  }

  /** The first piece simply becomes the merge in progress. */
  lemma FirstPiece(pieces: seq<string>, sep: string, maxChars: nat, bound: nat)
    requires 1 <= maxChars < bound && |pieces| >= 1 && forall p :: p in pieces ==> |p| < bound
    ensures Merge(pieces, sep, maxChars, "", bound) == Merge(pieces[1..], sep, maxChars, pieces[0], bound)
  {
    assert [] + Merge(pieces[1..], sep, maxChars, pieces[0], bound)
        == Merge(pieces[1..], sep, maxChars, pieces[0], bound);
  }

  lemma FlushTiles(current: string, maxChars: nat)
    requires maxChars >= 1
    ensures Tiled(current, Flush(current, maxChars), maxChars)
    decreases |current|, 2, 0
  {
    if current == "" { TiledEmpty(maxChars); } else { SplitTiles(current, maxChars); }
  }

  lemma {:induction false} MergeTiles(pieces: seq<string>, sep: string, maxChars: nat, current: string, bound: nat)
    requires sep in SEPARATORS
    requires 1 <= maxChars < bound && |current| < bound && forall p :: p in pieces ==> |p| < bound
    ensures Tiled(Join([current] + pieces, sep), Merge(pieces, sep, maxChars, current, bound), maxChars)
    decreases bound, 0, |pieces|
  {
    hide Tiled, SplitRecursive;
    SeparatorsAreGaps(sep);
    hide GapRun;
    FlushTiles(current, maxChars);
    if pieces == [] {
      assert [current] + pieces == [current];
    } else {
      var piece, rest := pieces[0], pieces[1..];
      JoinCons(current, piece, rest, sep);
      var candidate := Candidate(current, sep, piece);
      if |candidate| <= maxChars && current != "" {
        MergeTiles(rest, sep, maxChars, candidate, bound);
        JoinFold(current, piece, rest, sep);
      } else {
        MergeTiles(rest, sep, maxChars, piece, bound);
        TiledBridge(current, Flush(current, maxChars), sep, Join([piece] + rest, sep),
                    Merge(rest, sep, maxChars, piece, bound), maxChars);
        if current == "" {
          assert [] + Merge(rest, sep, maxChars, piece, bound) == Merge(rest, sep, maxChars, piece, bound);
        }
      }
    }
  }

  lemma JoinCons(current: string, piece: string, rest: seq<string>, sep: string)
    ensures Join([current] + ([piece] + rest), sep) == current + sep + Join([piece] + rest, sep)
    ensures forall pieces :: pieces == [piece] + rest ==> [current] + pieces == [current] + ([piece] + rest)
  {
    assert ([current] + ([piece] + rest))[1..] == [piece] + rest;
  }

  lemma JoinFold(current: string, piece: string, rest: seq<string>, sep: string)
    ensures Join([current + sep + piece] + rest, sep) == current + sep + Join([piece] + rest, sep)
  {
    assert ([current + sep + piece] + rest)[1..] == rest == ([piece] + rest)[1..];
    if rest != [] {
      Regroup(current + sep, piece, sep, Join(rest, sep));
    }
  }

  // ------------------------------------------------------------- conservation

  /** Characters that never belong to a separator. */
  predicate Solid(c: char) {
    c != '\n' && c != '.' && c != ' '
  }

  lemma {:induction false} GapsAreNotSolid(g: string)
    requires GapRun(g)
    ensures forall c :: c in g ==> !Solid(c)
  {
    if g != "" {
      if (g[0] == '\n' || g[0] == ' ') && GapRun(g[1..]) {
        GapsAreNotSolid(g[1..]);
      } else {
        GapsAreNotSolid(g[2..]);
      }
    }
  }

  lemma {:induction false} WeaveSolid(gaps: seq<string>, parts: seq<string>)
    requires |gaps| == |parts| + 1 && GapRuns(gaps)
    ensures Filter(Weave(gaps, parts), Solid) == Filter(Concat(parts), Solid)
    decreases |parts|
  {
    hide GapRun;
    GapsAreNotSolid(gaps[0]);
    FilterNone(gaps[0], Solid);
    if parts != [] {
      WeaveSolid(gaps[1..], parts[1..]);
      SolidStep(gaps[0], parts[0], Weave(gaps[1..], parts[1..]), Concat(parts[1..]));
    }
  }

  lemma SolidStep(gap: string, part: string, rest: string, later: string)
    requires Filter(gap, Solid) == [] && Filter(rest, Solid) == Filter(later, Solid)
    ensures Filter(gap + part + rest, Solid) == Filter(part + later, Solid)
  {
    hide Filter;
    FilterAppend(gap + part, rest, Solid);
    FilterAppend(gap, part, Solid);
    FilterAppend(part, later, Solid);
    assert [] + Filter(part, Solid) == Filter(part, Solid);
  }

  /** Every character other than newline, period and space survives splitting, in order. */
  lemma SplitConserves(text: string, maxChars: nat)
    requires maxChars >= 1 && text != ""
    ensures Filter(Concat(SplitRecursive(text, maxChars)), Solid) == Filter(text, Solid)
  {
    hide SplitRecursive, Concat, Filter, GapRuns;
    SplitTiles(text, maxChars);
    var parts := SplitRecursive(text, maxChars);
    var gaps :| TiledBy(gaps, text, parts, maxChars);
    WeaveSolid(gaps, parts);
  }

  // -------------------------------------------------------------------- chunks

  datatype TextChunk = TextChunk(index: nat, content: string, tokenCount: nat)

  function EstimateTokens(text: string): (n: nat)
    ensures n >= 1 && 4 * n >= |text| && (|text| >= 1 ==> 4 * (n - 1) < |text|)
  {
    var quarter := (|text| + 3) / 4;
    if quarter < 1 then 1 else quarter
  }

  function Normalize(text: string): string {
    Trim(Join(Split(text, "\r\n"), "\n"))
  }

  /** JavaScript `s.slice(0, n)` for a non-negative `n`. */
  function Prefix(s: string, n: nat): string {
    if n < |s| then s[..n] else s
  }

  /** JavaScript `prev.slice(Math.max(0, prev.length - n))`. */
  function Suffix(prev: string, n: nat): string {
    if n < |prev| then prev[|prev| - n..] else prev
  }

  /** The text of chunk `i` before trimming. */
  function Raw(parts: seq<string>, i: nat, maxChars: nat, overlapChars: int): string
    requires i < |parts|
  {
    if i > 0 && overlapChars > 0
    then Prefix(Suffix(parts[i - 1], overlapChars) + parts[i], maxChars + overlapChars)
    else parts[i]
  }

  function ChunksFrom(parts: seq<string>, i: nat, index: nat, maxChars: nat, overlapChars: int): seq<TextChunk>
    requires i <= |parts|
    decreases |parts| - i
  {
    if i == |parts| then []
    else
      var content := Trim(Raw(parts, i, maxChars, overlapChars));
      if content == "" then ChunksFrom(parts, i + 1, index, maxChars, overlapChars)
      else [TextChunk(index, content, EstimateTokens(content))]
           + ChunksFrom(parts, i + 1, index + 1, maxChars, overlapChars)
  }

  function ChunkText(text: string, maxChars: nat, overlapChars: int): seq<TextChunk>
    requires maxChars >= 1
  {
    var normalized := Normalize(text);
    if normalized == "" then [] else ChunksFrom(SplitRecursive(normalized, maxChars), 0, 0, maxChars, overlapChars)
  }

  method ComputeChunks(text: string, maxChars: nat, overlapChars: int) returns (chunks: seq<TextChunk>)
    requires maxChars >= 1
    ensures chunks == ChunkText(text, maxChars, overlapChars)
  {
    hide Normalize, SplitRecursive, Trim, EstimateTokens;
    var normalized := Normalize(text);
    if normalized == "" { return []; }
    var parts := SplitText(normalized, maxChars);
    chunks := [];
    var index := 0;
    for i := 0 to |parts|
      invariant ChunksFrom(parts, 0, 0, maxChars, overlapChars)
             == chunks + ChunksFrom(parts, i, index, maxChars, overlapChars)
    {
      var content := parts[i];
      if i > 0 && overlapChars > 0 {
        content := Prefix(Suffix(parts[i - 1], overlapChars) + content, maxChars + overlapChars);
      }
      content := Trim(content);
      if content == "" { continue; }
      var chunk := TextChunk(index, content, EstimateTokens(content));
      Assoc(chunks, [chunk], ChunksFrom(parts, i + 1, index + 1, maxChars, overlapChars));
      chunks := chunks + [chunk];
      index := index + 1;
    }
  }

  /** With parts of at most `maxChars`, the final slice of a chunk never cuts anything. */
  lemma SliceNeverCuts(text: string, maxChars: nat, overlapChars: nat, i: nat)
    requires maxChars >= 1 && text != ""
    requires var parts := SplitRecursive(text, maxChars); 1 <= i < |parts|
    ensures var parts := SplitRecursive(text, maxChars);
      Raw(parts, i, maxChars, overlapChars)
      == (if overlapChars > 0 then Suffix(parts[i - 1], overlapChars) else "") + parts[i]
  {
    hide SplitRecursive;
    SplitTiles(text, maxChars);
    var parts := SplitRecursive(text, maxChars);
    var gaps :| TiledBy(gaps, text, parts, maxChars);
    RawIs(parts, i, maxChars, overlapChars, if overlapChars > 0 then Suffix(parts[i - 1], overlapChars) else "");
  }

  predicate WellFormedFrom(cs: seq<TextChunk>, index: nat, maxChars: nat, overlapChars: int) {
    forall k :: 0 <= k < |cs| ==> WellFormedChunk(cs[k], index + k, maxChars, overlapChars)
  }

  lemma {:induction false} ChunksFromShape(parts: seq<string>, i: nat, index: nat, maxChars: nat, overlapChars: int)
    requires i <= |parts| && Sized(parts, maxChars)
    ensures WellFormedFrom(ChunksFrom(parts, i, index, maxChars, overlapChars), index, maxChars, overlapChars)
    decreases |parts| - i
  {
    hide Trim, Raw, WellFormedChunk;
    if i < |parts| {
      var raw := Raw(parts, i, maxChars, overlapChars);
      var content := Trim(raw);
      var next := if content == "" then index else index + 1;
      ChunksFromShape(parts, i + 1, next, maxChars, overlapChars);
      if content != "" {
        var chunk := TextChunk(index, content, EstimateTokens(content));
        NewChunkShape(parts, i, index, maxChars, overlapChars);
        var rest := ChunksFrom(parts, i + 1, next, maxChars, overlapChars);
        var cs := [chunk] + rest;
        forall k | 0 <= k < |cs| ensures WellFormedChunk(cs[k], index + k, maxChars, overlapChars) {
          if k > 0 {
            assert WellFormedChunk(rest[k - 1], next + (k - 1), maxChars, overlapChars);
          }
        }
      }
    }
  }

  lemma NewChunkShape(parts: seq<string>, i: nat, index: nat, maxChars: nat, overlapChars: int)
    requires i < |parts| && Sized(parts, maxChars)
    requires Trim(Raw(parts, i, maxChars, overlapChars)) != ""
    ensures var content := Trim(Raw(parts, i, maxChars, overlapChars));
      WellFormedChunk(TextChunk(index, content, EstimateTokens(content)), index, maxChars, overlapChars)
  {
    hide Trim;
    TrimmedShape(Raw(parts, i, maxChars, overlapChars));
  }

  predicate WellFormedChunk(c: TextChunk, index: nat, maxChars: nat, overlapChars: int) {
    && c.index == index
    && 1 <= |c.content| <= maxChars + (if overlapChars > 0 then overlapChars else 0)
    && !IsSpace(c.content[0]) && !IsSpace(c.content[|c.content| - 1])
    && c.tokenCount == EstimateTokens(c.content)
  }

  lemma TrimmedShape(s: string)
    ensures var t := Trim(s);
      |t| <= |s| && (t == "" || (!IsSpace(t[0]) && !IsSpace(t[|t| - 1])))
  {
    var a := TrimStart(s);
    var t := TrimEnd(a);
    if t != "" { assert t[0] == a[0]; }
  }

  /** Chunks are numbered 0..n-1, non-empty, trimmed, and bounded by part size plus overlap. */
  lemma ChunkShape(text: string, maxChars: nat, overlapChars: int)
    requires maxChars >= 1
    ensures WellFormedFrom(ChunkText(text, maxChars, overlapChars), 0, maxChars, overlapChars)
  {
    hide Normalize, SplitRecursive, ChunksFrom;
    var normalized := Normalize(text);
    if normalized != "" {
      SplitTiles(normalized, maxChars);
      var parts := SplitRecursive(normalized, maxChars);
      var gaps :| TiledBy(gaps, normalized, parts, maxChars);
      ChunksFromShape(parts, 0, 0, maxChars, overlapChars);
    }
  }

  // ------------------------------------------------------------------ coverage

  predicate EndsWith(s: string, tail: string) {
    |tail| <= |s| && s[|s| - |tail|..] == tail
  }

  lemma {:induction false} TrimStartAppend(a: string, b: string)
    ensures TrimStart(a + b) == if TrimStart(a) == "" then TrimStart(b) else TrimStart(a) + b
  {
    if a == "" {
      assert a + b == b;
    } else {
      assert (a + b)[1..] == a[1..] + b;
      TrimStartAppend(a[1..], b);
    }
  }

  lemma {:induction false} TrimEndAppend(a: string, b: string)
    requires TrimEnd(b) != ""
    ensures TrimEnd(a + b) == a + TrimEnd(b)
    decreases |b|
  {
    if IsSpace(b[|b| - 1]) {
      assert (a + b)[..|a + b| - 1] == a + b[..|b| - 1];
      TrimEndAppend(a, b[..|b| - 1]);
    }
  }

  /** Whatever overlap is put in front, the trimmed chunk ends with the trimmed part. */
  lemma TrimKeepsTail(front: string, part: string)
    requires Trim(part) != ""
    ensures EndsWith(Trim(front + part), Trim(part))
  {
    hide TrimStart, TrimEnd;
    var a, head := TrimStart(part), TrimStart(front);
    TrimStartAppend(front, part);
    if head != "" {
      var blank := part[..|part| - |a|];
      assert part == blank + a;
      TrimEndAppend(head + blank, a);
      Assoc(head, blank, a);
      TailOfConcat(head + blank, TrimEnd(a));
    }
  }

  lemma TailOfConcat(a: string, b: string)
    ensures EndsWith(a + b, b)
  {
  }

  /** Some chunk ends with the trimmed `part`. */
  predicate Covered(cs: seq<TextChunk>, part: string) {
    exists k :: 0 <= k < |cs| && EndsWith(cs[k].content, Trim(part))
  }

  /** Part `i`, unless blank, is contained in one of the chunks. */
  lemma {:induction false} PartIsCovered(parts: seq<string>, from: nat, index: nat, i: nat, maxChars: nat, overlapChars: int)
    requires from <= i < |parts| && Sized(parts, maxChars) && Trim(parts[i]) != ""
    ensures Covered(ChunksFrom(parts, from, index, maxChars, overlapChars), parts[i])
    decreases i - from
  {
    hide Trim, Raw;
    var content := Trim(Raw(parts, from, maxChars, overlapChars));
    var next := if content == "" then index else index + 1;
    var rest := ChunksFrom(parts, from + 1, next, maxChars, overlapChars);
    var chunk := TextChunk(index, content, EstimateTokens(content));
    if from == i {
      var front := if i > 0 && overlapChars > 0 then Suffix(parts[i - 1], overlapChars) else "";
      RawIs(parts, i, maxChars, overlapChars, front);
      TrimKeepsTail(front, parts[i]);
      assert ([chunk] + rest)[0] == chunk;
      assert Covered([chunk] + rest, parts[i]);
    } else {
      PartIsCovered(parts, from + 1, next, i, maxChars, overlapChars);
      var k :| 0 <= k < |rest| && EndsWith(rest[k].content, Trim(parts[i]));
      assert ([chunk] + rest)[k + 1] == rest[k];
      assert Covered([chunk] + rest, parts[i]);
    }
  }

  lemma RawIs(parts: seq<string>, i: nat, maxChars: nat, overlapChars: int, front: string)
    requires i < |parts| && Sized(parts, maxChars)
    requires front == if i > 0 && overlapChars > 0 then Suffix(parts[i - 1], overlapChars) else ""
    ensures Raw(parts, i, maxChars, overlapChars) == front + parts[i]
  {
    assert "" + parts[i] == parts[i];
  }

  /**
   * Nothing is lost: the normalised text is tiled by the parts, and every part
   * that is not blank ends one of the chunks.
   */
  lemma ChunksCoverText(text: string, maxChars: nat, overlapChars: int)
    requires maxChars >= 1 && Normalize(text) != ""
    ensures var parts := SplitRecursive(Normalize(text), maxChars);
      var cs := ChunkText(text, maxChars, overlapChars);
      && Tiled(Normalize(text), parts, maxChars)
      && forall i :: 0 <= i < |parts| && Trim(parts[i]) != "" ==> Covered(cs, parts[i])
  {
    hide Normalize, SplitRecursive, ChunksFrom, Trim, Covered;
    var normalized := Normalize(text);
    SplitTiles(normalized, maxChars);
    var parts := SplitRecursive(normalized, maxChars);
    var gaps :| TiledBy(gaps, normalized, parts, maxChars);
    forall i | 0 <= i < |parts| && Trim(parts[i]) != ""
      ensures Covered(ChunkText(text, maxChars, overlapChars), parts[i])
    {
      PartIsCovered(parts, 0, 0, i, maxChars, overlapChars);
    }
  }
}
