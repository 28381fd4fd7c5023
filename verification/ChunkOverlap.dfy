/** What the chunks of a text are, in terms of its characters and its parts. */
module ChunkOverlap {
  import opened Text
  import opened Chunking

  // --------------------------------------------------------------- line endings

  /** Carriage return and line feed become a line feed; nothing else changes. */
  function Unix(s: string): string {
    if s == "" then ""
    else if |s| >= 2 && s[0] == '\r' && s[1] == '\n' then "\n" + Unix(s[2..])
    else [s[0]] + Unix(s[1..])
  }

  lemma UnixHead(s: string)
    requires s != "" && !At(s, "\r\n", 0)
    ensures Unix(s) == [s[0]] + Unix(s[1..])
  {
    assert |s| >= 2 ==> s[0..2] == [s[0], s[1]];
  }

  lemma NoneInTail(s: string, i: nat)
    requires s != "" && forall j :: 0 <= j < i + 1 ==> !At(s, "\r\n", j)
    ensures forall j :: 0 <= j < i ==> !At(s[1..], "\r\n", j)
  {
    forall j | 0 <= j < i ensures !At(s[1..], "\r\n", j) {
      assert !At(s, "\r\n", j + 1);
      assert j + 2 <= |s[1..]| ==> s[1..][j..j + 2] == s[j + 1..j + 3];
    }
  }

  lemma {:induction false} UnixSkips(s: string, i: nat)
    requires i <= |s| && forall j :: 0 <= j < i ==> !At(s, "\r\n", j)
    ensures Unix(s) == s[..i] + Unix(s[i..])
  {
    hide Unix, At;
    if i == 0 {
      assert s[..0] + Unix(s[0..]) == Unix(s) by { assert s[0..] == s; }
    } else {
      UnixHead(s);
      NoneInTail(s, i - 1);
      UnixSkips(s[1..], i - 1);
      assert s[1..][i - 1..] == s[i..];
      assert s[..i] == [s[0]] + s[1..][..i - 1];
      Assoc([s[0]], s[1..][..i - 1], Unix(s[i..]));
    }
  }

  lemma {:induction false} ReplaceIsUnix(s: string)
    ensures Join(Split(s, "\r\n"), "\n") == Unix(s)
    decreases |s|
  {
    hide IndexFrom, Unix, At;
    IndexFromFinds(s, "\r\n", 0);
    if IndexFrom(s, "\r\n", 0).None? {
      UnixSkips(s, |s|);
      UnixOfNothing();
      assert s[..|s|] + "" == s && s[|s|..] == "";
    } else {
      var i := IndexFrom(s, "\r\n", 0).value;
      var rest := s[i + 2..];
      UnixSkips(s, i);
      UnixCut(s, i);
      ReplaceIsUnix(rest);
      assert Split(s, "\r\n")[1..] == Split(rest, "\r\n");
      Assoc(s[..i], "\n", Unix(rest));
    }
  }

  lemma UnixOfNothing()
    ensures Unix("") == ""
  {
  }

  lemma UnixCut(s: string, i: nat)
    requires At(s, "\r\n", i)
    ensures Unix(s[i..]) == "\n" + Unix(s[i + 2..])
  {
    assert s[i..][2..] == s[i + 2..];
    assert s[i..][0] == s[i..i + 2][0] && s[i..][1] == s[i..i + 2][1];
  }

  // -------------------------------------------------------------------- overlap

  /** `front` is the end of the part before part `i`, `overlapChars` long if that part has as many. */
  predicate IsOverlap(front: string, parts: seq<string>, i: nat, overlapChars: int)
    requires i < |parts|
  {
    if i == 0 || overlapChars <= 0 then front == ""
    else
      var prev := parts[i - 1];
      |front| <= |prev| && |front| <= overlapChars && (|front| == |prev| || |front| == overlapChars)
      && prev[|prev| - |front|..] == front
  }

  /** The text is part `i` with its overlap in front, trimmed. */
  ghost predicate FromPart(content: string, parts: seq<string>, i: nat, overlapChars: int)
    requires i < |parts|
  {
    exists front :: IsOverlap(front, parts, i, overlapChars) && content == Trim(front + parts[i])
  }

  /**
   * The chunks come from the parts at `picks`, in order, numbered on from
   * `index`; the parts from `from` on that are passed over have only blanks
   * to give.
   */
  ghost predicate ChunksOf(cs: seq<TextChunk>, parts: seq<string>, from: nat, index: nat, overlapChars: int, picks: seq<nat>)
  {
    && |picks| == |cs|
    && (forall k :: 0 <= k < |picks| ==> from <= picks[k] < |parts|)
    && (forall j, k :: 0 <= j < k < |picks| ==> picks[j] < picks[k])
    && (forall k :: 0 <= k < |cs| ==> ChunkFrom(cs[k], parts, picks[k], index + k, overlapChars))
    && (forall i :: from <= i < |parts| && i !in picks ==> FromPart("", parts, i, overlapChars))
  }

  ghost predicate ChunkFrom(c: TextChunk, parts: seq<string>, i: nat, index: nat, overlapChars: int) {
    i < |parts| && c.content != "" && c.index == index && FromPart(c.content, parts, i, overlapChars)
    && (c.tokenCount >= 1 && 4 * c.tokenCount >= |c.content| > 4 * (c.tokenCount - 1))
  }

  lemma ContentIsFromPart(parts: seq<string>, i: nat, maxChars: nat, overlapChars: int)
    requires i < |parts| && Sized(parts, maxChars)
    ensures FromPart(Trim(Raw(parts, i, maxChars, overlapChars)), parts, i, overlapChars)
  {
    hide Trim, Raw;
    var front := if i > 0 && overlapChars > 0 then Suffix(parts[i - 1], overlapChars) else "";
    RawIs(parts, i, maxChars, overlapChars, front);
    assert IsOverlap(front, parts, i, overlapChars);
  }

  lemma {:induction false} ChunksFromParts(parts: seq<string>, from: nat, index: nat, maxChars: nat, overlapChars: int)
    returns (picks: seq<nat>)
    requires from <= |parts| && Sized(parts, maxChars)
    ensures ChunksOf(ChunksFrom(parts, from, index, maxChars, overlapChars), parts, from, index, overlapChars, picks)
    decreases |parts| - from
  {
    hide Trim, Raw, FromPart;
    if from == |parts| { return []; }
    ContentIsFromPart(parts, from, maxChars, overlapChars);
    var content := Trim(Raw(parts, from, maxChars, overlapChars));
    if content == "" {
      picks := ChunksFromParts(parts, from + 1, index, maxChars, overlapChars);
    } else {
      var later := ChunksFromParts(parts, from + 1, index + 1, maxChars, overlapChars);
      picks := [from] + later;
      var c := TextChunk(index, content, EstimateTokens(content));
      AddPick(c, ChunksFrom(parts, from + 1, index + 1, maxChars, overlapChars), parts, from, index, overlapChars, later);
    }
  }

  lemma AddPick(c: TextChunk, cs: seq<TextChunk>, parts: seq<string>, from: nat, index: nat, overlapChars: int,
                picks: seq<nat>)
    requires ChunksOf(cs, parts, from + 1, index + 1, overlapChars, picks)
    requires from < |parts| && ChunkFrom(c, parts, from, index, overlapChars)
    ensures ChunksOf([c] + cs, parts, from, index, overlapChars, [from] + picks)
  {
    hide ChunkFrom, FromPart;
    var all, longer := [c] + cs, [from] + picks;
    forall k | 0 <= k < |all| ensures ChunkFrom(all[k], parts, longer[k], index + k, overlapChars) {
      if k > 0 { assert ChunkFrom(cs[k - 1], parts, picks[k - 1], index + 1 + (k - 1), overlapChars); }
    }
    forall i | from <= i < |parts| && i !in longer ensures FromPart("", parts, i, overlapChars) {
      assert longer[0] == from;
      assert forall k :: 0 <= k < |picks| ==> longer[k + 1] == picks[k];
      assert i !in picks;
    }
    assert forall k :: 0 <= k < |longer| ==> from <= longer[k] < |parts|;
    assert forall j, k :: 0 <= j < k < |longer| ==> longer[j] < longer[k];
    assert |longer| == |all|;
  }

  /**
   * The chunks of a text, said without the loop: the text with its line
   * endings unified and its ends trimmed is split, and every part gives,
   * in order, one chunk that starts with the end of the part before it,
   * unless nothing but blanks would be left.
   */
  lemma ChunksAreOverlappedParts(text: string, maxChars: nat, overlapChars: int) returns (picks: seq<nat>)
    requires maxChars >= 1
    ensures var normalized := Trim(Unix(text));
      if normalized == "" then ChunkText(text, maxChars, overlapChars) == []
      else ChunksOf(ChunkText(text, maxChars, overlapChars), SplitRecursive(normalized, maxChars), 0, 0, overlapChars, picks)
  {
    hide Trim, SplitRecursive, ChunksFrom, ChunksOf, Unix, Split, Join;
    ReplaceIsUnix(text);
    var normalized := Trim(Unix(text));
    picks := [];
    if normalized != "" {
      SplitTiles(normalized, maxChars);
      var parts := SplitRecursive(normalized, maxChars);
      var gaps :| TiledBy(gaps, normalized, parts, maxChars);
      picks := ChunksFromParts(parts, 0, 0, maxChars, overlapChars);
    }
  }
}
