/** String operations of the host language that the other modules rely on. */
module Text {
  datatype Option<+T> = None | Some(value: T)

  datatype Result<+T, +E> = Ok(value: T) | Err(error: E)

  // ---------------------------------------------------------------- searching

  /** `sep` occurs in `s` at offset `i`. */
  predicate At(s: string, sep: string, i: int) {
    0 <= i && i + |sep| <= |s| && s[i..i + |sep|] == sep
  }

  /** Offset of the leftmost occurrence at or after `from`. */
  function IndexFrom(s: string, sep: string, from: nat): (r: Option<nat>)
    ensures r.Some? ==> from <= r.value && r.value + |sep| <= |s|
    decreases |s| - from
  {
    if from + |sep| > |s| then None
    else if At(s, sep, from) then Some(from)
    else IndexFrom(s, sep, from + 1)
  }

  /** What `IndexFrom` returns is an occurrence, and the first one. */
  lemma {:induction false} IndexFromFinds(s: string, sep: string, from: nat)
    ensures var r := IndexFrom(s, sep, from);
      if r.Some? then At(s, sep, r.value) && forall j :: from <= j < r.value ==> !At(s, sep, j)
      else forall j :: from <= j ==> !At(s, sep, j)
    decreases |s| - from
  {
    if from + |sep| <= |s| && !At(s, sep, from) { IndexFromFinds(s, sep, from + 1); }
  }

  /** The first occurrence is found where it is. */
  lemma {:induction false} IndexFromIs(s: string, sep: string, from: nat, i: nat)
    requires from <= i && At(s, sep, i) && forall j :: from <= j < i ==> !At(s, sep, j)
    ensures IndexFrom(s, sep, from) == Some(i)
    decreases i - from
  {
    if from < i { IndexFromIs(s, sep, from + 1, i); }
  }

  lemma {:induction false} IndexFromNone(s: string, sep: string, from: nat)
    requires forall j :: from <= j && j + |sep| <= |s| ==> !At(s, sep, j)
    ensures IndexFrom(s, sep, from) == None
    decreases |s| - from
  {
    if from + |sep| <= |s| { IndexFromNone(s, sep, from + 1); }
  }

  predicate Includes(s: string, sep: string) {
    IndexFrom(s, sep, 0).Some?
  }

  // ------------------------------------------------------- splitting, joining

  /** Cut `s` at the leftmost non-overlapping occurrences of `sep`. */
  function Split(s: string, sep: string): (r: seq<string>)
    requires sep != ""
    ensures |r| >= 1
    decreases |s|
  {
    match IndexFrom(s, sep, 0)
    case None => [s]
    case Some(i) => [s[..i]] + Split(s[i + |sep|..], sep)
  }

  function Join(pieces: seq<string>, sep: string): string {
    if |pieces| == 0 then ""
    else if |pieces| == 1 then pieces[0]
    else pieces[0] + sep + Join(pieces[1..], sep)
  }

  lemma {:induction false} JoinSplit(s: string, sep: string)
    requires sep != ""
    ensures Join(Split(s, sep), sep) == s
    decreases |s|
  {
    match IndexFrom(s, sep, 0) {
      case None =>
      case Some(i) =>
        IndexFromFinds(s, sep, 0);
        JoinSplit(s[i + |sep|..], sep);
        assert Split(s, sep)[1..] == Split(s[i + |sep|..], sep);
        Cut(s, i, i + |sep|);
    }
  }

  lemma Cut<T>(s: seq<T>, i: nat, j: nat)
    requires i <= j <= |s|
    ensures s == s[..i] + s[i..j] + s[j..]
  {
  }

  lemma {:induction false} JoinSnoc(pieces: seq<string>, piece: string, sep: string)
    ensures Join(pieces + [piece], sep)
         == if pieces == [] then piece else Join(pieces, sep) + sep + piece
  {
    if |pieces| > 1 {
      JoinSnoc(pieces[1..], piece, sep);
      assert (pieces + [piece])[1..] == pieces[1..] + [piece];
    } else if |pieces| == 1 {
      assert (pieces + [piece])[1..] == [piece];
    }
  }

  /** When the separator occurs at all, every piece is strictly shorter than the text. */
  lemma {:induction false} PiecesShorter(s: string, sep: string)
    requires sep != ""
    ensures forall p :: p in Split(s, sep) ==> |p| <= |s|
    ensures Includes(s, sep) ==> forall p :: p in Split(s, sep) ==> |p| < |s|
    decreases |s|
  {
    hide IndexFrom;
    match IndexFrom(s, sep, 0) {
      case None =>
      case Some(i) => PiecesShorter(s[i + |sep|..], sep);
    }
  }

  /**
   * Splitting is incremental: what has been cut off stays cut off, and only the
   * last piece can still change when more text arrives.
   */
  lemma {:induction false} SplitAppend(s: string, t: string, sep: string)
    requires sep != ""
    ensures var p := Split(s, sep);
      Split(s + t, sep) == p[..|p| - 1] + Split(p[|p| - 1] + t, sep)
    decreases |s|
  {
    hide IndexFrom, At;
    var p := Split(s, sep);
    match IndexFrom(s, sep, 0) {
      case None =>
        assert p[..0] + Split(s + t, sep) == Split(s + t, sep);
      case Some(i) =>
        FirstStaysFirst(s, t, sep, i);
        var rest := s[i + |sep|..];
        var q := Split(rest, sep);
        assert (s + t)[i + |sep|..] == rest + t;
        assert Split(s + t, sep) == [s[..i]] + Split(rest + t, sep) by {
          assert (s + t)[..i] == s[..i];
        }
        SplitAppend(rest, t, sep);
        assert p == [s[..i]] + q;
        PrefixShift(s[..i], q, Split(q[|q| - 1] + t, sep));
    }
  }

  lemma PrefixShift(head: string, q: seq<string>, tail: seq<string>)
    requires |q| >= 1
    ensures var p := [head] + q;
      [head] + (q[..|q| - 1] + tail) == p[..|p| - 1] + tail && p[|p| - 1] == q[|q| - 1]
  {
    var p := [head] + q;
    assert p[..|p| - 1] == [head] + q[..|q| - 1];
  }

  lemma FirstStaysFirst(s: string, t: string, sep: string, i: nat)
    requires sep != "" && IndexFrom(s, sep, 0) == Some(i)
    ensures IndexFrom(s + t, sep, 0) == Some(i)
  {
    hide IndexFrom;
    IndexFromFinds(s, sep, 0);
    forall j | 0 <= j <= i ensures At(s + t, sep, j) == At(s, sep, j) {
      assert (s + t)[j..j + |sep|] == s[j..j + |sep|];
    }
    IndexFromIs(s + t, sep, 0, i);
  }

  // ------------------------------------------------------------- concatenation

  lemma Assoc<T>(a: seq<T>, b: seq<T>, c: seq<T>)
    ensures a + (b + c) == (a + b) + c
  {
  }

  function Concat<T>(parts: seq<seq<T>>): seq<T> {
    if parts == [] then [] else parts[0] + Concat(parts[1..])
  }

  lemma {:induction false} ConcatSnoc<T>(parts: seq<seq<T>>, part: seq<T>)
    ensures Concat(parts + [part]) == Concat(parts) + part
  {
    if parts == [] {
      assert Concat(parts + [part]) == part + Concat<T>([]);
    } else {
      ConcatSnoc(parts[1..], part);
      assert (parts + [part])[1..] == parts[1..] + [part];
      Assoc(parts[0], Concat(parts[1..]), part);
    }
  }

  lemma {:induction false} ConcatAppend<T>(a: seq<seq<T>>, b: seq<seq<T>>)
    ensures Concat(a + b) == Concat(a) + Concat(b)
  {
    if a == [] {
      assert a + b == b;
    } else {
      ConcatAppend(a[1..], b);
      assert (a + b)[1..] == a[1..] + b;
      Assoc(a[0], Concat(a[1..]), Concat(b));
    }
  }

  /** Interleave gaps and parts: gap, part, gap, part, ..., gap. */
  function Weave(gaps: seq<string>, parts: seq<string>): string
    requires |gaps| == |parts| + 1
  {
    if parts == [] then gaps[0] else gaps[0] + parts[0] + Weave(gaps[1..], parts[1..])
  }

  // ------------------------------------------------------------------ trimming

  /** White space as removed by `trim` and matched by `\s`. */
  predicate IsSpace(c: char) {
    c in {' ', '\t', '\n', '\r', '\U{000B}', '\U{000C}', '\U{00A0}', '\U{1680}', '\U{2028}', '\U{2029}',
          '\U{202F}', '\U{205F}', '\U{3000}', '\U{FEFF}'}
    || '\U{2000}' <= c <= '\U{200A}'
  }

  function TrimStart(s: string): (r: string)
    ensures r == "" || !IsSpace(r[0])
    ensures |r| <= |s| && r == s[|s| - |r|..]
    ensures forall c :: c in s[..|s| - |r|] ==> IsSpace(c)
  {
    if s != "" && IsSpace(s[0]) then TrimStart(s[1..]) else s
  }

  function TrimEnd(s: string): (r: string)
    ensures r == "" || !IsSpace(r[|r| - 1])
    ensures |r| <= |s| && r == s[..|r|]
    ensures forall c :: c in s[|r|..] ==> IsSpace(c)
  {
    if s != "" && IsSpace(s[|s| - 1]) then TrimEnd(s[..|s| - 1]) else s
  }

  function Trim(s: string): string {
    TrimEnd(TrimStart(s))
  }

  /** Keep the elements that satisfy `keep`, in order. */
  function Filter<T(!new)>(s: seq<T>, keep: T -> bool): (r: seq<T>)
    ensures forall x :: x in r <==> x in s && keep(x)
    ensures |r| <= |s|
  {
    if s == [] then []
    else if keep(s[0]) then [s[0]] + Filter(s[1..], keep)
    else Filter(s[1..], keep)
  }

  lemma {:induction false} FilterAppend<T(!new)>(a: seq<T>, b: seq<T>, keep: T -> bool)
    ensures Filter(a + b, keep) == Filter(a, keep) + Filter(b, keep)
  {
    if a == [] {
      assert a + b == b;
    } else {
      FilterAppend(a[1..], b, keep);
      assert (a + b)[1..] == a[1..] + b;
      Assoc([a[0]], Filter(a[1..], keep), Filter(b, keep));
    }
  }

  lemma {:induction false} FilterNone<T(!new)>(s: seq<T>, keep: T -> bool)
    requires forall x :: x in s ==> !keep(x)
    ensures Filter(s, keep) == []
  {
    if s != [] { FilterNone(s[1..], keep); }
  }

  lemma {:induction false} FilterAll<T(!new)>(s: seq<T>, keep: T -> bool)
    requires forall x :: x in s ==> keep(x)
    ensures Filter(s, keep) == s
  {
    if s != [] { FilterAll(s[1..], keep); }
  }
}
