/** Detection and redaction of personal data in text; the regular-expression matches are given. */
module Pii {
  import opened Text
  import opened Decimals
  import Sorting

  // ----------------------------------------------------------------------- Luhn

  function Value(c: char): int {
    c as int - '0' as int
  }

  /** What a digit adds to the checksum: itself, or twice itself with the digits of the product added up. */
  function Contribution(d: int, doubled: bool): int {
    if !doubled then d else if 2 * d > 9 then 2 * d - 9 else 2 * d
  }

  /** ISO/IEC 7812-1 Annex B: every second digit, counted from the right, is doubled. */
  function LuhnSum(digits: string): int {
    if digits == "" then 0
    else Contribution(Value(digits[0]), |digits| % 2 == 0) + LuhnSum(digits[1..])
  }

  function Digits(input: string): string {
    Filter(input, IsDigit)
  }

  predicate LuhnValid(input: string) {
    var digits := Digits(input);
    13 <= |digits| <= 19 && LuhnSum(digits) % 10 == 0
  }

  /** The checksum loop, from the last digit to the first. */
  method LuhnLoop(input: string) returns (valid: bool)
    ensures valid == LuhnValid(input)
  {
    var digits := Digits(input);
    if |digits| < 13 || |digits| > 19 { return false; }
    var sum := Checksum(digits);
    valid := sum % 10 == 0;
  }

  method Checksum(digits: string) returns (sum: int)
    ensures sum == LuhnSum(digits)
  {
    sum := 0;
    var double := false;
    var i := |digits| - 1;
    while i >= 0
      invariant -1 <= i < |digits|
      invariant double == ((|digits| - 1 - i) % 2 == 1)
      invariant sum == LuhnSum(digits[i + 1..])
    {
      var d := Value(digits[i]);
      if double {
        d := d * 2;
        if d > 9 { d := d - 9; }
      }
      assert digits[i..][1..] == digits[i + 1..];
      sum := sum + d;
      double := !double;
      i := i - 1;
    }
    assert digits[0..] == digits;
  }

  /** Replacing one digit changes the sum by exactly the change of its contribution. */
  lemma {:induction false} LuhnSumReplace(front: string, c: char, c': char, back: string)
    ensures LuhnSum(front + [c'] + back) - LuhnSum(front + [c] + back)
         == Contribution(Value(c'), |back| % 2 == 1) - Contribution(Value(c), |back| % 2 == 1)
  {
    if front == "" {
      assert ("" + [c] + back)[1..] == back && ("" + [c'] + back)[1..] == back;
    } else {
      LuhnSumReplace(front[1..], c, c', back);
      assert (front + [c] + back)[1..] == front[1..] + [c] + back;
      assert (front + [c'] + back)[1..] == front[1..] + [c'] + back;
    }
  }

  lemma {:induction false} LuhnSumSwap(front: string, c: char, d: char, back: string)
    ensures var odd := |back| % 2 == 1;
      LuhnSum(front + [d, c] + back) - LuhnSum(front + [c, d] + back)
      == Contribution(Value(c), odd) + Contribution(Value(d), !odd)
         - Contribution(Value(d), odd) - Contribution(Value(c), !odd)
  {
    assert front + [c, d] + back == front + [c] + ([d] + back);
    assert front + [d, d] + back == front + [d] + ([d] + back);
    LuhnSumReplace(front, c, d, [d] + back);
    assert front + [d, d] + back == (front + [d]) + [d] + back;
    assert front + [d, c] + back == (front + [d]) + [c] + back;
    LuhnSumReplace(front + [d], d, c, back);
  }

  lemma DigitsAround(front: string, mid: string, back: string)
    requires forall c :: c in mid ==> IsDigit(c)
    ensures Digits(front + mid + back) == Digits(front) + mid + Digits(back)
  {
    FilterAppend(front + mid, back, IsDigit);
    FilterAppend(front, mid, IsDigit);
    FilterAll(mid, IsDigit);
  }

  /** An accepted number with any one digit replaced by a different one is rejected. */
  lemma SingleDigitErrorsAreCaught(front: string, c: char, c': char, back: string)
    requires IsDigit(c) && IsDigit(c') && c != c'
    requires LuhnValid(front + [c] + back)
    ensures !LuhnValid(front + [c'] + back)
  {
    hide Digits, LuhnSum;
    DigitsAround(front, [c], back);
    DigitsAround(front, [c'], back);
    LuhnSumReplace(Digits(front), c, c', Digits(back));
  }

  /**
   * Swapping two adjacent digits of an accepted number goes unnoticed exactly
   * when they are equal, or one is 0 and the other 9.
   */
  lemma AdjacentSwapsAreCaught(front: string, c: char, d: char, back: string)
    requires IsDigit(c) && IsDigit(d)
    requires LuhnValid(front + [c, d] + back)
    ensures LuhnValid(front + [d, c] + back) <==> c == d || {c, d} == {'0', '9'}
  {
    hide Digits, LuhnSum, Contribution;
    DigitsAround(front, [c, d], back);
    DigitsAround(front, [d, c], back);
    LuhnSumSwap(Digits(front), c, d, Digits(back));
    var odd := |Digits(back)| % 2 == 1;
    SwapResidue(Value(c), Value(d), odd);
    SameResidue(LuhnSum(Digits(front) + [c, d] + Digits(back)), LuhnSum(Digits(front) + [d, c] + Digits(back)));
    PairIs(c, d);
  }

  /** What is not a digit does not matter, and numbers of fewer than 13 or more than 19 digits are not cards. */
  lemma OnlyDigitsCount(a: string, c: char, b: string)
    ensures !('0' <= c <= '9') ==> LuhnValid(a + [c] + b) == LuhnValid(a + b)
    ensures (forall d :: d in a ==> '0' <= d <= '9') && !(13 <= |a| <= 19) ==> !LuhnValid(a)
  {
    hide LuhnSum;
    FilterAppend(a + [c], b, IsDigit);
    FilterAppend(a, [c], IsDigit);
    FilterAppend(a, b, IsDigit);
    if !IsDigit(c) {
      FilterNone([c], IsDigit);
      assert Filter(a, IsDigit) + [] == Filter(a, IsDigit);
    }
    if forall d :: d in a ==> IsDigit(d) { FilterAll(a, IsDigit); }
  }

  /** Every 12 to 18 digits are completed to a valid number by exactly one check digit. */
  lemma OneCheckDigit(front: string) returns (check: char)
    requires 12 <= |front| <= 18 && forall c :: c in front ==> '0' <= c <= '9'
    ensures '0' <= check <= '9' && LuhnValid(front + [check])
    ensures forall c :: '0' <= c <= '9' && c != check ==> !LuhnValid(front + [c])
  {
    hide LuhnSum;
    var base := LuhnSum(front + ['0']);
    check := '0' + ((10 - base % 10) % 10) as char;
    forall c | '0' <= c <= '9' ensures LuhnValid(front + [c]) <==> c == check {
      FilterAll(front + [c], IsDigit);
      LuhnSumReplace(front, '0', c, "");
      assert front + [c] + "" == front + [c] && front + ['0'] + "" == front + ['0'];
      CheckResidue(base, Value(c));
    }
  }

  lemma CheckResidue(base: int, d: int)
    requires 0 <= d < 10
    ensures (base + d) % 10 == 0 <==> d == (10 - base % 10) % 10
  {
  }

  lemma SameResidue(s: int, t: int)
    requires s % 10 == 0
    ensures t % 10 == 0 <==> (t - s) % 10 == 0
  {
  }

  lemma PairIs(c: char, d: char)
    ensures {c, d} == {'0', '9'} <==> (c == '0' && d == '9') || (c == '9' && d == '0')
  {
    assert '0' in {'0', '9'} && '9' in {'0', '9'} && c in {c, d} && d in {c, d};
  }

  lemma SwapResidue(x: int, y: int, odd: bool)
    requires 0 <= x < 10 && 0 <= y < 10
    ensures (Contribution(x, odd) + Contribution(y, !odd) - Contribution(y, odd) - Contribution(x, !odd)) % 10 == 0
        <==> x == y || (x == 0 && y == 9) || (x == 9 && y == 0)
  {
  }

  // -------------------------------------------------------------------- findings

  datatype PiiType = Email | Phone | Ssn | CreditCard | Ipv4

  datatype Finding = Finding(kind: PiiType, value: string, start: nat, end: nat)

  function Token(kind: PiiType): string {
    match kind
    case Email => "[REDACTED_EMAIL]"
    case Phone => "[REDACTED_PHONE]"
    case Ssn => "[REDACTED_SSN]"
    case CreditCard => "[REDACTED_CREDIT_CARD]"
    case Ipv4 => "[REDACTED_IPV4]"
  }

  /** `f` is a non-empty match in `text`. */
  predicate Spans(f: Finding, text: string) {
    f.start < f.end <= |text| && f.value == text[f.start..f.end]
  }

  predicate AllSpan(fs: seq<Finding>, text: string) {
    forall f :: f in fs ==> Spans(f, text)
  }

  predicate Plausible(f: Finding) {
    f.kind == CreditCard ==> LuhnValid(f.value)
  }

  function StartKey(f: Finding): real {
    f.start as real
  }

  /** The matches of all detectors, in detector order, filtered and sorted by position. */
  function DetectPii(matches: seq<Finding>): seq<Finding> {
    Sorting.Sort(Filter(matches, Plausible), StartKey)
  }

  predicate ByStart(fs: seq<Finding>) {
    forall i, j :: 0 <= i < j < |fs| ==> fs[i].start <= fs[j].start
  }

  /** Detection drops only implausible card numbers and orders the rest by start. */
  lemma DetectedFindings(matches: seq<Finding>, text: string)
    requires AllSpan(matches, text)
    ensures var fs := DetectPii(matches);
      && ByStart(fs) && AllSpan(fs, text)
      && forall f :: f in fs <==> f in matches && Plausible(f)
  {
    hide LuhnValid, Spans;
    var plausible := Filter(matches, Plausible);
    var fs := DetectPii(matches);
    Sorting.SortIsStable(plausible, StartKey);
    forall i, j | 0 <= i < j < |fs| ensures fs[i].start <= fs[j].start {
      assert StartKey(fs[i]) <= StartKey(fs[j]);
    }
    forall f ensures f in fs <==> f in plausible {
      assert f in fs <==> f in multiset(fs);
      assert f in plausible <==> f in multiset(plausible);
    }
  }

  // ------------------------------------------------------------------- redaction

  /** Findings that start at or after the end of the last one kept. */
  function Keep(fs: seq<Finding>, cursor: int): seq<Finding> {
    if fs == [] then []
    else if fs[0].start >= cursor then [fs[0]] + Keep(fs[1..], fs[0].end)
    else Keep(fs[1..], cursor)
  }

  predicate Ordered(kept: seq<Finding>, last: nat, text: string) {
    kept == [] || (last <= kept[0].start && Spans(kept[0], text) && Ordered(kept[1..], kept[0].end, text))
  }

  /** The stretches of text around the kept findings. */
  function Gaps(text: string, kept: seq<Finding>, last: nat): (r: seq<string>)
    requires last <= |text| && Ordered(kept, last, text)
    ensures |r| == |kept| + 1
  {
    if kept == [] then [text[last..]]
    else [text[last..kept[0].start]] + Gaps(text, kept[1..], kept[0].end)
  }

  function Values(kept: seq<Finding>): (r: seq<string>)
    ensures |r| == |kept|
  {
    if kept == [] then [] else [kept[0].value] + Values(kept[1..])
  }

  function Tokens(kept: seq<Finding>): (r: seq<string>)
    ensures |r| == |kept|
  {
    if kept == [] then [] else [Token(kept[0].kind)] + Tokens(kept[1..])
  }

  /** The token that stands for each kept finding. */
  lemma {:induction false} TokensExactly(kept: seq<Finding>, i: nat)
    requires i < |kept|
    ensures Tokens(kept)[i] ==
      "[REDACTED_" + (if kept[i].kind == Email then "EMAIL" else if kept[i].kind == Phone then "PHONE"
                      else if kept[i].kind == Ssn then "SSN" else if kept[i].kind == CreditCard then "CREDIT_CARD"
                      else "IPV4") + "]"
  {
    if i > 0 { TokensExactly(kept[1..], i - 1); }
  }

  lemma {:induction false} KeepIsOrdered(fs: seq<Finding>, cursor: int, last: nat, text: string)
    requires ByStart(fs) && AllSpan(fs, text) && last <= |text| && (cursor == last || (cursor < 0 && last == 0))
    ensures Ordered(Keep(fs, cursor), last, text)
    ensures forall f :: f in Keep(fs, cursor) ==> f in fs
  {
    hide Spans;
    if fs != [] {
      assert Spans(fs[0], text);
      if fs[0].start >= cursor {
        InsideText(fs[0], text);
        KeepIsOrdered(fs[1..], fs[0].end, fs[0].end, text);
        assert Keep(fs, cursor)[1..] == Keep(fs[1..], fs[0].end);
      } else {
        KeepIsOrdered(fs[1..], cursor, last, text);
      }
    }
  }

  lemma InsideText(f: Finding, text: string)
    requires Spans(f, text)
    ensures f.end <= |text|
  {
  }

  /** A finding that is not kept starts inside one that is. */
  ghost predicate CoveredBy(kept: seq<Finding>, f: Finding) {
    f in kept || exists k :: k in kept && k.start <= f.start < k.end
  }

  lemma {:induction false} DroppedStartInsideKept(fs: seq<Finding>, previous: Finding)
    requires ByStart(fs) && forall f :: f in fs ==> previous.start <= f.start
    ensures forall f :: f in fs ==> CoveredBy([previous] + Keep(fs, previous.end), f)
  {
    if fs != [] {
      var head, rest := fs[0], fs[1..];
      assert forall f :: f in fs ==> f == head || f in rest;
      if head.start >= previous.end {
        DroppedStartInsideKept(rest, head);
        assert Keep(fs, previous.end) == [head] + Keep(rest, head.end);
        WidenCover(previous, [head] + Keep(rest, head.end), rest);
        assert head in Keep(fs, previous.end);
      } else {
        DroppedStartInsideKept(rest, previous);
        assert previous in [previous] + Keep(fs, previous.end);
      }
    }
  }

  lemma WidenCover(previous: Finding, kept: seq<Finding>, fs: seq<Finding>)
    requires forall f :: f in fs ==> CoveredBy(kept, f)
    ensures forall f :: f in fs ==> CoveredBy([previous] + kept, f)
  {
    forall f | f in fs ensures CoveredBy([previous] + kept, f) {
      if f !in kept {
        var k :| k in kept && k.start <= f.start < k.end;
        assert k in [previous] + kept;
      }
    }
  }

  /** Nothing is dropped for any other reason. */
  lemma OverlapsResolved(fs: seq<Finding>)
    requires ByStart(fs)
    ensures forall f :: f in fs ==> CoveredBy(Keep(fs, -1), f)
  {
    if fs != [] {
      DroppedStartInsideKept(fs[1..], fs[0]);
      assert Keep(fs, -1) == [fs[0]] + Keep(fs[1..], fs[0].end);
    }
  }

  function Redacted(text: string, kept: seq<Finding>): string
    requires Ordered(kept, 0, text)
  {
    Weave(Gaps(text, kept, 0), Tokens(kept))
  }

  /** The first loop keeps a finding when it starts at or after the end of the last kept one. */
  method Resolve(findings: seq<Finding>) returns (kept: seq<Finding>)
    ensures kept == Keep(findings, -1)
  {
    kept := [];
    var cursor: int := -1;
    for i := 0 to |findings|
      invariant Keep(findings, -1) == kept + Keep(findings[i..], cursor)
    {
      var finding := findings[i];
      assert findings[i..][1..] == findings[i + 1..];
      if finding.start >= cursor {
        Assoc(kept, [finding], Keep(findings[i + 1..], finding.end));
        kept := kept + [finding];
        cursor := finding.end;
      }
    }
  }

  /** The redaction of findings already sorted by start. */
  method RedactPii(text: string, findings: seq<Finding>) returns (redacted: string, kept: seq<Finding>)
    requires ByStart(findings) && AllSpan(findings, text)
    ensures kept == Keep(findings, -1) && Ordered(kept, 0, text)
    ensures redacted == Redacted(text, kept)
  {
    KeepIsOrdered(findings, -1, 0, text);
    if |findings| == 0 { return text, findings; }
    kept := Resolve(findings);
    hide Keep;
    redacted := "";
    var last: nat := 0;
    assert kept[0..] == kept;
    for i := 0 to |kept|
      invariant last <= |text| && Ordered(kept[i..], last, text)
      invariant Redacted(text, kept) == redacted + Weave(Gaps(text, kept[i..], last), Tokens(kept[i..]))
    {
      var finding := kept[i];
      assert kept[i..][1..] == kept[i + 1..];
      WeaveStep(text, kept[i..], last);
      Assoc(redacted, text[last..finding.start] + Token(finding.kind),
            Weave(Gaps(text, kept[i + 1..], finding.end), Tokens(kept[i + 1..])));
      Assoc(redacted, text[last..finding.start], Token(finding.kind));
      redacted := redacted + text[last..finding.start];
      redacted := redacted + Token(finding.kind);
      last := finding.end;
    }
    redacted := redacted + text[last..];
  }

  lemma WeaveStep(text: string, kept: seq<Finding>, last: nat)
    requires kept != [] && last <= |text| && Ordered(kept, last, text)
    ensures Weave(Gaps(text, kept, last), Tokens(kept))
         == text[last..kept[0].start] + Token(kept[0].kind)
            + Weave(Gaps(text, kept[1..], kept[0].end), Tokens(kept[1..]))
  {
    hide Token;
    var gaps, tokens := Gaps(text, kept, last), Tokens(kept);
    assert gaps[1..] == Gaps(text, kept[1..], kept[0].end);
    assert tokens[1..] == Tokens(kept[1..]);
  }

  /** Putting the kept values back between the same gaps restores the text. */
  lemma {:induction false} ValuesRestoreText(text: string, kept: seq<Finding>, last: nat)
    requires last <= |text| && Ordered(kept, last, text)
    ensures Weave(Gaps(text, kept, last), Values(kept)) == text[last..]
    decreases |kept|
  {
    hide Gaps, Values, Weave;
    if kept != [] {
      var f := kept[0];
      ValuesRestoreText(text, kept[1..], f.end);
      ValueStep(text, kept, last);
      SliceInThree(text, last, f.start, f.end);
    } else {
      NoValues(text, last);
    }
  }

  lemma ValueStep(text: string, kept: seq<Finding>, last: nat)
    requires kept != [] && last <= |text| && Ordered(kept, last, text)
    ensures Weave(Gaps(text, kept, last), Values(kept))
         == text[last..kept[0].start] + kept[0].value + Weave(Gaps(text, kept[1..], kept[0].end), Values(kept[1..]))
  {
    var gaps, values := Gaps(text, kept, last), Values(kept);
    assert gaps[1..] == Gaps(text, kept[1..], kept[0].end);
    assert values[1..] == Values(kept[1..]);
  }

  lemma NoValues(text: string, last: nat)
    requires last <= |text|
    ensures Weave(Gaps(text, [], last), Values([])) == text[last..]
  {
  }

  lemma SliceInThree(text: string, i: nat, j: nat, k: nat)
    requires i <= j <= k <= |text|
    ensures text[i..j] + text[j..k] + text[k..] == text[i..]
  {
  }

  function Total(parts: seq<string>): nat {
    if parts == [] then 0 else |parts[0]| + Total(parts[1..])
  }

  lemma {:induction false} WeaveLength(gaps: seq<string>, parts: seq<string>)
    requires |gaps| == |parts| + 1
    ensures |Weave(gaps, parts)| == Total(gaps) + Total(parts)
    decreases |parts|
  {
    if parts != [] {
      WeaveLength(gaps[1..], parts[1..]);
    } else {
      assert Total(gaps[1..]) == 0;
    }
  }

  /**
   * Redaction replaces exactly the kept spans: text and result have the same
   * gaps, with the values in one and the tokens in the other.
   */
  lemma RedactionReplacesExactlyTheSpans(text: string, findings: seq<Finding>)
    requires ByStart(findings) && AllSpan(findings, text)
    ensures var kept := Keep(findings, -1);
      && Ordered(kept, 0, text)
      && text == Weave(Gaps(text, kept, 0), Values(kept))
      && Redacted(text, kept) == Weave(Gaps(text, kept, 0), Tokens(kept))
      && |Redacted(text, kept)| == |text| - Total(Values(kept)) + Total(Tokens(kept))
  {
    hide Weave, Gaps, Values, Tokens, Total, Keep, Ordered;
    var kept := Keep(findings, -1);
    KeepIsOrdered(findings, -1, 0, text);
    ValuesRestoreText(text, kept, 0);
    assert text[0..] == text;
    WeaveLength(Gaps(text, kept, 0), Values(kept));
    WeaveLength(Gaps(text, kept, 0), Tokens(kept));
  }

  /** Recover the text from a redaction and the findings it returns. */
  function Restore(redacted: string, kept: seq<Finding>, last: nat): string
    decreases |kept|
  {
    if kept == [] || kept[0].start < last || |redacted| < kept[0].start - last + |Token(kept[0].kind)| then redacted
    else
      var gap := kept[0].start - last;
      redacted[..gap] + kept[0].value
      + Restore(redacted[gap + |Token(kept[0].kind)|..], kept[1..], kept[0].end)
  }

  lemma {:induction false} RestoreInvertsWeave(text: string, kept: seq<Finding>, last: nat)
    requires last <= |text| && Ordered(kept, last, text)
    ensures Restore(Weave(Gaps(text, kept, last), Tokens(kept)), kept, last) == text[last..]
    decreases |kept|
  {
    hide Token, Gaps, Tokens, Weave;
    if kept != [] {
      var f := kept[0];
      var gap, token := text[last..f.start], Token(f.kind);
      var rest := Weave(Gaps(text, kept[1..], f.end), Tokens(kept[1..]));
      WeaveStep(text, kept, last);
      var all := gap + token + rest;
      assert all[..|gap|] == gap;
      assert all[|gap| + |token|..] == rest;
      RestoreInvertsWeave(text, kept[1..], f.end);
      Cut(text[last..], f.start - last, f.end - last);
      assert text[last..][..f.start - last] == gap;
      assert text[last..][f.start - last..f.end - last] == text[f.start..f.end];
      assert text[last..][f.end - last..] == text[f.end..];
    } else {
      NoGaps(text, last);
    }
  }

  lemma NoGaps(text: string, last: nat)
    requires last <= |text|
    ensures Weave(Gaps(text, [], last), Tokens([])) == text[last..]
  {
  }

  /** Redaction loses nothing that its findings do not carry. */
  lemma RedactionIsReversible(text: string, findings: seq<Finding>)
    requires ByStart(findings) && AllSpan(findings, text)
    ensures var kept := Keep(findings, -1);
      Ordered(kept, 0, text) && Restore(Redacted(text, kept), kept, 0) == text
  {
    hide Weave, Gaps, Tokens, Keep, Ordered, Restore;
    KeepIsOrdered(findings, -1, 0, text);
    RestoreInvertsWeave(text, Keep(findings, -1), 0);
    assert text[0..] == text;
  }

  // ------------------------------------------------------- which of two at one start

  /** No earlier finding has the same start. */
  predicate FirstAt(fs: seq<Finding>, i: nat)
    requires i < |fs|
  {
    forall j :: 0 <= j < i ==> fs[j].start != fs[i].start
  }

  /** `f` is the first listed at its start. */
  ghost predicate ListedFirst(fs: seq<Finding>, f: Finding) {
    exists i :: 0 <= i < |fs| && fs[i] == f && FirstAt(fs, i)
  }

  lemma {:induction false} KeptIsFirst(fs: seq<Finding>, cursor: int, f: Finding)
    requires (forall x :: x in fs ==> x.start < x.end) && f in Keep(fs, cursor)
    ensures f.start >= cursor && ListedFirst(fs, f)
  {
    var head, rest := fs[0], fs[1..];
    assert head in fs && forall x :: x in rest ==> x in fs;
    if head.start >= cursor && f == head {
      assert fs[0] == f && FirstAt(fs, 0);
    } else {
      KeptIsFirst(rest, if head.start >= cursor then head.end else cursor, f);
      var i :| 0 <= i < |rest| && rest[i] == f && FirstAt(rest, i);
      StillFirst(fs, i);
    }
  }

  lemma StillFirst(fs: seq<Finding>, i: nat)
    requires i + 1 < |fs| && FirstAt(fs[1..], i) && fs[0].start != fs[i + 1].start
    ensures FirstAt(fs, i + 1)
  {
    forall j | 0 <= j < i + 1 ensures fs[j].start != fs[i + 1].start {
      assert j > 0 ==> fs[1..][j - 1].start != fs[1..][i].start;
    }
  }

  /** Of the findings at one start only the first listed can be kept, whatever their lengths. */
  lemma FirstListedWins(text: string, fs: seq<Finding>)
    requires AllSpan(fs, text)
    ensures forall f :: f in Keep(fs, -1) ==> ListedFirst(fs, f)
  {
    hide Keep, ListedFirst;
    forall f | f in Keep(fs, -1) ensures ListedFirst(fs, f) {
      KeptIsFirst(fs, -1, f);
    }
  }

  /** `f` reaches at least as far as every finding at its start. */
  predicate Longest(fs: seq<Finding>, f: Finding) {
    forall g :: g in fs && g.start == f.start ==> g.end <= f.end
  }

  /** At every start the first listed finding is a longest one. */
  predicate LongestListedFirst(fs: seq<Finding>) {
    forall i :: 0 <= i < |fs| && FirstAt(fs, i) ==> Longest(fs, fs[i])
  }

  /** Findings that start at different places do not overlap. */
  predicate Apart(fs: seq<Finding>) {
    forall i, j :: 0 <= i < |fs| && 0 <= j < |fs| && fs[i].start < fs[j].start ==> fs[i].end <= fs[j].start
  }

  /** When the detectors list a longest match first, the longest is kept. */
  lemma LongestFirstIsEnough(text: string, fs: seq<Finding>)
    requires AllSpan(fs, text) && LongestListedFirst(fs)
    ensures forall f :: f in Keep(fs, -1) ==> Longest(fs, f)
  {
    hide Keep, Longest;
    forall f | f in Keep(fs, -1) ensures Longest(fs, f) {
      KeptIsFirst(fs, -1, f);
      var i :| 0 <= i < |fs| && fs[i] == f && FirstAt(fs, i);
    }
  }

  /** Without overlaps between starts, the first listed at each start is kept. */
  lemma {:induction false} FirstIsKept(fs: seq<Finding>, cursor: int, i: nat)
    requires ByStart(fs) && Apart(fs) && i < |fs| && FirstAt(fs, i) && fs[i].start >= cursor
    ensures fs[i] in Keep(fs, cursor)
    decreases i
  {
    if i > 0 {
      var rest := fs[1..];
      assert fs[0].start < fs[i].start;
      assert rest[i - 1] == fs[i];
      forall j | 0 <= j < i - 1 ensures rest[j].start != rest[i - 1].start { assert rest[j] == fs[j + 1]; }
      FirstIsKept(rest, if fs[0].start >= cursor then fs[0].end else cursor, i - 1);
    }
  }

  /**
   * The exact condition, when findings at different starts do not overlap: every
   * kept finding is a longest at its start exactly when a longest one is listed first
   * at every start.
   */
  lemma LongestWinsExactly(text: string, fs: seq<Finding>)
    requires ByStart(fs) && AllSpan(fs, text) && Apart(fs)
    ensures (forall f :: f in Keep(fs, -1) ==> Longest(fs, f)) <==> LongestListedFirst(fs)
  {
    hide Keep, Longest;
    if LongestListedFirst(fs) { LongestFirstIsEnough(text, fs); }
    if forall f :: f in Keep(fs, -1) ==> Longest(fs, f) {
      forall i | 0 <= i < |fs| && FirstAt(fs, i) ensures Longest(fs, fs[i]) {
        FirstIsKept(fs, -1, i);
      }
    }
  }

  // ------------------------------------------------------------------ one such text

  const CARD := "123-45-6789 0128"
  const SSN_MATCH := Finding(Ssn, "123-45-6789", 0, 11)
  const CARD_MATCH := Finding(CreditCard, CARD, 0, 16)

  lemma DigitsThen(run: string, rest: string)
    requires AllDigits(run)
    ensures Digits(run + rest) == run + Digits(rest)
  {
    FilterAppend(run, rest, IsDigit);
    FilterAll(run, IsDigit);
  }

  lemma SeparatorThen(c: char, rest: string)
    requires !IsDigit(c)
    ensures Digits([c] + rest) == Digits(rest)
  {
    assert ([c] + rest)[1..] == rest;
  }

  lemma CardDigits()
    ensures Digits(CARD) == "1234567890128"
  {
    hide Digits;
    var d := "0128";
    var c := "6789" + ([' '] + d);
    var b := "45" + (['-'] + c);
    assert CARD == "123" + (['-'] + b);
    assert d + "" == d;
    NoDigits();
    DigitsThen(d, "");
    SeparatorThen(' ', d);
    DigitsThen("6789", [' '] + d);
    SeparatorThen('-', c);
    DigitsThen("45", ['-'] + c);
    SeparatorThen('-', b);
    DigitsThen("123", ['-'] + b);
    assert "123" + ("45" + ("6789" + d)) == "1234567890128";
  }

  lemma NoDigits()
    ensures Digits("") == ""
  {
  }

  lemma NothingSums()
    ensures LuhnSum("") == 0
  {
  }

  lemma LuhnCons(c: char, rest: string, all: string)
    requires all == [c] + rest
    ensures LuhnSum(all) == Contribution(Value(c), |rest| % 2 == 1) + LuhnSum(rest)
  {
    hide Value, Contribution;
    assert all[1..] == rest;
  }

  lemma CardTail()
    ensures LuhnSum("7890128") == 36
  {
    hide LuhnSum;
    assert LuhnSum("") == 0 by { NothingSums(); }
    LuhnCons('8', "", "8");
    LuhnCons('2', "8", "28");
    LuhnCons('1', "28", "128");
    LuhnCons('0', "128", "0128");
    LuhnCons('9', "0128", "90128");
    LuhnCons('8', "90128", "890128");
    LuhnCons('7', "890128", "7890128");
  }

  lemma CardMiddle()
    ensures LuhnSum("4567890128") == 52
  {
    hide LuhnSum;
    CardTail();
    LuhnCons('6', "7890128", "67890128");
    LuhnCons('5', "67890128", "567890128");
    LuhnCons('4', "567890128", "4567890128");
  }

  lemma CardSum()
    ensures LuhnSum("1234567890128") == 60
  {
    hide LuhnSum;
    CardMiddle();
    LuhnCons('3', "4567890128", "34567890128");
    LuhnCons('2', "34567890128", "234567890128");
    LuhnCons('1', "234567890128", "1234567890128");
  }

  lemma CardIsPlausible()
    ensures Plausible(CARD_MATCH)
  {
    hide LuhnSum, Digits;
    CardDigits();
    CardSum();
  }

  /**
   * Text in which the longest match loses: of a social security number and a card
   * number that passes the checksum, both found at 0, the shorter one is kept.
   */
  lemma LongestIsNotPreferred()
    ensures var matches := [SSN_MATCH, CARD_MATCH];
      AllSpan(matches, CARD) && forall f :: f in matches ==> Plausible(f)
    ensures Keep(DetectPii([SSN_MATCH, CARD_MATCH]), -1) == [SSN_MATCH]
    ensures CARD_MATCH.start == SSN_MATCH.start && CARD_MATCH.end > SSN_MATCH.end
  {
    hide LuhnValid;
    var matches := [SSN_MATCH, CARD_MATCH];
    assert CARD[0..11] == "123-45-6789" && CARD[0..16] == CARD;
    CardIsPlausible();
    FilterAll(matches, Plausible);
    assert matches[1..] == [CARD_MATCH] && [CARD_MATCH][1..] == [];
    Sorting.SortOfAscending(matches, StartKey);
    assert Keep([CARD_MATCH], 11) == [];
    assert [SSN_MATCH] + [] == [SSN_MATCH];
  }
}
