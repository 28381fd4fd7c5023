/** One-time codes: HOTP truncation (RFC 4226 section 5.3) and the time window (RFC 6238 section 5.2). */
module Totp {
  import opened Text
  import opened Arithmetic
  import opened Bits
  import opened Decimals
  import Base32

  /** HMAC-SHA-1 as a black box: key and message to a 20-byte digest. */
  type Hmac = (seq<bv8>, seq<bv8>) -> seq<bv8>

  ghost predicate TwentyBytes(hmac: Hmac) {
    forall key, message :: |hmac(key, message)| == 20
  }

  datatype Failure = InvalidBase32 | CounterOutOfRange

  // ------------------------------------------------------------ decimal numbers

  function PadStart(s: string, width: nat): string {
    if |s| < width then seq(width - |s|, i => '0') + s else s
  }

  lemma {:induction false} LeadingZeros(k: nat, s: string)
    requires AllDigits(s)
    ensures AllDigits(seq(k, i => '0') + s) && DecimalValue(seq(k, i => '0') + s) == DecimalValue(s)
    decreases |s|, k
  {
    var zs := seq(k, i => '0');
    if s != "" {
      LeadingZeros(k, s[..|s| - 1]);
      assert (zs + s)[..|zs + s| - 1] == zs + s[..|s| - 1];
    } else {
      assert zs + s == zs;
      if k > 0 {
        assert zs[..k - 1] == seq(k - 1, i => '0');
        LeadingZeros(k - 1, "");
        assert seq(k - 1, i => '0') + "" == seq(k - 1, i => '0');
      }
    }
  }

  lemma PadShape(s: string, width: nat)
    requires AllDigits(s) && |s| <= width
    ensures |PadStart(s, width)| == width && AllDigits(PadStart(s, width))
    ensures DecimalValue(PadStart(s, width)) == DecimalValue(s)
  {
    LeadingZeros(width - |s|, s);
  }

  // ----------------------------------------------------------------------- HOTP

  const TWO_32 := 0x1_0000_0000

  function UInt32BE(x: nat): seq<bv8>
    requires x < TWO_32
  {
    [(x / 0x100_0000) as bv8, (x / 0x1_0000 % 256) as bv8, (x / 256 % 256) as bv8, (x % 256) as bv8]
  }

  /** The moving factor as eight bytes, high-order byte first. */
  function CounterBytes(counter: nat): seq<bv8>
    requires counter < TWO_32 * TWO_32
  {
    UInt32BE(counter / TWO_32) + UInt32BE(counter % TWO_32)
  }

  function Offset(last: bv8): (r: nat)
    ensures r < 16
  {
    (last & 0x0F) as nat
  }

  /** `((d0 & 0x7f) << 24) | (d1 << 16) | (d2 << 8) | d3` */
  function DynamicWord(d0: bv8, d1: bv8, d2: bv8, d3: bv8): bv32 {
    (((d0 & 0x7F) as bv32) << 24) | ((d1 as bv32) << 16) | ((d2 as bv32) << 8) | (d3 as bv32)
  }

  /** Dynamic truncation: every index read lies inside the 20-byte digest. */
  function Truncate(digest: seq<bv8>): nat
    requires |digest| == 20
  {
    var offset := Offset(digest[|digest| - 1]);
    ToNat(DynamicWord(digest[offset], digest[offset + 1], digest[offset + 2], digest[offset + 3]))
  }

  function Hotp(hmac: Hmac, secret: seq<bv8>, counter: int, digits: nat): Result<string, Failure>
    requires TwentyBytes(hmac)
  {
    if !(0 <= counter < TWO_32 * TWO_32) then Err(CounterOutOfRange)
    else
      var digest := hmac(secret, CounterBytes(counter));
      Ok(PadStart(Decimal(Truncate(digest) % Pow10(digits)), digits))
  }

  /** A code is exactly `digits` decimal characters, writing the truncated digest modulo 10^digits. */
  lemma HotpShape(hmac: Hmac, secret: seq<bv8>, counter: nat, digits: nat)
    requires TwentyBytes(hmac) && counter < TWO_32 * TWO_32 && digits >= 1
    ensures var r := Hotp(hmac, secret, counter, digits);
      && r.Ok? && |r.value| == digits && AllDigits(r.value)
      && DecimalValue(r.value) == Truncate(hmac(secret, CounterBytes(counter))) % Pow10(digits)
  {
    hide Truncate, CounterBytes, PadStart, Decimal, DecimalValue;
    var n := Truncate(hmac(secret, CounterBytes(counter))) % Pow10(digits);
    DecimalShape(n, digits);
    PadShape(Decimal(n), digits);
  }

  /** The bytes of a counter written out read back as that counter, most significant byte first. */
  function BigEndian(bytes: seq<bv8>): nat {
    if bytes == [] then 0 else 256 * BigEndian(bytes[..|bytes| - 1]) + (bytes[|bytes| - 1] as nat)
  }

  lemma BigEndianSnoc(head: seq<bv8>, b: bv8)
    ensures BigEndian(head + [b]) == 256 * BigEndian(head) + (b as nat)
  {
    assert (head + [b])[..|head|] == head;
  }

  lemma BigEndianFour(a: bv8, b: bv8, c: bv8, d: bv8, head: seq<bv8>)
    ensures BigEndian(head + [a, b, c, d])
         == 256 * (256 * (256 * (256 * BigEndian(head) + (a as nat)) + (b as nat)) + (c as nat)) + (d as nat)
  {
    hide BigEndian;
    BigEndianSnoc(head, a);
    BigEndianSnoc(head + [a], b);
    BigEndianSnoc(head + [a] + [b], c);
    BigEndianSnoc(head + [a] + [b] + [c], d);
    assert head + [a] + [b] + [c] + [d] == head + [a, b, c, d];
  }

  lemma UInt32Value(x: nat, head: seq<bv8>)
    requires x < TWO_32
    ensures BigEndian(head + UInt32BE(x)) == TWO_32 * BigEndian(head) + x
  {
    hide BigEndian, UInt32BE;
    var a, b, c, d := x / 0x100_0000, x / 0x1_0000 % 256, x / 256 % 256, x % 256;
    UInt32Is(x, a, b, c, d);
    ByteValue(a);
    ByteValue(b);
    ByteValue(c);
    ByteValue(d);
    BigEndianFour(a as bv8, b as bv8, c as bv8, d as bv8, head);
    FourDigits(x, BigEndian(head));
  }

  lemma UInt32Is(x: nat, a: nat, b: nat, c: nat, d: nat)
    requires x < TWO_32 && a == x / 0x100_0000 && b == x / 0x1_0000 % 256 && c == x / 256 % 256 && d == x % 256
    ensures a < 256 && UInt32BE(x) == [a as bv8, b as bv8, c as bv8, d as bv8]
  {
  }

  lemma CounterBytesValue(counter: nat)
    requires counter < TWO_32 * TWO_32
    ensures |CounterBytes(counter)| == 8 && BigEndian(CounterBytes(counter)) == counter
  {
    hide BigEndian, UInt32BE;
    var hi, lo := counter / TWO_32, counter % TWO_32;
    assert [] + UInt32BE(hi) == UInt32BE(hi);
    UInt32Value(hi, []);
    UInt32Value(lo, UInt32BE(hi));
    Endings(hi, lo);
  }

  lemma Endings(hi: nat, lo: nat)
    requires hi < TWO_32 && lo < TWO_32
    ensures |UInt32BE(hi)| == |UInt32BE(lo)| == 4 && BigEndian([]) == 0
  {
  }

  // ------------------------------------------- truncation as RFC 4226 words it

  function ByteNum(b: bv8): nat {
    Num(ByteBits(b))
  }

  /** The last 31 bits of the four bytes at `offset`, as a big-endian number. */
  lemma TruncateIsBigEndian(digest: seq<bv8>)
    requires |digest| == 20
    ensures var o := Offset(digest[19]);
      && o == (digest[19] as nat) % 16
      && Truncate(digest) == 0x100_0000 * (ByteNum(digest[o]) % 128) + 0x1_0000 * ByteNum(digest[o + 1])
                             + 256 * ByteNum(digest[o + 2]) + ByteNum(digest[o + 3])
    ensures Truncate(digest) < 0x8000_0000
  {
    hide ToNat, ByteNum, DynamicWord, Offset;
    OffsetIsNibble(digest[19]);
    var o := Offset(digest[19]);
    WordIsBigEndian(digest[o], digest[o + 1], digest[o + 2], digest[o + 3]);
    ByteNumBound(digest[o + 1]);
    ByteNumBound(digest[o + 2]);
    ByteNumBound(digest[o + 3]);
  }

  /** The offset is the low four bits of the last byte. */
  lemma OffsetIsNibble(b: bv8)
    ensures Offset(b) == (b as nat) % 16
  {
  }

  lemma ByteNumBound(b: bv8)
    ensures ByteNum(b) < 256
  {
    NumBound(ByteBits(b));
    assert Pow2(8) == 256;
  }

  lemma WordIsBigEndian(d0: bv8, d1: bv8, d2: bv8, d3: bv8)
    ensures ToNat(DynamicWord(d0, d1, d2, d3))
         == 0x100_0000 * (ByteNum(d0) % 128) + 0x1_0000 * ByteNum(d1) + 256 * ByteNum(d2) + ByteNum(d3)
  {
    hide LowBits, PushByte, DynamicWord, Num, Pow2;
    var w0 := (d0 & 0x7F) as bv32;
    var w1 := PushByte(w0, d1);
    var w2 := PushByte(w1, d2);
    PushedWord(d0, d1, d2, d3);
    PushByteNum(w0, d1, 8);
    PushByteNum(w1, d2, 16);
    PushByteNum(w2, d3, 24);
    DropTopBit(d0);
  }

  lemma PushByteNum(v: bv32, b: bv8, n: nat)
    requires n <= 24
    ensures Num(LowBits(PushByte(v, b), n + 8)) == 256 * Num(LowBits(v, n)) + ByteNum(b)
  {
    hide PushByte, LowBits;
    PushByteBits(v, b, n);
    NumAppend(LowBits(v, n), ByteBits(b));
    assert Pow2(8) == 256;
  }

  lemma PushedWord(d0: bv8, d1: bv8, d2: bv8, d3: bv8)
    ensures DynamicWord(d0, d1, d2, d3) == PushByte(PushByte(PushByte((d0 & 0x7F) as bv32, d1), d2), d3)
  {
  }

  lemma DropTopBit(d: bv8)
    ensures Num(LowBits((d & 0x7F) as bv32, 8)) == ByteNum(d) % 128
  {
    hide LowBits, UShr;
    var x, y := (d & 0x7F) as bv32, d as bv32;
    LowBitsSplit(x, 1, 7);
    LowBitsSplit(y, 1, 7);
    Ones8();
    OnesFewer(0xFF, 8, 7);
    SevenOnes();
    LowBitsMask(x, 0x7F, 7);
    LowBitsMask(y, 0x7F, 7);
    TopBitFacts(d);
    TopBitOfMasked(d);
    NumAppend(LowBits(UShr(x, 7), 1), LowBits(x, 7));
    NumAppend(LowBits(UShr(y, 7), 1), LowBits(y, 7));
    NumBound(LowBits(x, 7));
    assert Pow2(7) == 128;
    NumOne(LowBits(UShr(y, 7), 1));
  }

  lemma NumOne(b: seq<bool>)
    requires |b| == 1
    ensures Num(b) == if b[0] then 1 else 0
  {
    assert b[..0] == [];
  }

  lemma SevenOnes()
    ensures OnesBelow(0x7F, 7)
  {
    Ones5();
    assert OnesBelow(0x3F, 6);
  }

  lemma TopBitFacts(d: bv8)
    ensures ((d & 0x7F) as bv32) & 0x7F == (d as bv32) & 0x7F
  {
  }

  lemma TopBitOfMasked(d: bv8)
    ensures Num(LowBits(UShr((d & 0x7F) as bv32, 7), 1)) == 0
  {
    var x := (d & 0x7F) as bv32;
    UShr5(x);
    UShrAdd(x, 5, 2);
    UShrStep(x >> 5, 2);
    UShrStep((x >> 5) >> 1, 1);
    TopBitGone(d);
    hide UShr;
    var b := LowBits(UShr(x, 7), 1);
    NumOne(b);
    LowBitsOfZero(1);
  }

  lemma TopBitGone(d: bv8)
    ensures ((((d & 0x7F) as bv32) >> 5) >> 1) >> 1 == 0
  {
  }

  // ----------------------------------------------------------------------- TOTP

  function Counter(now: int, period: nat): int
    requires period >= 1
  {
    now / (1000 * period)
  }

  function GenerateTotp(hmac: Hmac, secretBase32: string, digits: nat, period: nat, now: int): Result<string, Failure>
    requires TwentyBytes(hmac) && period >= 1
  {
    match Base32.Decode(secretBase32)
    case Err(_) => Err(InvalidBase32)
    case Ok(secret) => Hotp(hmac, secret, Counter(now, period), digits)
  }

  function Normalize(token: string): string {
    Filter(token, (c: char) => !IsSpace(c))
  }

  predicate Matches(candidate: string, normalized: string) {
    candidate == PadStart(normalized, |candidate|)
  }

  /** The scan over the offsets still to try; a counter out of range throws. */
  function VerifyFrom(hmac: Hmac, secret: seq<bv8>, normalized: string, digits: nat, counter: int,
                      offset: int, window: int): Result<bool, Failure>
    requires TwentyBytes(hmac)
    decreases window - offset
  {
    if offset > window then Ok(false)
    else match Hotp(hmac, secret, counter + offset, digits)
      case Err(e) => Err(e)
      case Ok(candidate) =>
        if Matches(candidate, normalized) then Ok(true)
        else VerifyFrom(hmac, secret, normalized, digits, counter, offset + 1, window)
  }

  function VerifyTotp(hmac: Hmac, secretBase32: string, token: string, digits: nat, period: nat, window: int, now: int)
    : Result<bool, Failure>
    requires TwentyBytes(hmac) && period >= 1
  {
    var normalized := Normalize(token);
    if normalized == "" || !AllDigits(normalized) then Ok(false)
    else match Base32.Decode(secretBase32)
      case Err(_) => Err(InvalidBase32)
      case Ok(secret) => VerifyFrom(hmac, secret, normalized, digits, Counter(now, period), -window, window)
  }

  method VerifyLoop(hmac: Hmac, secretBase32: string, token: string, digits: nat, period: nat, window: int, now: int)
    returns (r: Result<bool, Failure>)
    requires TwentyBytes(hmac) && period >= 1
    ensures r == VerifyTotp(hmac, secretBase32, token, digits, period, window, now)
  {
    hide Base32.Decode, Normalize, Hotp;
    var normalized := Normalize(token);
    if normalized == "" || !AllDigits(normalized) { return Ok(false); }
    var decoded := Base32.DecodeLoop(secretBase32);
    if decoded.Err? { return Err(InvalidBase32); }
    var counter := Counter(now, period);
    var offset := -window;
    while offset <= window
      invariant VerifyFrom(hmac, decoded.value, normalized, digits, counter, -window, window)
             == VerifyFrom(hmac, decoded.value, normalized, digits, counter, offset, window)
    {
      var candidate := Hotp(hmac, decoded.value, counter + offset, digits);
      if candidate.Err? { return Err(candidate.error); }
      if Matches(candidate.value, normalized) { return Ok(true); }
      offset := offset + 1;
    }
    r := Ok(false);
  }

  predicate Produces(hmac: Hmac, secret: seq<bv8>, counter: int, digits: nat, normalized: string)
    requires TwentyBytes(hmac)
  {
    Hotp(hmac, secret, counter, digits) == Ok(PadStart(normalized, digits))
  }

  /** Some counter from `low` to `high` produces the padded token. */
  ghost predicate SomeProduces(hmac: Hmac, secret: seq<bv8>, low: int, high: int, digits: nat, normalized: string)
    requires TwentyBytes(hmac)
  {
    exists c :: low <= c <= high && Produces(hmac, secret, c, digits, normalized)
  }

  lemma {:induction false} VerifyFromScans(hmac: Hmac, secret: seq<bv8>, normalized: string, digits: nat, counter: int,
                                           offset: int, window: int)
    requires TwentyBytes(hmac) && digits >= 1
    requires 0 <= counter + offset && counter + window < TWO_32 * TWO_32
    ensures VerifyFrom(hmac, secret, normalized, digits, counter, offset, window)
         == Ok(SomeProduces(hmac, secret, counter + offset, counter + window, digits, normalized))
    decreases window - offset
  {
    hide Produces, SomeProduces, VerifyFrom;
    SomeProducesStep(hmac, secret, counter + offset, counter + window, digits, normalized);
    if offset <= window {
      VerifyFromStep(hmac, secret, normalized, digits, counter, offset, window);
      if !Produces(hmac, secret, counter + offset, digits, normalized) {
        VerifyFromScans(hmac, secret, normalized, digits, counter, offset + 1, window);
      }
    } else {
      VerifyFromEnd(hmac, secret, normalized, digits, counter, offset, window);
    }
  }

  lemma SomeProducesStep(hmac: Hmac, secret: seq<bv8>, low: int, high: int, digits: nat, normalized: string)
    requires TwentyBytes(hmac) && digits >= 1 && 0 <= low && high < TWO_32 * TWO_32
    ensures SomeProduces(hmac, secret, low, high, digits, normalized)
         <==> low <= high && (Produces(hmac, secret, low, digits, normalized)
                              || SomeProduces(hmac, secret, low + 1, high, digits, normalized))
  {
    hide Produces;
  }

  lemma VerifyFromStep(hmac: Hmac, secret: seq<bv8>, normalized: string, digits: nat, counter: int, offset: int,
                       window: int)
    requires TwentyBytes(hmac) && digits >= 1 && offset <= window
    requires 0 <= counter + offset && counter + window < TWO_32 * TWO_32
    ensures VerifyFrom(hmac, secret, normalized, digits, counter, offset, window)
         == if Produces(hmac, secret, counter + offset, digits, normalized) then Ok(true)
            else VerifyFrom(hmac, secret, normalized, digits, counter, offset + 1, window)
  {
    hide Hotp, PadStart;
    HotpShape(hmac, secret, counter + offset, digits);
  }

  lemma VerifyFromEnd(hmac: Hmac, secret: seq<bv8>, normalized: string, digits: nat, counter: int, offset: int,
                      window: int)
    requires TwentyBytes(hmac) && offset > window
    ensures VerifyFrom(hmac, secret, normalized, digits, counter, offset, window) == Ok(false)
  {
  }

  /** While no counter in the window leaves the 64-bit range, a token is accepted exactly when one of them produces it. */
  lemma AcceptsExactlyTheWindow(hmac: Hmac, secretBase32: string, secret: seq<bv8>, token: string,
                                digits: nat, period: nat, window: int, now: int)
    requires TwentyBytes(hmac) && period >= 1 && digits >= 1 && window >= 0
    requires Base32.Decode(secretBase32) == Ok(secret)
    requires window <= Counter(now, period) && Counter(now, period) + window < TWO_32 * TWO_32
    ensures VerifyTotp(hmac, secretBase32, token, digits, period, window, now)
         == Ok(Normalize(token) != "" && AllDigits(Normalize(token))
               && SomeProduces(hmac, secret, Counter(now, period) - window, Counter(now, period) + window,
                               digits, Normalize(token)))
  {
    hide Normalize, VerifyFrom, SomeProduces;
    VerifyFromScans(hmac, secret, Normalize(token), digits, Counter(now, period), -window, window);
  }

  /** The counter numbers the periods since the epoch: it is `c` from `c` periods on until the next begins. */
  lemma CounterIs(now: int, period: nat, c: int)
    requires period >= 1
    ensures Counter(now, period) == c <==> c * (1000 * period) <= now < (c + 1) * (1000 * period)
  {
    var unit := 1000 * period;
    if c * unit <= now < (c + 1) * unit { FloorIs(now, unit, c); }
  }

  /** White space in a token does not matter, and nothing else is dropped. */
  lemma SpacesAreDropped(a: string, c: char, b: string)
    ensures IsSpace(c) ==> Normalize(a + [c] + b) == Normalize(a + b)
    ensures (forall d :: d in a ==> !IsSpace(d)) ==> Normalize(a) == a
  {
    hide IsSpace;
    var keep := (d: char) => !IsSpace(d);
    FilterAppend(a + [c], b, keep);
    FilterAppend(a, [c], keep);
    FilterAppend(a, b, keep);
    if IsSpace(c) {
      FilterNone([c], keep);
      assert Filter(a, keep) + [] == Filter(a, keep);
    }
    if forall d :: d in a ==> !IsSpace(d) { FilterAll(a, keep); }
  }

  lemma {:induction false} SameValueSameDigits(a: string, b: string)
    requires |a| == |b| && AllDigits(a) && AllDigits(b) && DecimalValue(a) == DecimalValue(b)
    ensures a == b
    decreases |a|
  {
    if a != "" {
      var n := |a| - 1;
      assert IsDigit(a[n]) && IsDigit(b[n]);
      SameValueSameDigits(a[..n], b[..n]);
      assert a == a[..n] + [a[n]] && b == b[..n] + [b[n]];
    }
  }

  /** The truncated digest of counter `c`, reduced to `digits` decimals, is `value`. */
  predicate HasCode(hmac: Hmac, secret: seq<bv8>, c: int, digits: nat, value: nat)
    requires TwentyBytes(hmac)
  {
    0 <= c < TWO_32 * TWO_32 && Truncate(hmac(secret, CounterBytes(c))) % Pow10(digits) == value
  }

  lemma ProducesByValue(hmac: Hmac, secret: seq<bv8>, c: int, digits: nat, normalized: string)
    requires TwentyBytes(hmac) && digits >= 1 && AllDigits(normalized) && 0 <= c < TWO_32 * TWO_32
    ensures Produces(hmac, secret, c, digits, normalized) <==>
      |normalized| <= digits && HasCode(hmac, secret, c, digits, DecimalValue(normalized))
  {
    hide Hotp, Truncate, CounterBytes, DecimalValue;
    HotpShape(hmac, secret, c, digits);
    var code := Hotp(hmac, secret, c, digits).value;
    if |normalized| <= digits {
      PadShape(normalized, digits);
      if DecimalValue(code) == DecimalValue(normalized) { SameValueSameDigits(code, PadStart(normalized, digits)); }
    }
  }

  /** Some counter at most `window` away from `c0` has that code. */
  ghost predicate CodeNearby(hmac: Hmac, secret: seq<bv8>, c0: int, window: int, digits: nat, value: nat)
    requires TwentyBytes(hmac)
  {
    exists c :: c0 - window <= c <= c0 + window && HasCode(hmac, secret, c, digits, value)
  }

  /**
   * Acceptance in numbers: in period `c0` a token is accepted exactly when,
   * without its spaces, it is a number of one to `digits` digits and equals the
   * truncated digest, modulo 10^digits, of some counter at most `window` from `c0`.
   */
  lemma AcceptedByTheClock(hmac: Hmac, secretBase32: string, secret: seq<bv8>, token: string, digits: nat, period: nat,
                           window: int, now: int, c0: int)
    requires TwentyBytes(hmac) && period >= 1 && digits >= 1 && window >= 0
    requires Base32.Decode(secretBase32) == Ok(secret)
    requires c0 * (1000 * period) <= now < (c0 + 1) * (1000 * period)
    requires window <= c0 && c0 + window < TWO_32 * TWO_32
    ensures var n := Normalize(token);
      VerifyTotp(hmac, secretBase32, token, digits, period, window, now)
      == Ok(AllDigits(n) && 1 <= |n| <= digits && CodeNearby(hmac, secret, c0, window, digits, DecimalValue(n)))
  {
    hide Normalize, VerifyTotp, Produces, HasCode, Base32.Decode, DecimalValue;
    var n := Normalize(token);
    CounterIs(now, period, c0);
    AcceptsExactlyTheWindow(hmac, secretBase32, secret, token, digits, period, window, now);
    if AllDigits(n) {
      forall c | c0 - window <= c <= c0 + window
        ensures Produces(hmac, secret, c, digits, n) <==> |n| <= digits && HasCode(hmac, secret, c, digits, DecimalValue(n))
      {
        ProducesByValue(hmac, secret, c, digits, n);
      }
    }
  }

  lemma FloorDistance(t: int, t': int, unit: nat, window: int)
    requires unit >= 1 && window >= 0 && t' - t <= window * unit && t - t' <= window * unit
    ensures t / unit - t' / unit <= window && t' / unit - t / unit <= window
  {
    FloorMonotone(t', t + window * unit, unit);
    FloorMonotone(t, t' + window * unit, unit);
    FloorShift(t, unit, window);
    FloorShift(t', unit, window);
  }

  lemma {:induction false} FloorShift(base: int, unit: nat, window: int)
    requires unit >= 1 && window >= 0
    ensures (base + window * unit) / unit == base / unit + window
    decreases window
  {
    if window > 0 {
      FloorShift(base, unit, window - 1);
      OneMore(base, window, unit);
      FloorNext(base + (window - 1) * unit, unit);
    }
  }

  lemma OneMore(base: int, window: int, unit: int)
    ensures base + window * unit == (base + (window - 1) * unit) + unit
  {
  }

  lemma FloorNext(a: int, unit: nat)
    requires unit >= 1
    ensures (a + unit) / unit == a / unit + 1
  {
    FloorIs(a + unit, unit, a / unit + 1);
  }

  /** A code generated at `t` is accepted at any `t'` within `window` periods of it. */
  lemma SkewTolerance(hmac: Hmac, secretBase32: string, digits: nat, period: nat, window: int, t: int, t': int)
    requires TwentyBytes(hmac) && period >= 1 && digits >= 1 && window >= 0
    requires t' - t <= window * (1000 * period) && t - t' <= window * (1000 * period)
    requires 0 <= Counter(t, period) && window <= Counter(t', period)
    requires Counter(t', period) + window < TWO_32 * TWO_32
    requires GenerateTotp(hmac, secretBase32, digits, period, t).Ok?
    ensures VerifyTotp(hmac, secretBase32, GenerateTotp(hmac, secretBase32, digits, period, t).value,
                       digits, period, window, t') == Ok(true)
  {
    hide Normalize, VerifyTotp, SomeProduces, Hotp, Base32.Decode, Counter;
    var secret := Base32.Decode(secretBase32).value;
    var code := GenerateTotp(hmac, secretBase32, digits, period, t).value;
    CounterDistance(t, t', period, window);
    HotpShape(hmac, secret, Counter(t, period), digits);
    DigitsStay(code);
    AcceptsExactlyTheWindow(hmac, secretBase32, secret, code, digits, period, window, t');
    CodeMatches(hmac, secret, code, digits, Counter(t', period), Counter(t, period) - Counter(t', period), window);
  }

  lemma CounterDistance(t: int, t': int, period: nat, window: int)
    requires period >= 1 && window >= 0
    requires t' - t <= window * (1000 * period) && t - t' <= window * (1000 * period)
    ensures -window <= Counter(t, period) - Counter(t', period) <= window
  {
    FloorDistance(t, t', 1000 * period, window);
  }

  lemma CodeMatches(hmac: Hmac, secret: seq<bv8>, code: string, digits: nat, counter: int, k: int, window: int)
    requires TwentyBytes(hmac) && |code| == digits && -window <= k <= window
    requires Hotp(hmac, secret, counter + k, digits) == Ok(code)
    ensures SomeProduces(hmac, secret, counter - window, counter + window, digits, code)
  {
    hide Hotp;
    assert PadStart(code, digits) == code;
    assert Produces(hmac, secret, counter + k, digits, code);
  }

  lemma DigitsStay(code: string)
    requires AllDigits(code)
    ensures Normalize(code) == code
  {
    FilterAll(code, (c: char) => !IsSpace(c));
  }
}
