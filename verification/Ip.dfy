/** IP allowlists: exact matches and IPv4 CIDR ranges under 32-bit shift semantics. */
module Ip {
  import opened Text
  import opened Arithmetic
  import opened Bits
  import opened Decimals

  /** `Number(bits)` for a prefix length: `None` when it is not an integer. */
  type ToInteger = string -> Option<int>

  // ----------------------------------------------------------------- the parser

  /** One to three digits, at most 255. */
  function Octet(part: string): Option<bv8> {
    if 1 <= |part| <= 3 && AllDigits(part) && DecimalValue(part) <= 255
    then Some(DecimalValue(part) as bv8) else None
  }

  function ParseOctets(parts: seq<string>, value: bv32): Option<bv32> {
    if parts == [] then Some(value)
    else match Octet(parts[0])
      case None => None
      case Some(octet) => ParseOctets(parts[1..], PushByte(value, octet))
  }

  function Ipv4ToInt(ip: string): Option<bv32> {
    var parts := Split(ip, ".");
    if |parts| != 4 then None else ParseOctets(parts, 0)
  }

  method ParseIpv4(ip: string) returns (r: Option<bv32>)
    ensures r == Ipv4ToInt(ip)
  {
    hide Split, Octet, PushByte;
    var parts := Split(ip, ".");
    if |parts| != 4 { return None; }
    var value: bv32 := 0;
    assert parts[0..] == parts;
    for i := 0 to |parts|
      invariant Ipv4ToInt(ip) == ParseOctets(parts[i..], value)
    {
      var octet := Octet(parts[i]);
      assert parts[i..][0] == parts[i] && parts[i..][1..] == parts[i + 1..];
      if octet.None? { return None; }
      value := PushByte(value, octet.value);
    }
    r := Some(value);
  }

  /** `~((1 << (32 - bits)) - 1)`, all ones for 32. */
  function Mask(bits: nat): bv32
    requires 1 <= bits <= 32
  {
    if bits == 32 then 0xFFFF_FFFF else ClearBelow(Shl(1, 32 - bits))
  }

  function ClearBelow(power: bv32): bv32 {
    !(power - 1)
  }

  function Masked(v: bv32, bits: nat): bv32
    requires 1 <= bits <= 32
  {
    v & Mask(bits)
  }

  predicate SamePrefix(ip: bv32, range: bv32, bits: nat)
    requires bits <= 32
  {
    bits == 0 || Masked(ip, bits) == Masked(range, bits)
  }

  predicate MatchesCidr(ip: string, cidr: string, number: ToInteger) {
    var parts := Split(cidr, "/");
    |parts| >= 2 && parts[0] != "" &&
    var bits := number(parts[1]);
    bits.Some? && 0 <= bits.value <= 32 &&
    var ipInt, rangeInt := Ipv4ToInt(ip), Ipv4ToInt(parts[0]);
    ipInt.Some? && rangeInt.Some? && SamePrefix(ipInt.value, rangeInt.value, bits.value)
  }

  predicate EntryMatches(ip: string, entry: string, number: ToInteger) {
    var trimmed := Trim(entry);
    trimmed != "" && if Includes(trimmed, "/") then MatchesCidr(ip, trimmed, number) else trimmed == ip
  }

  /** Empty allows everything; otherwise some entry has to match. */
  predicate Allowed(ip: string, allowlist: seq<string>, number: ToInteger) {
    allowlist == [] || exists i :: 0 <= i < |allowlist| && EntryMatches(ip, allowlist[i], number)
  }

  method IpMatchesAllowlist(ip: string, allowlist: seq<string>, number: ToInteger) returns (allowed: bool)
    ensures allowed == Allowed(ip, allowlist, number)
  {
    hide Trim, Includes, MatchesCidr;
    if |allowlist| == 0 { return true; }
    for i := 0 to |allowlist|
      invariant forall k :: 0 <= k < i ==> !EntryMatches(ip, allowlist[k], number)
    {
      var trimmed := Trim(allowlist[i]);
      if trimmed == "" { continue; }
      if Includes(trimmed, "/") {
        if MatchesCidr(ip, trimmed, number) {
          assert EntryMatches(ip, allowlist[i], number);
          return true;
        }
      } else if trimmed == ip {
        assert EntryMatches(ip, allowlist[i], number);
        return true;
      }
    }
    allowed := false;
  }

  // ------------------------------------------------- masks as arithmetic prefixes

  lemma {:induction false} ShlDouble(v: bv32, k: nat)
    ensures Shl(v << 1, k) == Shl(v, k) << 1
    decreases k
  {
    var w := v << 1;
    if k > 0 {
      ShlDouble(w, k - 1);
      ShlStep(v, k);
      ShlStep(w, k);
    }
    hide Shl;
  }

  lemma ShlStep(v: bv32, k: nat)
    requires k > 0
    ensures Shl(v, k) == Shl(v << 1, k - 1)
  {
  }

  lemma ShlOne(k: nat)
    requires k >= 1
    ensures Shl(1, k) == Shl(1, k - 1) << 1 && Shl(1, 0) == 1
  {
    ShlDouble(1, k - 1);
  }

  /** The mask of a prefix one shorter has one more zero at the end. */
  lemma MaskStep(k: nat)
    requires 1 <= k <= 31
    ensures Mask(32 - k) == Mask(33 - k) << 1
  {
    hide Shl, ClearBelow;
    ShlOne(k);
    ClearDoubles(Shl(1, k - 1));
  }

  lemma ClearDoubles(p: bv32)
    ensures ClearBelow(p << 1) == ClearBelow(p) << 1
    ensures ClearBelow(1) == 0xFFFF_FFFF
  {
  }

  /** Masking keeps the first `n - k` digits and clears the last `k`. */
  lemma {:induction false} MaskedDigits(v: bv32, n: nat, k: nat)
    requires k <= 31 && k <= n
    ensures LowBits(Masked(v, 32 - k), n) == LowBits(UShr(v, k), n - k) + Zeros(k)
    decreases k
  {
    hide Mask, Masked, LowBits, Zeros;
    if k == 0 {
      NothingMasked(v, n);
    } else {
      MaskedDigits(v >> 1, n - 1, k - 1);
      MaskedLast(v, n, k);
      UShrStep(v, k);
      ZerosSnoc(LowBits(UShr(v, k), n - k), k);
    }
  }

  lemma NothingMasked(v: bv32, n: nat)
    ensures LowBits(Masked(v, 32), n) == LowBits(UShr(v, 0), n) + Zeros(0)
  {
    hide LowBits;
    AllOnes(v);
  }

  lemma MaskedLast(v: bv32, n: nat, k: nat)
    requires 1 <= k <= 31 && k <= n
    ensures LowBits(Masked(v, 32 - k), n) == LowBits(Masked(v >> 1, 33 - k), n - 1) + [false]
  {
    MaskStep(k);
    hide Mask;
    ClearLast(v, Mask(33 - k));
  }

  lemma ZerosSnoc(a: seq<bool>, k: nat)
    requires k >= 1
    ensures (a + Zeros(k - 1)) + [false] == a + Zeros(k)
  {
  }

  lemma AllOnes(v: bv32)
    ensures v & 0xFFFF_FFFF == v
  {
  }

  lemma ClearLast(v: bv32, m: bv32)
    ensures (v & (m << 1)) >> 1 == (v >> 1) & m && (v & (m << 1)) & 1 == 0
  {
  }

  lemma WordsHave32Digits(v: bv32)
    ensures UShr(v, 32) == 0
  {
    UShrAdd(v, 8, 24);
    UShr8(v);
    UShrAdd(v >> 8, 8, 16);
    UShr8(v >> 8);
    UShrAdd((v >> 8) >> 8, 8, 8);
    UShr8((v >> 8) >> 8);
    UShr8(((v >> 8) >> 8) >> 8);
    hide UShr;
    FourBytesOut(v);
  }

  lemma FourBytesOut(v: bv32)
    ensures (((v >> 8) >> 8) >> 8) >> 8 == 0
  {
  }

  /** A word is its number. */
  lemma ToNatInjective(v: bv32, w: bv32)
    requires ToNat(v) == ToNat(w)
    ensures v == w
  {
    hide LowBits, UShr;
    NumInjective(LowBits(v, 32), LowBits(w, 32));
    WordsHave32Digits(v);
    WordsHave32Digits(w);
    WordFromLowBits(v, 32);
    WordFromLowBits(w, 32);
  }

  /** Dividing by 2^k drops the last k digits. */
  lemma QuotientIsPrefix(v: bv32, k: nat)
    requires k <= 32
    ensures ToNat(v) / Pow2(k) == Num(LowBits(UShr(v, k), 32 - k))
  {
    hide LowBits, UShr, Num;
    LowBitsSplit(v, 32 - k, k);
    var hi, lo := LowBits(UShr(v, k), 32 - k), LowBits(v, k);
    NumAppend(hi, lo);
    NumBound(lo);
    Quotient(Num(hi), Pow2(k), Num(lo));
  }

  lemma Quotient(q: nat, d: nat, r: nat)
    requires r < d
    ensures (q * d + r) / d == q
  {
    FloorIs(q * d + r, d, q);
  }

  /** Addresses match a range exactly when they agree after division by 2^(32 - bits). */
  lemma PrefixIsQuotient(ip: bv32, range: bv32, bits: nat)
    requires bits <= 32
    ensures SamePrefix(ip, range, bits) <==> ToNat(ip) / Pow2(32 - bits) == ToNat(range) / Pow2(32 - bits)
  {
    hide LowBits, UShr, Masked, ToNat, Num, Pow2, Zeros;
    var k := 32 - bits;
    QuotientIsPrefix(ip, k);
    QuotientIsPrefix(range, k);
    if bits > 0 {
      MaskedDigits(ip, 32, k);
      MaskedDigits(range, 32, k);
      PrefixFromMask(ip, range, k);
    } else {
      EmptyPrefix(ip);
      EmptyPrefix(range);
    }
  }

  lemma EmptyPrefix(v: bv32)
    ensures Num(LowBits(UShr(v, 32), 0)) == 0
  {
  }

  lemma PrefixFromMask(ip: bv32, range: bv32, k: nat)
    requires k <= 31
    requires LowBits(Masked(ip, 32 - k), 32) == LowBits(UShr(ip, k), 32 - k) + Zeros(k)
    requires LowBits(Masked(range, 32 - k), 32) == LowBits(UShr(range, k), 32 - k) + Zeros(k)
    ensures Masked(ip, 32 - k) == Masked(range, 32 - k)
       <==> Num(LowBits(UShr(ip, k), 32 - k)) == Num(LowBits(UShr(range, k), 32 - k))
  {
    hide LowBits, UShr, Masked, Num;
    var a, b := LowBits(UShr(ip, k), 32 - k), LowBits(UShr(range, k), 32 - k);
    if Masked(ip, 32 - k) == Masked(range, 32 - k) {
      assert a == (a + Zeros(k))[..32 - k] && b == (b + Zeros(k))[..32 - k];
    }
    if Num(a) == Num(b) {
      NumInjective(a, b);
      SameNumber(Masked(ip, 32 - k), Masked(range, 32 - k));
    }
  }

  lemma SameNumber(v: bv32, w: bv32)
    requires LowBits(v, 32) == LowBits(w, 32)
    ensures v == w
  {
    ToNatInjective(v, w);
  }

  // ---------------------------------------------------------- shorter prefixes

  lemma {:induction false} Pow2Add(a: nat, b: nat)
    ensures Pow2(a + b) == Pow2(a) * Pow2(b)
    decreases a
  {
    if a > 0 {
      Pow2Add(a - 1, b);
      MulShuffle(Pow2(a - 1), Pow2(b));
    }
  }

  lemma MulShuffle(x: nat, y: nat)
    ensures 2 * (x * y) == (2 * x) * y
  {
  }

  lemma QuotientTwice(x: nat, a: nat, b: nat)
    requires a >= 1 && b >= 1
    ensures a * b >= 1 && x / (a * b) == x / a / b
  {
    var q := x / a / b;
    var y, r := x / a, x % a;
    var s := y % b;
    assert x == y * a + r;
    assert y == q * b + s;
    MulPositive(a, b);
    Regroup(q, a, b, s, r);
    RemainderBound(s, a, b, r);
    Quotient(q, a * b, s * a + r);
  }

  lemma MulPositive(a: nat, b: nat)
    requires a >= 1 && b >= 1
    ensures a * b >= 1
  {
  }

  lemma Regroup(q: nat, a: nat, b: nat, s: nat, r: nat)
    ensures (q * b + s) * a + r == q * (a * b) + (s * a + r)
  {
  }

  lemma RemainderBound(s: nat, a: nat, b: nat, r: nat)
    requires s < b && r < a
    ensures s * a + r < a * b
  {
    Scale(s + 1, b, a);
  }

  /** Shortening the prefix never loses a match. */
  lemma ShorterPrefixKeepsMatch(ip: bv32, range: bv32, bits: nat, fewer: nat)
    requires fewer <= bits <= 32 && SamePrefix(ip, range, bits)
    ensures SamePrefix(ip, range, fewer)
  {
    hide SamePrefix, ToNat;
    PrefixIsQuotient(ip, range, bits);
    PrefixIsQuotient(ip, range, fewer);
    Pow2Add(32 - bits, bits - fewer);
    QuotientTwice(ToNat(ip), Pow2(32 - bits), Pow2(bits - fewer));
    QuotientTwice(ToNat(range), Pow2(32 - bits), Pow2(bits - fewer));
  }

  /** `wider` is `entry` with a shorter prefix length. */
  predicate Widens(entry: string, wider: string, number: ToInteger) {
    var e, w := Trim(entry), Trim(wider);
    entry == wider ||
    (Includes(e, "/") && Includes(w, "/") && w != "" &&
     var pe, pw := Split(e, "/"), Split(w, "/");
     |pe| >= 2 && |pw| >= 2 && pe[0] == pw[0] &&
     var be, bw := number(pe[1]), number(pw[1]);
     be.Some? && bw.Some? && 0 <= bw.value <= be.value <= 32)
  }

  lemma WiderEntryMatches(ip: string, entry: string, wider: string, number: ToInteger)
    requires Widens(entry, wider, number) && EntryMatches(ip, entry, number)
    ensures EntryMatches(ip, wider, number)
  {
    hide Trim, Includes, Split, SamePrefix, Ipv4ToInt;
    if entry != wider {
      var pe, pw := Split(Trim(entry), "/"), Split(Trim(wider), "/");
      ShorterPrefixKeepsMatch(Ipv4ToInt(ip).value, Ipv4ToInt(pe[0]).value, number(pe[1]).value, number(pw[1]).value);
    }
  }

  /** Widening entries of an allowlist never locks anyone out. */
  lemma WiderAllowlistKeepsAccess(ip: string, allowlist: seq<string>, wider: seq<string>, number: ToInteger)
    requires |allowlist| == |wider|
    requires forall i :: 0 <= i < |wider| ==> Widens(allowlist[i], wider[i], number)
    requires Allowed(ip, allowlist, number)
    ensures Allowed(ip, wider, number)
  {
    hide EntryMatches, Widens;
    if allowlist != [] {
      var i :| 0 <= i < |allowlist| && EntryMatches(ip, allowlist[i], number);
      WiderEntryMatches(ip, allowlist[i], wider[i], number);
      assert EntryMatches(ip, wider[i], number);
    }
  }

  // ------------------------------------------------------- printing and parsing

  function Quad(a: nat, b: nat, c: nat, d: nat): string {
    Decimal(a) + "." + (Decimal(b) + "." + (Decimal(c) + "." + Decimal(d)))
  }

  /** An address in dotted decimal. */
  function Print(v: bv32): string {
    var n := ToNat(v);
    Quad(n / 0x100_0000, n / 0x1_0000 % 256, n / 256 % 256, n % 256)
  }

  lemma SplitOnDot(head: string, rest: string)
    requires '.' !in head
    ensures Split(head + "." + rest, ".") == [head] + Split(rest, ".")
  {
    hide IndexFrom;
    var s := head + "." + rest;
    forall j | 0 <= j < |head| ensures !At(s, ".", j) {
      assert s[j..j + 1] == [s[j]] == [head[j]];
    }
    assert s[|head|..|head| + 1] == ".";
    IndexFromIs(s, ".", 0, |head|);
    assert s[..|head|] == head && s[|head| + 1..] == rest;
  }

  lemma NoDot(s: string)
    requires '.' !in s
    ensures Split(s, ".") == [s]
  {
    hide IndexFrom;
    forall j | 0 <= j && j + 1 <= |s| ensures !At(s, ".", j) {
      assert s[j..j + 1] == [s[j]];
    }
    IndexFromNone(s, ".", 0);
  }

  lemma OctetOfDecimal(a: nat)
    requires a < 256
    ensures Octet(Decimal(a)) == Some(a as bv8) && '.' !in Decimal(a)
  {
    hide Decimal, DecimalValue;
    assert Pow10(3) == 1000;
    DecimalShape(a, 3);
  }

  lemma ParseQuad(a: nat, b: nat, c: nat, d: nat)
    requires a < 256 && b < 256 && c < 256 && d < 256
    ensures Ipv4ToInt(Quad(a, b, c, d))
         == Some(PushByte(PushByte(PushByte(PushByte(0, a as bv8), b as bv8), c as bv8), d as bv8))
  {
    hide Octet, Decimal, PushByte, Split;
    OctetOfDecimal(a);
    OctetOfDecimal(b);
    OctetOfDecimal(c);
    OctetOfDecimal(d);
    var pa, pb, pc, pd := Decimal(a), Decimal(b), Decimal(c), Decimal(d);
    SplitOnDot(pa, pb + "." + (pc + "." + pd));
    SplitOnDot(pb, pc + "." + pd);
    SplitOnDot(pc, pd);
    NoDot(pd);
    var parts := [pa] + ([pb] + ([pc] + [pd]));
    assert Split(Quad(a, b, c, d), ".") == parts;
    ParseFour(pa, pb, pc, pd, a as bv8, b as bv8, c as bv8, d as bv8);
    assert parts == [pa, pb, pc, pd];
  }

  lemma ParseFour(pa: string, pb: string, pc: string, pd: string, a: bv8, b: bv8, c: bv8, d: bv8)
    requires Octet(pa) == Some(a) && Octet(pb) == Some(b) && Octet(pc) == Some(c) && Octet(pd) == Some(d)
    ensures ParseOctets([pa, pb, pc, pd], 0)
         == Some(PushByte(PushByte(PushByte(PushByte(0, a), b), c), d))
  {
    hide Octet, PushByte, ParseOctets;
    ParseStep(pa, [pb, pc, pd], 0, a);
    ParseStep(pb, [pc, pd], PushByte(0, a), b);
    ParseStep(pc, [pd], PushByte(PushByte(0, a), b), c);
    ParseStep(pd, [], PushByte(PushByte(PushByte(0, a), b), c), d);
    assert [pa] + [pb, pc, pd] == [pa, pb, pc, pd];
    assert [pb] + [pc, pd] == [pb, pc, pd];
    assert [pc] + [pd] == [pc, pd];
    assert [pd] + [] == [pd];
    ParseNothing(PushByte(PushByte(PushByte(PushByte(0, a), b), c), d));
  }

  lemma ParseStep(part: string, rest: seq<string>, value: bv32, octet: bv8)
    requires Octet(part) == Some(octet)
    ensures ParseOctets([part] + rest, value) == ParseOctets(rest, PushByte(value, octet))
  {
    hide Octet, PushByte;
    assert ([part] + rest)[1..] == rest;
  }

  lemma ParseNothing(value: bv32)
    ensures ParseOctets([], value) == Some(value)
  {
  }

  lemma QuadNumber(a: nat, b: nat, c: nat, d: nat)
    requires a < 256 && b < 256 && c < 256 && d < 256
    ensures ToNat(PushByte(PushByte(PushByte(PushByte(0, a as bv8), b as bv8), c as bv8), d as bv8))
         == 256 * (256 * (256 * a + b) + c) + d
  {
    hide PushByte, LowBits;
    var v1 := PushByte(0, a as bv8);
    var v2 := PushByte(v1, b as bv8);
    var v3 := PushByte(v2, c as bv8);
    PushSmall(0, a, 0);
    PushSmall(v1, b, 8);
    PushSmall(v2, c, 16);
    PushSmall(v3, d, 24);
    NoDigits(0);
  }

  lemma PushSmall(v: bv32, i: nat, n: nat)
    requires i < 256 && n <= 24
    ensures Num(LowBits(PushByte(v, i as bv8), n + 8)) == 256 * Num(LowBits(v, n)) + i
  {
    hide PushByte, LowBits, Num;
    PushByteBits(v, i as bv8, n);
    NumAppend(LowBits(v, n), ByteBits(i as bv8));
    assert Pow2(8) == 256;
    SmallNumber(i, 8);
    SmallByte(i);
  }

  lemma SmallByte(i: nat)
    requires i < 256
    ensures (i as bv8) as bv32 == i as bv32
  {
  }

  lemma ToNatBound(v: bv32)
    ensures ToNat(v) < 0x1_0000_0000
  {
    hide LowBits, Num;
    NumBound(LowBits(v, 32));
    assert Pow2(8) == 256;
    hide Pow2;
    Pow2Add(8, 8);
    Pow2Add(16, 16);
  }

  /** Parsing inverts printing for every 32-bit address. */
  lemma ParseInvertsPrint(v: bv32)
    ensures Ipv4ToInt(Print(v)) == Some(v)
  {
    hide Ipv4ToInt, Quad, PushByte, ToNat;
    var n := ToNat(v);
    ToNatBound(v);
    FourDigits(n, 0);
    var a, b, c, d := n / 0x100_0000, n / 0x1_0000 % 256, n / 256 % 256, n % 256;
    ParseQuad(a, b, c, d);
    QuadNumber(a, b, c, d);
    ToNatInjective(PushByte(PushByte(PushByte(PushByte(0, a as bv8), b as bv8), c as bv8), d as bv8), v);
  }

  // ------------------------------------------------------------- entries as written

  lemma SplitOnChar(head: string, sep: char, rest: string)
    requires sep !in head
    ensures Split(head + [sep] + rest, [sep]) == [head] + Split(rest, [sep])
    ensures Includes(head + [sep] + rest, [sep])
  {
    hide IndexFrom;
    var s := head + [sep] + rest;
    forall j | 0 <= j < |head| ensures !At(s, [sep], j) {
      assert s[j..j + 1] == [s[j]] == [head[j]];
    }
    assert s[|head|..|head| + 1] == [sep];
    IndexFromIs(s, [sep], 0, |head|);
    assert s[..|head|] == head && s[|head| + 1..] == rest;
  }

  lemma NoneOfChar(s: string, sep: char)
    requires sep !in s
    ensures Split(s, [sep]) == [s] && !Includes(s, [sep])
  {
    hide IndexFrom;
    forall j | 0 <= j && j + 1 <= |s| ensures !At(s, [sep], j) {
      assert s[j..j + 1] == [s[j]];
    }
    IndexFromNone(s, [sep], 0);
  }

  lemma TrimOfTight(s: string)
    requires s != "" && !IsSpace(s[0]) && !IsSpace(s[|s| - 1])
    ensures Trim(s) == s
  {
  }

  lemma DecimalIsTight(n: nat)
    ensures Decimal(n) != "" && forall c :: c in Decimal(n) ==> IsDigit(c)
    decreases n
  {
    if n >= 10 { DecimalIsTight(n / 10); }
  }

  lemma QuadChars(a: nat, b: nat, c: nat, d: nat)
    ensures var q := Quad(a, b, c, d);
      q != "" && IsDigit(q[0]) && IsDigit(q[|q| - 1]) && forall ch :: ch in q ==> IsDigit(ch) || ch == '.'
  {
    hide Decimal;
    DecimalIsTight(a);
    DecimalIsTight(b);
    DecimalIsTight(c);
    DecimalIsTight(d);
    var (pa, pb, pc, pd) := (Decimal(a), Decimal(b), Decimal(c), Decimal(d));
    var q := Quad(a, b, c, d);
    assert q[0] == pa[0] && q[|q| - 1] == pd[|pd| - 1];
    assert pa[0] in pa && pd[|pd| - 1] in pd;
  }

  lemma DigitsAreTight(c: char)
    requires IsDigit(c)
    ensures !IsSpace(c) && c != '/' && c != '.'
  {
  }

  /** An entry without a slash is one address: it allows exactly that address, with or without spaces around it. */
  lemma AddressEntry(ip: string, entry: string, number: ToInteger)
    requires '/' !in entry
    ensures Allowed(ip, [entry], number) <==> Trim(entry) != "" && ip == Trim(entry)
  {
    hide Trim, MatchesCidr;
    TrimKeepsOut(entry, '/');
    NoneOfChar(Trim(entry), '/');
    var list := [entry];
    assert EntryMatches(ip, list[0], number) <==> Trim(entry) != "" && ip == Trim(entry);
  }

  lemma TrimKeepsOut(s: string, c: char)
    requires c !in s
    ensures c !in Trim(s)
  {
    hide TrimStart, TrimEnd;
    assert forall d :: d in TrimStart(s) ==> d in s;
    assert forall d :: d in TrimEnd(TrimStart(s)) ==> d in TrimStart(s);
  }

  /**
   * An entry `a.b.c.d/bits`, as it is written, allows exactly the addresses whose
   * numbers agree with it after division by 2^(32 - bits).
   */
  lemma RangeEntry(v: bv32, w: bv32, bits: nat, number: ToInteger)
    requires bits <= 32 && number(Decimal(bits)) == Some(bits)
    ensures Allowed(Print(w), [Print(v) + "/" + Decimal(bits)], number) <==>
      ToNat(w) / Pow2(32 - bits) == ToNat(v) / Pow2(32 - bits)
  {
    hide Print, Decimal, ToNat, Ipv4ToInt, SamePrefix, Trim, Split, Includes;
    var entry := Print(v) + "/" + Decimal(bits);
    RangeIsWritten(v, bits);
    ParseInvertsPrint(v);
    ParseInvertsPrint(w);
    PrefixIsQuotient(w, v, bits);
    assert MatchesCidr(Print(w), entry, number) <==> SamePrefix(w, v, bits);
    var list := [entry];
    assert EntryMatches(Print(w), list[0], number) <==> SamePrefix(w, v, bits);
  }

  lemma RangeIsWritten(v: bv32, bits: nat)
    ensures var entry := Print(v) + "/" + Decimal(bits);
      Trim(entry) == entry && entry != "" && Includes(entry, "/") && Split(entry, "/") == [Print(v), Decimal(bits)] &&
      Print(v) != ""
  {
    hide Decimal, ToNat, Quad, Trim, Split, Includes;
    var n := ToNat(v);
    QuadChars(n / 0x100_0000, n / 0x1_0000 % 256, n / 256 % 256, n % 256);
    DecimalIsTight(bits);
    var (q, d) := (Print(v), Decimal(bits));
    forall c | c in q + d ensures c != '/' {
      if IsDigit(c) { DigitsAreTight(c); }
    }
    var entry := q + "/" + d;
    assert d[|d| - 1] in d;
    DigitsAreTight(q[0]);
    DigitsAreTight(d[|d| - 1]);
    assert entry[0] == q[0] && entry[|entry| - 1] == d[|d| - 1];
    TrimOfTight(entry);
    assert forall c :: c in q ==> c in q + d;
    assert forall c :: c in d ==> c in q + d;
    SplitOnChar(q, '/', d);
    NoneOfChar(d, '/');
  }

  // -------------------------------------------------------------- what is an address

  /** One to three digits with a value of at most 255. */
  predicate IsOctet(part: string) {
    1 <= |part| <= 3 && AllDigits(part) && DecimalValue(part) <= 255
  }

  /** Four such numbers with dots between them. */
  predicate IsDotted(ip: string, a: string, b: string, c: string, d: string) {
    IsOctet(a) && IsOctet(b) && IsOctet(c) && IsOctet(d) && ip == a + "." + (b + "." + (c + "." + d))
  }

  lemma OctetHasNoDot(part: string)
    requires IsOctet(part)
    ensures '.' !in part && Octet(part) == Some(DecimalValue(part) as bv8)
  {
    hide DecimalValue;
  }

  /** Every such text is read as its number. */
  lemma DottedIsRead(ip: string, a: string, b: string, c: string, d: string)
    requires IsDotted(ip, a, b, c, d)
    ensures Ipv4ToInt(ip).Some?
    ensures ToNat(Ipv4ToInt(ip).value)
         == 256 * (256 * (256 * DecimalValue(a) + DecimalValue(b)) + DecimalValue(c)) + DecimalValue(d)
  {
    hide Octet, DecimalValue, PushByte, Split, ToNat;
    OctetHasNoDot(a);
    OctetHasNoDot(b);
    OctetHasNoDot(c);
    OctetHasNoDot(d);
    SplitOnDot(a, b + "." + (c + "." + d));
    SplitOnDot(b, c + "." + d);
    SplitOnDot(c, d);
    NoDot(d);
    var parts := [a] + ([b] + ([c] + [d]));
    assert Split(ip, ".") == parts == [a, b, c, d];
    var (va, vb, vc, vd) := (DecimalValue(a), DecimalValue(b), DecimalValue(c), DecimalValue(d));
    ParseFour(a, b, c, d, va as bv8, vb as bv8, vc as bv8, vd as bv8);
    QuadNumber(va, vb, vc, vd);
  }

  /** And nothing else is read: an address is four decimal numbers of one to three digits up to 255. */
  lemma OnlyDottedIsRead(ip: string) returns (a: string, b: string, c: string, d: string)
    requires Ipv4ToInt(ip).Some?
    ensures IsDotted(ip, a, b, c, d)
  {
    hide Split, Join, DecimalValue, PushByte;
    var parts := Split(ip, ".");
    a, b, c, d := parts[0], parts[1], parts[2], parts[3];
    FourAreOctets(parts);
    JoinSplit(ip, ".");
    assert parts == [a, b, c, d];
    JoinFour(a, b, c, d);
  }

  lemma FourAreOctets(parts: seq<string>)
    requires |parts| == 4 && ParseOctets(parts, 0).Some?
    ensures forall p :: p in parts ==> IsOctet(p)
  {
    AllAreOctets(parts, 0);
  }

  lemma {:induction false} AllAreOctets(parts: seq<string>, value: bv32)
    requires ParseOctets(parts, value).Some?
    ensures forall p :: p in parts ==> IsOctet(p)
    decreases |parts|
  {
    hide PushByte, DecimalValue;
    if parts != [] {
      AllAreOctets(parts[1..], PushByte(value, Octet(parts[0]).value));
      assert forall p :: p in parts ==> p == parts[0] || p in parts[1..];
    }
  }

  lemma JoinFour(a: string, b: string, c: string, d: string)
    ensures Join([a, b, c, d], ".") == a + "." + (b + "." + (c + "." + d))
  {
    hide Join;
    JoinTwo(c, [d]);
    JoinTwo(b, [c, d]);
    JoinTwo(a, [b, c, d]);
    assert Join([d], ".") == d by { JoinOne(d); }
    assert [c] + [d] == [c, d] && [b] + [c, d] == [b, c, d] && [a] + [b, c, d] == [a, b, c, d];
    assert c + "." + d == c + ("." + d);
  }

  lemma JoinOne(p: string)
    ensures Join([p], ".") == p
  {
  }

  lemma JoinTwo(p: string, rest: seq<string>)
    requires rest != []
    ensures Join([p] + rest, ".") == p + "." + Join(rest, ".")
  {
    assert ([p] + rest)[1..] == rest;
  }
}
