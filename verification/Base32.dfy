/** Base32 without padding (RFC 4648 section 6), over a 32-bit accumulator that is never masked. */
module Base32 {
  import opened Text
  import opened Bits

  const ALPHABET := "ABCDEFGHIJKLMNOPQRSTUVWXYZ234567"

  // ------------------------------------------------------- reference definition

  /** All digits of a byte string, most significant first. */
  function BitsOf(bytes: seq<bv8>): seq<bool> {
    if bytes == [] then [] else ByteBits(bytes[0]) + BitsOf(bytes[1..])
  }

  function Symbol(quintet: seq<bool>): char
    requires |quintet| == 5
  {
    NumBound(quintet);
    assert Pow2(5) == 32;
    ALPHABET[Num(quintet)]
  }

  /** One symbol per five digits, the last group filled up with zeros. */
  function EncodeBits(bits: seq<bool>): string
    decreases |bits|
  {
    if bits == [] then ""
    else if |bits| < 5 then [Symbol(bits + Zeros(5 - |bits|))]
    else [Symbol(bits[..5])] + EncodeBits(bits[5..])
  }

  function Encode(bytes: seq<bv8>): string {
    EncodeBits(BitsOf(bytes))
  }

  function SymbolIndex(c: char, from: nat): (r: Option<nat>)
    requires from <= |ALPHABET|
    ensures r.Some? ==> from <= r.value < |ALPHABET| && ALPHABET[r.value] == c
    decreases |ALPHABET| - from
  {
    if from == |ALPHABET| then None
    else if ALPHABET[from] == c then Some(from)
    else SymbolIndex(c, from + 1)
  }

  predicate IsSymbol(c: char) {
    SymbolIndex(c, 0).Some?
  }

  function SymbolBits(c: char): seq<bool>
    requires IsSymbol(c)
  {
    LowBits(IndexWord(SymbolIndex(c, 0).value), 5)
  }

  function IndexWord(i: nat): bv32
    requires i < 32
  {
    i as bv32
  }

  function TextBits(s: string): seq<bool>
    requires forall c :: c in s ==> IsSymbol(c)
  {
    if s == "" then [] else SymbolBits(s[0]) + TextBits(s[1..])
  }

  /** The whole octets of a digit string; a remainder of fewer than eight digits is dropped. */
  function Octets(bits: seq<bool>): seq<bv8>
    decreases |bits|
  {
    if |bits| < 8 then [] else [ByteFrom(bits[..8])] + Octets(bits[8..])
  }

  function StripPadding(s: string): string {
    if s != "" && s[|s| - 1] == '=' then StripPadding(s[..|s| - 1]) else s
  }

  function Upper(c: char): char {
    if 'a' <= c <= 'z' then c - 'a' + 'A' else c
  }

  function UpperCase(s: string): string {
    if s == "" then "" else [Upper(s[0])] + UpperCase(s[1..])
  }

  function Clean(input: string): string {
    Filter(UpperCase(StripPadding(input)), (c: char) => !IsSpace(c))
  }

  const INVALID := "Invalid base32 character"

  function Decode(input: string): Result<seq<bv8>, string> {
    var clean := Clean(input);
    if forall c :: c in clean ==> IsSymbol(c) then Ok(Octets(TextBits(clean))) else Err(INVALID)
  }

  // ------------------------------------------------------------- the algorithms

  method EncodeLoop(buffer: seq<bv8>) returns (output: string)
    ensures output == Encode(buffer)
  {
    hide *;
    var bits: nat, value: bv32 := 0, 0;
    output := "";
    assert buffer[0..] == buffer;
    EncodeStart(buffer);
    for k := 0 to |buffer|
      invariant bits < 5
      invariant Encode(buffer) == output + EncodeBits(LowBits(value, bits) + BitsOf(buffer[k..]))
    {
      var byte := buffer[k];
      ghost var rest := BitsOf(buffer[k + 1..]);
      NextByte(value, bits, buffer, k);
      value := PushByte(value, byte);
      bits := bits + 8;
      while bits >= 5
        invariant bits <= 12
        invariant Encode(buffer) == output + EncodeBits(LowBits(value, bits) + rest)
      {
        NextSymbol(value, bits, rest);
        ToNatOfQuintet(UShr(value, bits - 5));
        AlphabetSize();
        var symbol := ALPHABET[ToNat(UShr(value, bits - 5) & 31)];
        Assoc(output, [symbol], EncodeBits(LowBits(value, bits - 5) + rest));
        output := output + [symbol];
        bits := bits - 5;
      }
    }
    EncodeEnd(value, bits, buffer);
    if bits > 0 {
      ToNatOfQuintet(Shl(value, 5 - bits));
      AlphabetSize();
      output := output + [ALPHABET[ToNat(Shl(value, 5 - bits) & 31)]];
    }
  }

  lemma AlphabetSize()
    ensures |ALPHABET| == 32
  {
  }

  lemma EncodeStart(buffer: seq<bv8>)
    ensures Encode(buffer) == "" + EncodeBits(LowBits(0, 0) + BitsOf(buffer))
  {
    assert LowBits(0, 0) + BitsOf(buffer) == BitsOf(buffer);
  }

  lemma NextByte(value: bv32, bits: nat, buffer: seq<bv8>, k: nat)
    requires bits < 5 && k < |buffer|
    ensures LowBits(value, bits) + BitsOf(buffer[k..])
         == LowBits(PushByte(value, buffer[k]), bits + 8) + BitsOf(buffer[k + 1..])
  {
    hide LowBits, PushByte, ByteBits;
    assert buffer[k..][1..] == buffer[k + 1..];
    PushByteBits(value, buffer[k], bits);
    Assoc(LowBits(value, bits), ByteBits(buffer[k]), BitsOf(buffer[k + 1..]));
  }

  lemma NextSymbol(value: bv32, bits: nat, rest: seq<bool>)
    requires 5 <= bits <= 12
    ensures ToNat(UShr(value, bits - 5) & 31) < |ALPHABET|
    ensures EncodeBits(LowBits(value, bits) + rest)
         == [ALPHABET[ToNat(UShr(value, bits - 5) & 31)]] + EncodeBits(LowBits(value, bits - 5) + rest)
  {
    hide LowBits, Num;
    LowBitsSplit(value, 5, bits - 5);
    var w := UShr(value, bits - 5);
    ToNatOfQuintet(w);
    var all := LowBits(value, bits) + rest;
    assert all[..5] == LowBits(w, 5);
    assert all[5..] == LowBits(value, bits - 5) + rest;
  }

  lemma EncodeEnd(value: bv32, bits: nat, buffer: seq<bv8>)
    requires bits < 5
    ensures ToNat(Shl(value, 5 - bits) & 31) < |ALPHABET|
    ensures EncodeBits(LowBits(value, bits) + BitsOf(buffer[|buffer|..]))
         == if bits == 0 then "" else [ALPHABET[ToNat(Shl(value, 5 - bits) & 31)]]
  {
    hide LowBits, Num;
    assert LowBits(value, bits) + BitsOf(buffer[|buffer|..]) == LowBits(value, bits);
    LowBitsShl(value, bits, 5 - bits);
    ToNatOfQuintet(Shl(value, 5 - bits));
  }

  predicate AllSymbols(s: string) {
    forall c :: c in s ==> IsSymbol(c)
  }

  method DecodeLoop(input: string) returns (r: Result<seq<bv8>, string>)
    ensures r == Decode(input)
  {
    hide *;
    var clean := Clean(input);
    var bits: nat, value: bv32 := 0, 0;
    var bytes: seq<bv8> := [];
    DecodeStart(clean);
    for k := 0 to |clean|
      invariant bits < 8
      invariant AllSymbols(clean[..k]) && ReadSoFar(clean[..k], bytes, value, bits)
    {
      var idx := SymbolIndex(clean[k], 0);
      if idx.None? {
        DecodeRejects(input, k);
        return Err(INVALID);
      }
      assert clean[..k + 1] == clean[..k] + [clean[k]];
      NextQuintet(clean[..k], clean[k], bytes, value, bits);
      value := PushQuintet(value, IndexWord(idx.value));
      bits := bits + 5;
      if bits >= 8 {
        NextOctet(clean[..k + 1], bytes, value, bits);
        bytes := bytes + [(UShr(value, bits - 8) & 0xFF) as bv8];
        bits := bits - 8;
      }
    }
    assert clean[..|clean|] == clean;
    DecodeEnd(input, bytes, value, bits);
    r := Ok(bytes);
  }

  /** The digits of the symbols read are the bytes written plus the live digits of the accumulator. */
  ghost predicate ReadSoFar(s: string, bytes: seq<bv8>, value: bv32, bits: nat)
    requires AllSymbols(s)
  {
    TextBits(s) == BitsOf(bytes) + LowBits(value, bits)
  }

  lemma DecodeStart(clean: string)
    ensures AllSymbols(clean[..0]) && ReadSoFar(clean[..0], [], 0, 0)
  {
  }

  lemma {:induction false} TextBitsSnoc(s: string, c: char)
    requires AllSymbols(s) && IsSymbol(c)
    ensures AllSymbols(s + [c]) && TextBits(s + [c]) == TextBits(s) + SymbolBits(c)
  {
    hide SymbolBits, IsSymbol;
    if s == "" {
      assert "" + [c] == [c] && [c][1..] == "";
      assert SymbolBits(c) + TextBits("") == TextBits("") + SymbolBits(c);
    } else {
      TextBitsSnoc(s[1..], c);
      assert (s + [c])[1..] == s[1..] + [c];
      Assoc(SymbolBits(s[0]), TextBits(s[1..]), SymbolBits(c));
    }
  }

  lemma {:induction false} BitsOfSnoc(bytes: seq<bv8>, b: bv8)
    ensures BitsOf(bytes + [b]) == BitsOf(bytes) + ByteBits(b)
  {
    hide ByteBits;
    if bytes == [] {
      assert [b][1..] == [];
      assert ByteBits(b) + [] == [] + ByteBits(b);
      assert bytes + [b] == [b];
    } else {
      BitsOfSnoc(bytes[1..], b);
      assert (bytes + [b])[1..] == bytes[1..] + [b];
      Assoc(ByteBits(bytes[0]), BitsOf(bytes[1..]), ByteBits(b));
    }
  }

  lemma NextQuintet(s: string, c: char, bytes: seq<bv8>, value: bv32, bits: nat)
    requires bits < 8 && SymbolIndex(c, 0).Some? && AllSymbols(s) && ReadSoFar(s, bytes, value, bits)
    ensures AllSymbols(s + [c])
    ensures SymbolIndex(c, 0).value < 32
    ensures ReadSoFar(s + [c], bytes, PushQuintet(value, IndexWord(SymbolIndex(c, 0).value)), bits + 5)
  {
    hide LowBits, TextBits, IndexWord, PushQuintet;
    var i := SymbolIndex(c, 0).value;
    var q := IndexWord(i);
    hide SymbolIndex;
    TextBitsSnoc(s, c);
    IndexWordSmall(i);
    PushQuintetBits(value, q, bits);
    Assoc(BitsOf(bytes), LowBits(value, bits), SymbolBits(c));
  }

  lemma IndexWordSmall(i: nat)
    requires i < 32
    ensures IndexWord(i) < 32
  {
  }

  lemma NextOctet(s: string, bytes: seq<bv8>, value: bv32, bits: nat)
    requires 8 <= bits <= 12 && AllSymbols(s) && ReadSoFar(s, bytes, value, bits)
    ensures ReadSoFar(s, bytes + [(UShr(value, bits - 8) & 0xFF) as bv8], value, bits - 8)
  {
    hide LowBits, UShr, BitsOf, ByteBits;
    var byte := (UShr(value, bits - 8) & 0xFF) as bv8;
    LowBitsSplit(value, 8, bits - 8);
    ByteOfWord(UShr(value, bits - 8));
    BitsOfSnoc(bytes, byte);
    Assoc(BitsOf(bytes), ByteBits(byte), LowBits(value, bits - 8));
  }

  lemma DecodeRejects(input: string, k: nat)
    requires k < |Clean(input)| && SymbolIndex(Clean(input)[k], 0).None?
    ensures Decode(input) == Err(INVALID)
  {
    hide Clean, SymbolIndex;
    assert Clean(input)[k] in Clean(input);
  }

  lemma DecodeEnd(input: string, bytes: seq<bv8>, value: bv32, bits: nat)
    requires bits < 8 && AllSymbols(Clean(input)) && ReadSoFar(Clean(input), bytes, value, bits)
    ensures Decode(input) == Ok(bytes)
  {
    hide Clean, IsSymbol, LowBits;
    OctetsOfBits(bytes, LowBits(value, bits));
  }

  // ------------------------------------------------------------------ round trip

  lemma {:induction false} BitsOfLength(bytes: seq<bv8>)
    ensures |BitsOf(bytes)| == 8 * |bytes|
  {
    if bytes != [] { BitsOfLength(bytes[1..]); }
  }

  lemma {:induction false} EncodeLength(bits: seq<bool>)
    ensures |EncodeBits(bits)| == (|bits| + 4) / 5
    decreases |bits|
  {
    if |bits| >= 5 { EncodeLength(bits[5..]); }
  }

  /** The encoding of n bytes has ceil(8n/5) symbols. */
  lemma EncodedLength(bytes: seq<bv8>)
    ensures |Encode(bytes)| == (8 * |bytes| + 4) / 5
  {
    BitsOfLength(bytes);
    EncodeLength(BitsOf(bytes));
  }

  /** Position 0..31 is where its own symbol is found. */
  lemma {:induction false} SymbolIndexIs(i: nat, from: nat)
    requires from <= i < 32
    ensures SymbolIndex(ALPHABET[i], from) == Some(i)
    decreases i - from
  {
    if from < i {
      SymbolsDistinct(from, i);
      SymbolIndexIs(i, from + 1);
    }
  }

  lemma SymbolsDistinct(i: nat, j: nat)
    requires i < j < 32
    ensures ALPHABET[i] != ALPHABET[j]
  {
    LetterOrDigit(i);
    LetterOrDigit(j);
  }

  lemma LetterOrDigit(i: nat)
    requires i < 32
    ensures ALPHABET[i] as int == if i < 26 then 65 + i else 24 + i
  {
  }

  lemma SymbolRoundTrip(quintet: seq<bool>)
    requires |quintet| == 5
    ensures IsSymbol(Symbol(quintet)) && SymbolBits(Symbol(quintet)) == quintet
  {
    var i := Num(quintet);
    NumBound(quintet);
    assert Pow2(5) == 32;
    SymbolIndexIs(i, 0);
    SmallNumber(i, 5);
    NumInjective(LowBits(IndexWord(i), 5), quintet);
  }

  lemma {:induction false} EncodeBitsIsSymbols(bits: seq<bool>)
    ensures AllSymbols(EncodeBits(bits))
    decreases |bits|
  {
    hide SymbolIndex;
    if bits == [] {
    } else if |bits| < 5 {
      SymbolRoundTrip(bits + Zeros(5 - |bits|));
    } else {
      SymbolRoundTrip(bits[..5]);
      EncodeBitsIsSymbols(bits[5..]);
    }
  }

  function Padding(n: nat): nat {
    (5 - n % 5) % 5
  }

  /** Decoding symbols to digits undoes encoding, up to the zeros that filled the last group. */
  lemma {:induction false} TextBitsOfEncodeBits(bits: seq<bool>)
    ensures AllSymbols(EncodeBits(bits))
    ensures TextBits(EncodeBits(bits)) == bits + Zeros(Padding(|bits|))
    decreases |bits|
  {
    EncodeBitsIsSymbols(bits);
    hide SymbolIndex, IsSymbol, Symbol, SymbolBits;
    if bits == [] {
    } else if |bits| < 5 {
      var q := bits + Zeros(5 - |bits|);
      SymbolRoundTrip(q);
      assert EncodeBits(bits)[1..] == "";
      assert q + [] == q;
    } else {
      SymbolRoundTrip(bits[..5]);
      TextBitsOfEncodeBits(bits[5..]);
      assert EncodeBits(bits)[1..] == EncodeBits(bits[5..]);
      assert Padding(|bits|) == Padding(|bits[5..]|);
      assert bits == bits[..5] + bits[5..];
      Assoc(bits[..5], bits[5..], Zeros(Padding(|bits|)));
    }
  }

  lemma {:induction false} OctetsOfBits(bytes: seq<bv8>, pad: seq<bool>)
    requires |pad| < 8
    ensures Octets(BitsOf(bytes) + pad) == bytes
  {
    hide ByteBits, ByteFrom;
    if bytes != [] {
      var all := BitsOf(bytes) + pad;
      assert |ByteBits(bytes[0])| == 8 by { ByteBitsLength(bytes[0]); }
      assert all[..8] == ByteBits(bytes[0]);
      assert all[8..] == BitsOf(bytes[1..]) + pad;
      ByteFromByteBits(bytes[0]);
      OctetsOfBits(bytes[1..], pad);
    }
  }

  lemma ByteBitsLength(b: bv8)
    ensures |ByteBits(b)| == 8
  {
  }

  lemma SymbolIsClean(c: char)
    requires IsSymbol(c)
    ensures Upper(c) == c && !IsSpace(c) && c != '='
  {
    LetterOrDigit(SymbolIndex(c, 0).value);
  }

  lemma {:induction false} UpperOfSymbols(s: string)
    requires AllSymbols(s)
    ensures UpperCase(s) == s
  {
    hide SymbolIndex, Upper;
    if s != "" {
      SymbolIsClean(s[0]);
      UpperOfSymbols(s[1..]);
    }
  }

  /** Cleaning leaves a string of symbols alone. */
  lemma CleanOfSymbols(s: string)
    requires AllSymbols(s)
    ensures Clean(s) == s
  {
    UpperOfSymbols(s);
    forall c | c in s ensures !IsSpace(c) && c != '=' { SymbolIsClean(c); }
    FilterAll(s, (c: char) => !IsSpace(c));
    assert s != "" ==> s[|s| - 1] in s;
  }

  /** `base32Decode` inverts `base32Encode` on every byte string. */
  lemma RoundTrip(bytes: seq<bv8>)
    ensures Decode(Encode(bytes)) == Ok(bytes)
  {
    var bits := BitsOf(bytes);
    TextBitsOfEncodeBits(bits);
    CleanOfSymbols(Encode(bytes));
    OctetsOfBits(bytes, Zeros(Padding(|bits|)));
  }

  /** `typed` is the text `s` as people write it: in either case and with white space in it. */
  predicate Typed(typed: string, s: string) {
    if typed == "" then s == ""
    else if IsSpace(typed[0]) then Typed(typed[1..], s)
    else s != "" && (typed[0] == s[0] || ('A' <= s[0] <= 'Z' && typed[0] as int == s[0] as int + 32)) && Typed(typed[1..], s[1..])
  }

  lemma {:induction false} TypedIsClean(typed: string, s: string)
    requires Typed(typed, s) && AllSymbols(s)
    ensures '=' !in typed
    ensures Filter(UpperCase(typed), (c: char) => !IsSpace(c)) == s
  {
    hide SymbolIndex;
    if typed != "" {
      var c := typed[0];
      if IsSpace(c) {
        TypedIsClean(typed[1..], s);
        SpaceHasNoCase(c);
      } else {
        assert s[0] in s;
        SymbolIsClean(s[0]);
        TypedIsClean(typed[1..], s[1..]);
        assert Upper(c) == s[0];
      }
    }
  }

  lemma SpaceHasNoCase(c: char)
    requires IsSpace(c)
    ensures Upper(c) == c && c != '='
  {
  }

  lemma {:induction false} PaddingIsStripped(s: string, n: nat)
    requires s == "" || s[|s| - 1] != '='
    ensures StripPadding(s + seq(n, i => '=')) == s
  {
    var pads := seq(n, i => '=');
    if n == 0 {
      assert s + pads == s;
    } else {
      PaddingIsStripped(s, n - 1);
      assert (s + pads)[..|s + pads| - 1] == s + seq(n - 1, i => '=');
    }
  }

  /** A secret is read back however it was typed: in lower case, in groups, and padded. */
  lemma TypedSecretDecodes(bytes: seq<bv8>, typed: string, padding: nat)
    requires Typed(typed, Encode(bytes))
    ensures Decode(typed + seq(padding, i => '=')) == Ok(bytes)
  {
    var s, input := Encode(bytes), typed + seq(padding, i => '=');
    TextBitsOfEncodeBits(BitsOf(bytes));
    hide SymbolIndex, IsSymbol, Typed, Octets, TextBits, StripPadding, Filter, Encode, UpperCase;
    TypedIsClean(typed, s);
    assert typed != "" ==> typed[|typed| - 1] in typed;
    PaddingIsStripped(typed, padding);
    CleanOfSymbols(s);
    assert Clean(input) == s == Clean(s);
    RoundTrip(bytes);
  }
}
