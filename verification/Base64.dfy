/** Base64 (section 4 of RFC 4648): the decoder's bit buffer against bit strings. */
module Base64 {
  import opened ByteStrings

  const PAD: Byte := 61

  // ----- the alphabet -----

  function Symbol(value: nat): Byte
    requires value < 64
  {
    if value < 26 then 65 + value
    else if value < 52 then 97 + (value - 26)
    else if value < 62 then 48 + (value - 52)
    else if value == 62 then 43
    else 47
  }

  /** The position of a symbol in the alphabet. */
  function Position(symbol: Byte): (r: Option<nat>)
    ensures r.Some? ==> r.value < 64 && Symbol(r.value) == symbol
    ensures r.None? ==> forall v :: 0 <= v < 64 ==> Symbol(v) != symbol
  {
    if 65 <= symbol <= 90 then Some(symbol - 65)
    else if 97 <= symbol <= 122 then Some(symbol - 97 + 26)
    else if 48 <= symbol <= 57 then Some(symbol - 48 + 52)
    else if symbol == 43 then Some(62)
    else if symbol == 47 then Some(63)
    else None
  }

  /** Table 1 of RFC 4648. */
  lemma SymbolsAreTable(v: nat)
    requires v < 64
    ensures v < 26 ==> Symbol(v) == "ABCDEFGHIJKLMNOPQRSTUVWXYZ"[v] as nat
    ensures 26 <= v < 52 ==> Symbol(v) == "abcdefghijklmnopqrstuvwxyz"[v - 26] as nat
    ensures 52 <= v ==> Symbol(v) == "0123456789+/"[v - 52] as nat
  {
  }

  // ----- bit strings -----

  type Bits = seq<bool>

  function Pow2(n: nat): (p: nat)
    ensures p > 0
  {
    if n == 0 then 1 else 2 * Pow2(n - 1)
  }

  /** The low `width` bits of `n`, most significant first. */
  function BitsOf(n: nat, width: nat): (b: Bits)
    ensures |b| == width
  {
    if width == 0 then [] else BitsOf(n / 2, width - 1) + [n % 2 == 1]
  }

  function ValueOf(b: Bits): (n: nat)
    ensures n < Pow2(|b|)
  {
    if b == [] then 0 else 2 * ValueOf(b[..|b| - 1]) + if b[|b| - 1] then 1 else 0
  }

  lemma {:induction false} ValueOfBitsOf(n: nat, width: nat)
    requires n < Pow2(width)
    ensures ValueOf(BitsOf(n, width)) == n
  {
    if width > 0 {
      ValueOfBitsOf(n / 2, width - 1);
      assert BitsOf(n, width)[..width - 1] == BitsOf(n / 2, width - 1);
    }
  }

  lemma {:induction false} BitsOfValueOf(b: Bits)
    ensures BitsOf(ValueOf(b), |b|) == b
  {
    if b != [] {
      BitsOfValueOf(b[..|b| - 1]);
      assert b == b[..|b| - 1] + [b[|b| - 1]];
    }
  }

  lemma Powers()
    ensures Pow2(6) == 64 && Pow2(7) == 128 && Pow2(8) == 256
  {
    assert Pow2(4) == 16;
  }

  /** `n << bits`. */
  function ShiftLeft(n: nat, bits: nat): nat {
    if bits == 0 then n else 2 * ShiftLeft(n, bits - 1)
  }

  /** `n >> bits`. */
  function ShiftRight(n: nat, bits: nat): nat {
    if bits == 0 then n else ShiftRight(n / 2, bits - 1)
  }

  /** `n & ((1 << bits) - 1)`. */
  function LowBits(n: nat, bits: nat): nat {
    if bits == 0 then 0 else 2 * LowBits(n / 2, bits - 1) + n % 2
  }

  lemma ShiftBySix(n: nat)
    ensures ShiftLeft(n, 6) == 64 * n
  {
    assert ShiftLeft(n, 1) == 2 * n;
    assert ShiftLeft(n, 2) == 2 * ShiftLeft(n, 1);
    assert ShiftLeft(n, 3) == 2 * ShiftLeft(n, 2);
    assert ShiftLeft(n, 4) == 2 * ShiftLeft(n, 3);
    assert ShiftLeft(n, 5) == 2 * ShiftLeft(n, 4);
  }

  lemma {:induction false} ValueOfConcat(a: Bits, b: Bits)
    ensures ValueOf(a + b) == ShiftLeft(ValueOf(a), |b|) + ValueOf(b)
  {
    if b == [] {
      assert a + b == a;
    } else {
      var c, b' := a + b, b[..|b| - 1];
      assert c[..|c| - 1] == a + b' && c[|c| - 1] == b[|b| - 1];
      ValueOfConcat(a, b');
    }
  }

  /** Shifting and masking take a bit string apart. */
  lemma {:induction false} ShiftsSplit(b: Bits, bits: nat)
    requires bits <= |b|
    ensures ShiftRight(ValueOf(b), bits) == ValueOf(b[..|b| - bits])
    ensures LowBits(ValueOf(b), bits) == ValueOf(b[|b| - bits..])
  {
    if bits == 0 {
      assert b[..|b|] == b;
    } else {
      var init := b[..|b| - 1];
      assert ValueOf(b) / 2 == ValueOf(init);
      ShiftsSplit(init, bits - 1);
      assert init[..|init| - (bits - 1)] == b[..|b| - bits];
      var low := b[|b| - bits..];
      assert low[..|low| - 1] == init[|init| - (bits - 1)..] && low[|low| - 1] == b[|b| - 1];
    }
  }

  // ----- groups of bits -----

  function SextetBits(values: seq<nat>): Bits {
    if values == [] then [] else SextetBits(values[..|values| - 1]) + BitsOf(values[|values| - 1], 6)
  }

  function OctetBits(bytes: Bytes): Bits {
    if bytes == [] then [] else OctetBits(bytes[..|bytes| - 1]) + BitsOf(bytes[|bytes| - 1], 8)
  }

  lemma {:induction false} SextetBitsLength(values: seq<nat>)
    ensures |SextetBits(values)| == 6 * |values|
  {
    if values != [] { SextetBitsLength(values[..|values| - 1]); }
  }

  lemma {:induction false} OctetBitsLength(bytes: Bytes)
    ensures |OctetBits(bytes)| == 8 * |bytes|
  {
    if bytes != [] { OctetBitsLength(bytes[..|bytes| - 1]); }
  }

  /** Bytes are determined by their bits, even with fewer than eight bits to spare. */
  lemma {:induction false} OctetBitsInjective(a: Bytes, s: Bits, b: Bytes, t: Bits)
    requires OctetBits(a) + s == OctetBits(b) + t && |s| < 8 && |t| < 8
    ensures a == b && s == t
  {
    OctetBitsLength(a);
    OctetBitsLength(b);
    assert |a| == |b|;
    assert OctetBits(a) == (OctetBits(a) + s)[..8 * |a|] == (OctetBits(b) + t)[..8 * |a|] == OctetBits(b);
    assert s == (OctetBits(a) + s)[8 * |a|..] == (OctetBits(b) + t)[8 * |a|..] == t;
    if a != [] {
      var a', b' := a[..|a| - 1], b[..|b| - 1];
      OctetBitsLength(a');
      OctetBitsLength(b');
      var n := 8 * |a'|;
      assert OctetBits(a)[..n] == OctetBits(a') && OctetBits(b)[..n] == OctetBits(b');
      assert OctetBits(a)[n..] == BitsOf(a[|a| - 1], 8) && OctetBits(b)[n..] == BitsOf(b[|b| - 1], 8);
      Powers();
      ValueOfBitsOf(a[|a| - 1], 8);
      ValueOfBitsOf(b[|b| - 1], 8);
      assert OctetBits(a') + [] == OctetBits(b') + [];
      OctetBitsInjective(a', [], b', []);
      assert a == a' + [a[|a| - 1]] && b == b' + [b[|b| - 1]];
    }
  }

  // ----- decoding -----

  /** The alphabet positions of the symbols before the padding; None if one is foreign. */
  function Sextets(input: Bytes): Option<seq<nat>> {
    if input == [] || input[0] == PAD then Some([])
    else match Position(input[0])
      case None => None
      case Some(v) =>
        match Sextets(input[1..])
        case None => None
        case Some(rest) => Some([v] + rest)
  }

  /** `output` is what a decoder should give for these sextets: all their whole bytes. */
  ghost predicate Decodes(values: seq<nat>, output: Bytes) {
    |SextetBits(values)| >= 8 * |output| && |SextetBits(values)| - 8 * |output| < 8
    && OctetBits(output) <= SextetBits(values)
  }

  ghost predicate Foreign(input: Bytes, i: nat) {
    i < |input| && Position(input[i]).None? && PAD !in input[..i + 1]
  }

  /** The decoder's state after the sextets `values`: whole bytes out, fewer than eight bits
      pending, and the buffer is their value. */
  ghost predicate Pending(values: seq<nat>, output: Bytes, rest: Bits, buffer: nat, bits: nat) {
    && OctetBits(output) + rest == SextetBits(values)
    && |rest| == bits < 8
    && ValueOf(rest) == buffer
  }

  lemma PendingShift(values: seq<nat>, output: Bytes, rest: Bits, buffer: nat, bits: nat, v: nat)
    requires Pending(values, output, rest, buffer, bits) && v < 64
    ensures SextetBits(values + [v]) == OctetBits(output) + (rest + BitsOf(v, 6))
    ensures ValueOf(rest + BitsOf(v, 6)) == ShiftLeft(buffer, 6) + v == buffer * 64 + v < Pow2(bits + 6)
    ensures buffer < Pow2(bits) <= 128
  {
    hide Pow2, BitsOf, ValueOf, OctetBits;
    assert (values + [v])[..|values|] == values;
    Powers();
    ValueOfBitsOf(v, 6);
    ValueOfConcat(rest, BitsOf(v, 6));
    ShiftBySix(buffer);
    Pow2Grows(bits, 7);
    assert SextetBits(values + [v]) == SextetBits(values) + BitsOf(v, 6);
  }

  lemma {:induction false} Pow2Grows(a: nat, b: nat)
    requires a <= b
    ensures Pow2(a) <= Pow2(b)
    decreases b
  {
    if a < b { Pow2Grows(a, b - 1); }
  }

  /** Taking the top byte off the pending bits. */
  lemma PendingEmit(output: Bytes, pending: Bits)
    requires |pending| >= 8
    ensures var r := |pending| - 8;
            && ShiftRight(ValueOf(pending), r) < 256
            && OctetBits(output + [ShiftRight(ValueOf(pending), r)]) + pending[8..] == OctetBits(output) + pending
            && ValueOf(pending[8..]) == LowBits(ValueOf(pending), r)
  {
    hide Pow2, BitsOf, ValueOf, OctetBits, ShiftRight, LowBits;
    ShiftsSplit(pending, |pending| - 8);
    Powers();
    BitsOfValueOf(pending[..8]);
    OctetBitsPush(output, ValueOf(pending[..8]));
    assert pending == pending[..8] + pending[8..];
    Associative(OctetBits(output), pending[..8], pending[8..]);
  }

  lemma OctetBitsPush(bytes: Bytes, b: Byte)
    ensures OctetBits(bytes + [b]) == OctetBits(bytes) + BitsOf(b, 8)
  {
    assert (bytes + [b])[..|bytes|] == bytes;
  }

  method DecodeBase64(input: Bytes) returns (r: Option<Bytes>)
    ensures r.None? <==> exists i: nat :: Foreign(input, i)
    ensures r.Some? <==> Sextets(input).Some?
    ensures r.Some? ==> Decodes(Sextets(input).value, r.value)
    ensures r.Some? ==> |r.value| == 6 * |Sextets(input).value| / 8
  {
    hide BitsOf, ValueOf, SextetBits, OctetBits, Position, Pow2;
    hide Pending, Prepend, Decodes, ShiftLeft, ShiftRight, LowBits, Sextets;
    var output: Bytes := [];
    var buffer: nat, bits: nat := 0, 0;
    ghost var values: seq<nat>, rest: Bits := [], [];
    PendingNothing();
    SextetsFromStart(input);
    var i := 0;
    while i < |input|
      invariant 0 <= i <= |input|
      invariant Pending(values, output, rest, buffer, bits)
      invariant forall j :: 0 <= j < i ==> Position(input[j]).Some? && input[j] != PAD
      invariant Sextets(input) == Prepend(values, Sextets(input[i..]))
    {
      var byte := input[i];
      if byte == PAD { break; }
      var position := Position(byte);
      SextetsStep(input, i, values);
      if position.None? {
        assert Foreign(input, i);
        return None;
      }
      var value := position.value;
      PendingPush(values, output, rest, buffer, bits, value);
      assert ShiftLeft(buffer, 6) + value < 0x1_0000_0000;
      buffer := ShiftLeft(buffer, 6) + value;
      bits := bits + 6;
      rest := rest + BitsOf(value, 6);
      values := values + [value];
      if bits >= 8 {
        bits := bits - 8;
        output := output + [ShiftRight(buffer, bits)];
        buffer := LowBits(buffer, bits);
        rest := rest[8..];
      }
      i := i + 1;
    }
    NoForeign(input, i);
    SextetsEnd(input, i, values);
    PendingDecodes(values, output, rest, buffer, bits);
    r := Some(output);
  }

  /** One symbol: the buffer stays below 2^14, and one byte is emitted once eight bits are
      there. */
  lemma PendingPush(values: seq<nat>, output: Bytes, rest: Bits, buffer: nat, bits: nat, v: nat)
    requires Pending(values, output, rest, buffer, bits) && v < 64
    ensures var shifted, b := ShiftLeft(buffer, 6) + v, bits + 6;
            var pending := rest + BitsOf(v, 6);
            && shifted < 0x4000 && |pending| == b
            && if b < 8 then Pending(values + [v], output, pending, shifted, b)
               else ShiftRight(shifted, b - 8) < 256
                    && Pending(values + [v], output + [ShiftRight(shifted, b - 8)], pending[8..],
                               LowBits(shifted, b - 8), b - 8)
  {
    hide Pow2, BitsOf, ValueOf, OctetBits, SextetBits, ShiftRight, LowBits;
    PendingShift(values, output, rest, buffer, bits, v);
    if bits + 6 >= 8 { PendingEmit(output, rest + BitsOf(v, 6)); }
    assert OctetBits(output) + (rest + BitsOf(v, 6)) == SextetBits(values + [v]);
  }

  lemma SextetsFromStart(input: Bytes)
    ensures Sextets(input) == Prepend([], Sextets(input[0..]))
  {
    assert input[0..] == input;
    if Sextets(input).Some? { assert [] + Sextets(input).value == Sextets(input).value; }
  }

  lemma SextetsStep(input: Bytes, i: nat, values: seq<nat>)
    requires i < |input| && input[i] != PAD && Sextets(input) == Prepend(values, Sextets(input[i..]))
    ensures match Position(input[i])
            case None => Sextets(input).None?
            case Some(v) => Sextets(input) == Prepend(values + [v], Sextets(input[i + 1..]))
  {
    hide Position;
    assert input[i..][1..] == input[i + 1..];
    var position, rest := Position(input[i]), Sextets(input[i + 1..]);
    if position.Some? && rest.Some? {
      assert values + ([position.value] + rest.value) == values + [position.value] + rest.value;
    }
  }

  lemma SextetsEnd(input: Bytes, i: nat, values: seq<nat>)
    requires i <= |input| && (i < |input| ==> input[i] == PAD)
    requires Sextets(input) == Prepend(values, Sextets(input[i..]))
    ensures Sextets(input) == Some(values)
  {
    assert values + [] == values;
  }

  function Prepend(values: seq<nat>, rest: Option<seq<nat>>): Option<seq<nat>> {
    match rest
    case None => None
    case Some(tail) => Some(values + tail)
  }

  lemma PendingNothing()
    ensures Pending([], [], [], 0, 0)
  {
  }

  lemma NoForeign(input: Bytes, i: nat)
    requires i <= |input| && (i < |input| ==> input[i] == PAD)
    requires forall j :: 0 <= j < i ==> Position(input[j]).Some? && input[j] != PAD
    ensures forall k: nat :: !Foreign(input, k)
  {
    hide Position;
    forall k: nat ensures !Foreign(input, k) {
      if i < |input| && i < k < |input| { assert input[..k + 1][i] == PAD; }
      if i < |input| && k == i { assert input[..k + 1][i] == PAD; }
    }
  }

  lemma PendingDecodes(values: seq<nat>, output: Bytes, rest: Bits, buffer: nat, bits: nat)
    requires Pending(values, output, rest, buffer, bits)
    ensures Decodes(values, output) && |output| == 6 * |values| / 8
  {
    OctetBitsLength(output);
    SextetBitsLength(values);
  }

  // ----- encoding -----

  function Zeros(n: nat): Bits {
    seq(n, _ => false)
  }

  /** The symbols of a bit string of whole sextets. */
  function Symbols(b: Bits): (s: Bytes)
    requires |b| % 6 == 0
    ensures |s| == |b| / 6
    decreases |b|
  {
    if b == [] then []
    else
      Powers();
      [Symbol(ValueOf(b[..6]))] + Symbols(b[6..])
  }

  /** How much is missing to a whole number of sextets, or of groups of four symbols. */
  function ToSextets(length: nat): (n: nat)
    ensures n < 6 && (length + n) % 6 == 0
  {
    if length % 6 == 0 then 0 else 6 - length % 6
  }

  function ToQuartets(length: nat): (n: nat)
    ensures n < 4 && (length + n) % 4 == 0
  {
    if length % 4 == 0 then 0 else 4 - length % 4
  }

  /** Zero bits are added on the right to fill the last sextet; padding characters fill the
      last group of four symbols. */
  function Encode(bytes: Bytes, padded: bool): Bytes {
    var b := OctetBits(bytes);
    var symbols := Symbols(b + Zeros(ToSextets(|b|)));
    symbols + if padded then seq(ToQuartets(|symbols|), _ => PAD) else []
  }

  /** Padding is up to two `=`, which make the length a multiple of four. */
  lemma PaddingFills(bytes: Bytes)
    ensures |Encode(bytes, true)| % 4 == 0
    ensures var plain := Encode(bytes, false);
            Encode(bytes, true) in {plain, plain + Ascii("="), plain + Ascii("==")}
  {
    var b := OctetBits(bytes);
    OctetBitsLength(bytes);
    var padded := b + Zeros(ToSextets(|b|));
    var m := |Symbols(padded)|;
    assert 6 * m == 8 * |bytes| + ToSextets(|b|);
    NotOneOver(m, |bytes|, ToSextets(|b|));
    var n := ToQuartets(m);
    var pads := seq(n, _ => PAD);
    assert pads == [] || pads == Ascii("=") || pads == Ascii("==");
    assert Encode(bytes, false) == Symbols(padded);
  }

  lemma NotOneOver(m: nat, k: nat, z: nat)
    requires 6 * m == 8 * k + z && z < 6
    ensures m % 4 != 1
  {
    assert m == 4 * (m / 4) + m % 4;
    assert 24 * (m / 4) + 6 * (m % 4) == 8 * k + z;
  }

  lemma SymbolsAreNotPadding(v: nat)
    requires v < 64
    ensures Symbol(v) != PAD && Position(Symbol(v)) == Some(v)
  {
  }

  lemma {:induction false} SextetBitsPrepend(v: nat, values: seq<nat>)
    ensures SextetBits([v] + values) == BitsOf(v, 6) + SextetBits(values)
  {
    hide BitsOf;
    if values == [] {
      assert [v] + values == [v] && [v][..0] == [];
    } else {
      var init, last := values[..|values| - 1], values[|values| - 1];
      var all := [v] + values;
      SextetBitsPrepend(v, init);
      assert all[..|all| - 1] == [v] + init;
      Associative(BitsOf(v, 6), SextetBits(init), BitsOf(last, 6));
    }
  }

  lemma Associative(a: Bits, b: Bits, c: Bits)
    ensures (a + b) + c == a + (b + c)
  {
  }

  /** Reading the symbols back gives the same bits. */
  lemma {:induction false} SymbolsRead(b: Bits, padding: nat)
    requires |b| % 6 == 0
    ensures var values := Sextets(Symbols(b) + seq(padding, _ => PAD));
            values.Some? && SextetBits(values.value) == b
    decreases |b|
  {
    hide BitsOf, ValueOf, Symbol, Position;
    var pads := seq(padding, _ => PAD);
    if b == [] {
      assert [] + pads == pads;
    } else {
      SextetValue(b[..6]);
      var v := ValueOf(b[..6]);
      SymbolsAreNotPadding(v);
      SymbolsRead(b[6..], padding);
      var input := Symbols(b) + pads;
      assert input[0] == Symbol(v) && input[1..] == Symbols(b[6..]) + pads;
      SextetBitsPrepend(v, Sextets(input[1..]).value);
      assert b == b[..6] + b[6..];
    }
  }

  lemma SextetValue(b: Bits)
    requires |b| == 6
    ensures ValueOf(b) < 64 && BitsOf(ValueOf(b), 6) == b
  {
    Powers();
    BitsOfValueOf(b);
  }

  /** Decoding an encoding, padded or not, gives the bytes back and nothing else. */
  lemma DecodeInvertsEncode(bytes: Bytes, padded: bool, output: Bytes)
    ensures Sextets(Encode(bytes, padded)).Some?
    ensures Decodes(Sextets(Encode(bytes, padded)).value, output) <==> output == bytes
  {
    hide SextetBits, OctetBits, Sextets, Decodes, Encode;
    EncodeReads(bytes, padded);
    var all := SextetBits(Sextets(Encode(bytes, padded)).value);
    DecodesUnique(bytes, all, output, Sextets(Encode(bytes, padded)).value);
  }

  lemma EncodeReads(bytes: Bytes, padded: bool)
    ensures Sextets(Encode(bytes, padded)).Some?
    ensures var all := SextetBits(Sextets(Encode(bytes, padded)).value);
            |all| - 8 * |bytes| < 6 && OctetBits(bytes) <= all
  {
    hide SextetBits, OctetBits, Sextets, Symbols;
    OctetBitsLength(bytes);
    var b := OctetBits(bytes);
    var zeros := Zeros(ToSextets(|b|));
    var symbols := Symbols(b + zeros);
    var padding := if padded then ToQuartets(|symbols|) else 0;
    assert Encode(bytes, padded) == symbols + seq(padding, _ => PAD);
    SymbolsRead(b + zeros, padding);
  }

  lemma DecodesUnique(bytes: Bytes, all: Bits, output: Bytes, values: seq<nat>)
    requires all == SextetBits(values) && OctetBits(bytes) <= all && |all| - 8 * |bytes| < 8
    ensures Decodes(values, output) <==> output == bytes
  {
    hide SextetBits, OctetBits;
    OctetBitsLength(bytes);
    OctetBitsLength(output);
    if Decodes(values, output) {
      assert OctetBits(output) + all[8 * |output|..] == all == OctetBits(bytes) + all[8 * |bytes|..];
      OctetBitsInjective(output, all[8 * |output|..], bytes, all[8 * |bytes|..]);
    }
  }

  /** What the decoder loop returns for an encoding. */
  method DecodeEncoded(bytes: Bytes, padded: bool) returns (r: Option<Bytes>)
    ensures r == Some(bytes)
  {
    r := DecodeBase64(Encode(bytes, padded));
    DecodeInvertsEncode(bytes, padded, if r.Some? then r.value else []);
  }
}
