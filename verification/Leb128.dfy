/** LEB128 (section 5.2.2 of the WebAssembly Core Specification): the bit loops of the sources against
    the value of a byte string in unbounded arithmetic. */
module Leb128 {
  import opened Wrappers
  import opened Bits
  import opened ByteStream

  /** A C++ integer type: its width and whether it is signed. */
  datatype IntType = IntType(bits: nat, signed: bool) {
    predicate Valid() {
      bits == 32 || bits == 64
    }

    /** ceil(bits / 7) */
    function Cap(): nat {
      (bits + 6) / 7
    }

    predicate InRange(v: int) {
      if signed then bits > 0 && 0 <= v + Pow2(bits - 1) < Pow2(bits) else 0 <= v < Pow2(bits)
    }

    /** The value of this type congruent to `x`. */
    function Wrap(x: int): int {
      var r := x % Pow2(bits);
      if signed && bits > 0 && r >= Pow2(bits - 1) then r - Pow2(bits) else r
    }
  }

  // ---------- the meaning of a byte string ----------

  /** Number of leading bytes with the continuation bit. */
  function Continued(bs: seq<Byte>): (k: nat)
    ensures k <= |bs|
    ensures forall i :: 0 <= i < k ==> bs[i] >= 128
    ensures k < |bs| ==> bs[k] < 128
  {
    if bs == [] || bs[0] < 128 then 0 else 1 + Continued(bs[1..])
  }

  function UnsignedValue(bs: seq<Byte>): nat {
    if bs == [] then 0 else bs[0] % 128 + 128 * UnsignedValue(bs[1..])
  }

  /** With the sign bit of the last group the value is that much less. */
  function Value(signed: bool, bs: seq<Byte>): int {
    if signed && bs != [] && bs[|bs| - 1] / 64 % 2 == 1 then UnsignedValue(bs) - Pow2(7 * |bs|)
    else UnsignedValue(bs)
  }

  datatype Decoded = Decoded(value: int, rest: seq<Byte>)

  /** What decoding means: the bytes up to the first without the continuation bit, in unbounded
      arithmetic, reduced to the type; overflow when the first `Cap` bytes all continue. */
  function Decode(t: IntType, bs: seq<Byte>): Result<Decoded, Error> {
    var k := Continued(bs);
    if k >= t.Cap() then Err(DecodeOverflow)
    else if k == |bs| then Err(EndOfStream)
    else Ok(Decoded(t.Wrap(Value(t.signed, bs[..k + 1])), bs[k + 1..]))
  }

  lemma {:induction false} UnsignedBound(bs: seq<Byte>)
    ensures UnsignedValue(bs) < Pow2(7 * |bs|)
  {
    if bs != [] {
      UnsignedBound(bs[1..]);
      Pow2Add(7, 7 * (|bs| - 1));
      assert Pow2(7) == 128;
    }
  }

  lemma {:induction false} UnsignedSnoc(bs: seq<Byte>, b: Byte)
    ensures UnsignedValue(bs + [b]) == UnsignedValue(bs) + b % 128 * Pow2(7 * |bs|)
  {
    if bs == [] {
      assert [] + [b] == [b] && [b][1..] == [];
    } else {
      assert (bs + [b])[1..] == bs[1..] + [b];
      UnsignedSnoc(bs[1..], b);
      Pow2Add(7, 7 * (|bs| - 1));
      assert Pow2(7) == 128;
      MulSwap(128, b % 128, Pow2(7 * (|bs| - 1)));
    }
  }

  lemma MulSwap(a: nat, b: nat, c: nat)
    ensures a * (b * c) == b * (a * c)
  {
  }

  // ---------- the decoding loop ----------

  /** `x << shift` in an unsigned word of the type's width. */
  function ShiftLeft(t: IntType, x: nat, shift: nat): nat {
    x * Pow2(shift) % Pow2(t.bits)
  }

  /** Reading an unsigned word as a value of the type. */
  function Reinterpret(t: IntType, w: nat): int
    requires t.Valid()
  {
    if t.signed && w >= Pow2(t.bits - 1) then w - Pow2(t.bits) else w
  }

  lemma SplitProduct(d: nat, hi: nat, lo: nat, p: nat, q: nat)
    requires lo < q && d == q * hi + lo && p >= 1
    ensures p * q >= 1 && d * p % (p * q) == lo * p
    ensures d * p == p * q * hi + lo * p && lo * p + p <= p * q
  {
    assert (q * hi + lo) * p == q * hi * p + lo * p;
    assert q * hi * p == p * q * hi;
    MulLe(lo + 1, q, p);
    DivModUnique(d * p, p * q, hi, lo * p);
  }

  lemma SplitQuotient(d: nat, p: nat, q: nat, m: nat)
    requires p >= 1 && q >= 1 && m == p * q
    ensures m >= 1 && d * p % m == d % q * p && d % q * p + p <= m && d * p == m * (d / q) + d % q * p
  {
    var hi, lo := d / q, d % q;
    assert d == q * hi + lo;
    SplitProduct(d, hi, lo, p, q);
  }

  lemma MulLe(a: nat, b: nat, c: nat)
    requires a <= b
    ensures a * c <= b * c
  {
  }

  lemma ShiftedGroup(d: nat, s: nat, b: nat)
    requires s <= b
    ensures d * Pow2(s) % Pow2(b) == d % Pow2(b - s) * Pow2(s)
    ensures d % Pow2(b - s) * Pow2(s) + Pow2(s) <= Pow2(b)
    ensures d * Pow2(s) == Pow2(b) * (d / Pow2(b - s)) + d % Pow2(b - s) * Pow2(s)
  {
    Pow2Add(s, b - s);
    SplitQuotient(d, Pow2(s), Pow2(b - s), Pow2(b));
  }

  /** Or-ing the next group in is adding it, reduced to the word. */
  lemma OrGroup(t: IntType, low: nat, d: nat, shift: nat)
    requires low < Pow2(shift) && shift <= t.bits
    ensures Or(low, ShiftLeft(t, d, shift)) == (low + d * Pow2(shift)) % Pow2(t.bits)
  {
    var q := Pow2(t.bits - shift);
    ShiftedGroup(d, shift, t.bits);
    OrDisjoint(low, d % q, shift);
    DivModUnique(low + d * Pow2(shift), Pow2(t.bits), d / q, low + d % q * Pow2(shift));
  }

  lemma Masks(byte: Byte)
    ensures And(byte, 0x7F) == byte % 128
    ensures And(byte, 0x80) != 0 <==> byte >= 128
    ensures And(byte, 0x40) != 0 <==> byte / 64 % 2 == 1
  {
    hide And, Pow2;
    SmallPowers();
    AndLowMask(byte, 7);
    AndBit(byte, 7);
    AndBit(byte, 6);
    BitIsSet(byte, 128);
    BitIsSet(byte, 64);
  }

  lemma SmallPowers()
    ensures Pow2(6) == 64 && Pow2(7) == 128
  {
  }

  lemma BitIsSet(byte: Byte, p: nat)
    requires p >= 1
    ensures p * (byte / p % 2) != 0 <==> byte / p % 2 == 1
  {
  }

  /** One turn of the loop, on the bytes read so far. */
  lemma DecodeTurn(t: IntType, bs: seq<Byte>, result: nat, byte: Byte)
    requires t.Valid() && 7 * |bs| < t.bits && result == UnsignedValue(bs) % Pow2(t.bits)
    ensures Or(result, ShiftLeft(t, And(byte, 0x7F), 7 * |bs|)) == UnsignedValue(bs + [byte]) % Pow2(t.bits)
  {
    var shift := 7 * |bs|;
    UnsignedBound(bs);
    Pow2Monotone(shift, t.bits);
    SmallMod(UnsignedValue(bs), Pow2(t.bits));
    Masks(byte);
    OrGroup(t, result, byte % 128, shift);
    UnsignedSnoc(bs, byte);
  }

  lemma AllOnesShifted(m: nat, s: nat, q: nat)
    requires m == s * q && s >= 1 && q >= 1
    ensures s <= m && (m - 1) * s % m == m - s && m - s == (q - 1) * s
  {
    MulLe(1, q, s);
    assert (q - 1) * s == q * s - s;
    assert (m - 1) * s == m * s - s && m * (s - 1) == m * s - m;
    DivModUnique((m - 1) * s, m, s - 1, m - s);
  }

  lemma SignExtension(t: IntType, shift: nat)
    requires shift < t.bits
    ensures Pow2(shift) <= Pow2(t.bits)
    ensures ShiftLeft(t, Pow2(t.bits) - 1, shift) == Pow2(t.bits) - Pow2(shift)
    ensures Pow2(t.bits) - Pow2(shift) == (Pow2(t.bits - shift) - 1) * Pow2(shift)
  {
    Pow2Add(shift, t.bits - shift);
    hide Pow2;
    AllOnesShifted(Pow2(t.bits), Pow2(shift), Pow2(t.bits - shift));
  }

  lemma BelowZero(u: nat, m: nat, s: nat)
    requires u < s <= m
    ensures (u - s) % m == u + m - s
  {
    DivModUnique(u - s, m, -1, u + m - s);
  }

  lemma WholeTurns(u: nat, m: nat, h: nat)
    requires m >= 1
    ensures (u - m * h) % m == u % m
  {
    var q, r := u / m, u % m;
    assert m * (q - h) == m * q - m * h;
    DivModUnique(u - m * h, m, q - h, r);
  }

  /** The value after the loop is the value of the bytes read, reduced to the type. */
  lemma DecodeEnds(t: IntType, bs: seq<Byte>, result: nat)
    requires t.Valid() && bs != [] && result == UnsignedValue(bs) % Pow2(t.bits)
    ensures var shift := 7 * |bs|;
      var extended := if t.signed && shift < t.bits && And(bs[|bs| - 1], 0x40) != 0
        then Or(result, ShiftLeft(t, Pow2(t.bits) - 1, shift)) else result;
      Reinterpret(t, extended) == t.Wrap(Value(t.signed, bs))
  {
    hide Pow2, UnsignedValue, And, Or, ShiftLeft;
    var shift, m, u := 7 * |bs|, Pow2(t.bits), UnsignedValue(bs);
    Masks(bs[|bs| - 1]);
    UnsignedBound(bs);
    if t.signed && bs[|bs| - 1] / 64 % 2 == 1 {
      if shift < t.bits {
        SignExtension(t, shift);
        SmallMod(u, m);
        OrDisjoint(u, Pow2(t.bits - shift) - 1, shift);
        BelowZero(u, m, Pow2(shift));
      } else {
        Pow2Add(t.bits, shift - t.bits);
        WholeTurns(u, m, Pow2(shift - t.bits));
      }
    }
  }

  lemma {:induction false} ContinuedIs(bs: seq<Byte>, k: nat)
    requires k <= |bs| && (forall i :: 0 <= i < k ==> bs[i] >= 128) && (k < |bs| ==> bs[k] < 128)
    ensures Continued(bs) == k
  {
    if k > 0 {
      ContinuedIs(bs[1..], k - 1);
    }
  }

  /** The three ways the bytes can go. */
  lemma DecodeCases(t: IntType, bs: seq<Byte>, i: nat)
    requires t.Valid() && i <= |bs|
    requires forall j :: 0 <= j < i - 1 ==> bs[j] >= 128
    ensures (i > 0 ==> bs[i - 1] >= 128) && 7 * i >= t.bits ==> Decode(t, bs) == Err(DecodeOverflow)
    ensures (i > 0 ==> bs[i - 1] >= 128) && 7 * i < t.bits && i == |bs| ==> Decode(t, bs) == Err(EndOfStream)
    ensures i > 0 && bs[i - 1] < 128 && 7 * (i - 1) < t.bits ==>
      Decode(t, bs) == Ok(Decoded(t.Wrap(Value(t.signed, bs[..i])), bs[i..]))
  {
    if i > 0 && bs[i - 1] < 128 {
      ContinuedIs(bs, i - 1);
    } else {
      ContinuesAtLeast(bs, i);
    }
  }

  /** The loop of the sources. Its answer is the meaning of the bytes; it consumes exactly the bytes it
      has read. */
  method DecodeInt(t: IntType, stream: ByteStream) returns (r: Result<int, Error>)
    requires t.Valid() && stream.Valid()
    modifies stream
    ensures stream.Valid()
    ensures var d := Decode(t, old(stream.Remaining()));
      && (d.Ok? ==> r == Ok(d.value.value) && stream.Remaining() == d.value.rest)
      && (d.Err? ==> r == Err(d.error))
    ensures |old(stream.Remaining())| - t.Cap() <= |stream.Remaining()| <= |old(stream.Remaining())|
  {
    hide Or, And, ShiftLeft, Reinterpret, UnsignedValue, Value, Pow2, Decode, Continued;
    var result, shift: nat, byte: Byte := 0, 0, 0x80;
    ghost var bs, i := stream.Remaining(), 0;
    Masks(0x80);
    Nothing(t);
    while shift < t.bits && And(byte, 0x80) != 0
      invariant stream.Valid() && i <= |bs| && stream.Remaining() == bs[i..] && shift == 7 * i < t.bits + 7
      invariant byte == if i == 0 then 0x80 else bs[i - 1]
      invariant forall j :: 0 <= j < i - 1 ==> bs[j] >= 128
      invariant result == UnsignedValue(bs[..i]) % Pow2(t.bits)
      decreases |bs| - i
    {
      Masks(byte);
      DecodeCases(t, bs, i);
      byte :- stream.ReadByte();
      DecodeTurn(t, bs[..i], result, byte);
      assert bs[..i + 1] == bs[..i] + [byte];
      result := Or(result, ShiftLeft(t, And(byte, 0x7F), shift));
      shift := shift + 7;
      i := i + 1;
    }
    Masks(byte);
    DecodeCases(t, bs, i);
    if And(byte, 0x80) != 0 {
      return Err(DecodeOverflow);
    }
    DecodeEnds(t, bs[..i], result);
    if t.signed && shift < t.bits && And(byte, 0x40) != 0 {
      result := Or(result, ShiftLeft(t, AllOnes(t), shift));
    }
    r := Ok(Reinterpret(t, result));
  }

  /** `~int_type(0)` */
  function AllOnes(t: IntType): nat {
    Pow2(t.bits) - 1
  }

  lemma Nothing(t: IntType)
    ensures 0 == UnsignedValue([]) % Pow2(t.bits) && AllOnes(t) == Pow2(t.bits) - 1
  {
    SmallMod(0, Pow2(t.bits));
  }

  lemma {:induction false} ContinuesAtLeast(bs: seq<Byte>, k: nat)
    requires k <= |bs| && forall i :: 0 <= i < k ==> bs[i] >= 128
    ensures Continued(bs) >= k
  {
    if k > 0 {
      ContinuesAtLeast(bs[1..], k - 1);
    }
  }

  // ---------- encoding ----------

  function EncodeUnsigned(v: nat): (bs: seq<Byte>)
    ensures bs != []
  {
    if v / 128 == 0 then [v % 128] else [v % 128 + 128] + EncodeUnsigned(v / 128)
  }

  /** The last group's sign bit must agree with what is left. */
  predicate SignedDone(v: int) {
    (v / 128 == 0 && v % 128 < 64) || (v / 128 == -1 && v % 128 >= 64)
  }

  function EncodeSigned(v: int): (bs: seq<Byte>)
    ensures bs != []
    decreases if v >= 0 then v else -v
  {
    if SignedDone(v) then [v % 128] else [v % 128 + 128] + EncodeSigned(v / 128)
  }

  function Encode(t: IntType, v: int): seq<Byte>
    requires t.InRange(v)
  {
    if t.signed then EncodeSigned(v) else EncodeUnsigned(v)
  }

  /** `value & 0x7F` on the two's complement word of `v`, and setting the continuation bit. */
  lemma LowGroup(t: IntType, v: int)
    requires t.Valid()
    ensures And(v % Pow2(t.bits), 0x7F) == v % 128
    ensures Or(v % 128, 0x80) == v % 128 + 128
  {
    assert Pow2(7) == 128;
    AndLowMask(v % Pow2(t.bits), 7);
    Pow2Add(7, t.bits - 7);
    OrDisjoint(v % 128, 1, 7);
    hide Pow2, And, Or;
    ModOfMod(v, 128, Pow2(t.bits - 7));
  }

  lemma ModOfMod(v: int, d: nat, q: nat)
    requires d >= 1 && q >= 1
    ensures d * q >= 1 && v % (d * q) % d == v % d
  {
    MulLe(1, q, d);
    var m := d * q;
    var a, r := v / m, v % m;
    assert v == m * a + r;
    assert m * a == d * (q * a);
    DivModUnique(v, d, q * a + r / d, r % d);
  }

  /** The loops of the sources, one for each kind of type. */
  method EncodeInt(t: IntType, v: int) returns (output: seq<Byte>)
    requires t.Valid() && t.InRange(v)
    ensures output == Encode(t, v)
  {
    if t.signed {
      output := EncodeSignedLoop(t, v);
    } else {
      output := EncodeUnsignedLoop(t, v);
    }
  }

  method EncodeSignedLoop(t: IntType, v: int) returns (output: seq<Byte>)
    requires t.Valid()
    ensures output == EncodeSigned(v)
  {
    hide And, Or, Pow2;
    var value, more := v, true;
    output := [];
    while more
      invariant if more then EncodeSigned(v) == output + EncodeSigned(value) else EncodeSigned(v) == output
      decreases more, if value >= 0 then value else -value
    {
      LowGroup(t, value);
      var byte: Byte := And(value % Pow2(t.bits), 0x7F);
      Masks(byte);
      value := value / 128;
      if (value == 0 && And(byte, 0x40) == 0) || (value == -1 && And(byte, 0x40) != 0) {
        more := false;
      } else {
        byte := Or(byte, 0x80);
      }
      output := output + [byte];
    }
  }

  method EncodeUnsignedLoop(t: IntType, v: nat) returns (output: seq<Byte>)
    requires t.Valid()
    ensures output == EncodeUnsigned(v)
  {
    hide And, Or, Pow2;
    var value, more := v, true;
    output := [];
    while more
      invariant value >= 0
      invariant if more then EncodeUnsigned(v) == output + EncodeUnsigned(value) else EncodeUnsigned(v) == output
      decreases more, value
    {
      LowGroup(t, value);
      var byte: Byte := And(value % Pow2(t.bits), 0x7F);
      value := value / 128;
      if value != 0 {
        byte := Or(byte, 0x80);
      }
      output := output + [byte];
      more := value != 0;
    }
  }

  // ---------- round trip and minimality ----------

  /** Every byte of an encoding but the last continues, whatever follows. */
  ghost predicate Terminated(e: seq<Byte>) {
    e != [] && e[|e| - 1] < 128 && forall i :: 0 <= i < |e| - 1 ==> e[i] >= 128
  }

  lemma TerminatedCons(b: Byte, e: seq<Byte>)
    requires b >= 128 && Terminated(e)
    ensures Terminated([b] + e)
  {
    var all := [b] + e;
    assert forall i :: 0 < i < |all| ==> all[i] == e[i - 1];
  }

  lemma OneGroup(b: Byte)
    ensures Value(true, [b]) == b % 128 - if b / 64 % 2 == 1 then 128 else 0
  {
    var bs := [b];
    assert bs[1..] == [] && UnsignedValue(bs) == b % 128;
    assert 7 * |bs| == 7 && Pow2(7) == 128;
    assert bs[|bs| - 1] == b;
  }

  lemma ValueCons(b: Byte, e: seq<Byte>)
    requires e != []
    ensures Value(true, [b] + e) == b % 128 + 128 * Value(true, e)
  {
    assert ([b] + e)[1..] == e && ([b] + e)[|e|] == e[|e| - 1];
    Pow2Add(7, 7 * |e|);
    assert Pow2(7) == 128;
  }

  lemma {:induction false} UnsignedEncoded(v: nat)
    ensures Terminated(EncodeUnsigned(v)) && UnsignedValue(EncodeUnsigned(v)) == v
    decreases v
  {
    if v / 128 == 0 {
      assert [v % 128][1..] == [];
    } else {
      var b, e := v % 128 + 128, EncodeUnsigned(v / 128);
      UnsignedEncoded(v / 128);
      TerminatedCons(b, e);
      assert ([b] + e)[1..] == e;
    }
  }

  lemma {:induction false} SignedEncoded(v: int)
    ensures Terminated(EncodeSigned(v)) && Value(true, EncodeSigned(v)) == v
    decreases if v >= 0 then v else -v
  {
    hide Value, UnsignedValue, Pow2;
    if SignedDone(v) {
      OneGroup(v % 128);
    } else {
      var b, e := v % 128 + 128, EncodeSigned(v / 128);
      SignedEncoded(v / 128);
      TerminatedCons(b, e);
      ValueCons(b, e);
    }
  }

  /** The values `k` groups can hold. */
  predicate Holds(signed: bool, k: nat, v: int)
    requires k >= 1
  {
    if signed then 0 <= v + Pow2(7 * k - 1) < Pow2(7 * k) else 0 <= v < Pow2(7 * k)
  }

  lemma HoldsMore(signed: bool, k: nat, v: int)
    requires k >= 2
    ensures Holds(signed, k, v) <==> Holds(signed, k - 1, v / 128)
  {
    Pow2Add(7, 7 * (k - 1));
    Pow2Add(7, 7 * (k - 1) - 1);
    assert Pow2(7) == 128;
  }

  /** An encoding is as short as its value allows. */
  lemma {:induction false} EncodedSize(signed: bool, v: int, k: nat)
    requires k >= 1 && (signed || v >= 0)
    ensures |if signed then EncodeSigned(v) else EncodeUnsigned(v)| <= k <==> Holds(signed, k, v)
    decreases k
  {
    if k == 1 {
      assert Pow2(6) == 64 && Pow2(7) == 128;
    } else {
      HoldsMore(signed, k, v);
      EncodedSize(signed, v / 128, k - 1);
      if signed && SignedDone(v) {
        SmallHolds(v / 128, k - 1);
      }
    }
  }

  lemma SmallHolds(v: int, k: nat)
    requires k >= 1 && (v == 0 || v == -1)
    ensures Holds(true, k, v)
  {
    Pow2Monotone(1, 7 * k);
  }

  lemma {:induction false} GroupsHold(signed: bool, bs: seq<Byte>)
    requires bs != []
    ensures Holds(signed, |bs|, Value(signed, bs))
  {
    UnsignedBound(bs);
    if signed {
      SignedBound(bs);
    }
  }

  lemma {:induction false} SignedBound(bs: seq<Byte>)
    requires bs != []
    ensures Holds(true, |bs|, Value(true, bs))
  {
    if |bs| == 1 {
      assert bs == [bs[0]];
      OneGroup(bs[0]);
      SmallPowers();
    } else {
      var rest := bs[1..];
      SignedBound(rest);
      assert bs == [bs[0]] + rest;
      ValueCons(bs[0], rest);
      DivModUnique(Value(true, bs), 128, Value(true, rest), bs[0] % 128);
      HoldsMore(true, |bs|, Value(true, bs));
    }
  }

  /** Values of the type fit the byte limit, and are what the reduction leaves alone. */
  lemma TypeFits(t: IntType, v: int)
    requires t.Valid() && t.InRange(v)
    ensures Holds(t.signed, t.Cap(), v) && t.Wrap(v) == v
  {
    Pow2Monotone(t.bits, 7 * t.Cap());
    Pow2Monotone(t.bits - 1, 7 * t.Cap() - 1);
    HalfWrap(Pow2(t.bits - 1), v);
    Halves(7 * t.Cap());
    hide Pow2;
  }

  lemma Halves(n: nat)
    requires n >= 1
    ensures Pow2(n) == 2 * Pow2(n - 1)
  {
  }

  lemma HalfWrap(half: nat, v: int)
    requires half >= 1
    ensures 0 <= v < 2 * half ==> v % (2 * half) == v
    ensures v < 0 <= v + half ==> v % (2 * half) == v + 2 * half
  {
    if 0 <= v < 2 * half {
      SmallMod(v, 2 * half);
    } else if v < 0 <= v + half {
      DivModUnique(v, 2 * half, -1, v + 2 * half);
    }
  }

  /** Decoding a terminated string that is not too long, whatever follows it. */
  lemma DecodeTerminated(t: IntType, e: seq<Byte>, suffix: seq<Byte>)
    requires Terminated(e) && |e| <= t.Cap()
    ensures Decode(t, e + suffix) == Ok(Decoded(t.Wrap(Value(t.signed, e)), suffix))
  {
    var bs := e + suffix;
    assert forall i :: 0 <= i < |e| ==> bs[i] == e[i];
    ContinuedIs(bs, |e| - 1);
    assert bs[..|e| - 1 + 1] == e && bs[|e| - 1 + 1..] == suffix;
  }

  /** When decoding fails, and how. */
  lemma FailsExactly(t: IntType, bs: seq<Byte>)
    ensures Decode(t, bs) == Err(DecodeOverflow) <==> |bs| >= t.Cap() && forall i :: 0 <= i < t.Cap() ==> bs[i] >= 128
    ensures Decode(t, bs) == Err(EndOfStream) <==> |bs| < t.Cap() && forall i :: 0 <= i < |bs| ==> bs[i] >= 128
  {
    hide Value;
    var k := Continued(bs);
    if |bs| >= t.Cap() && forall i :: 0 <= i < t.Cap() ==> bs[i] >= 128 {
      ContinuesAtLeast(bs, t.Cap());
    }
    if forall i :: 0 <= i < |bs| ==> bs[i] >= 128 {
      ContinuesAtLeast(bs, |bs|);
    }
  }

  /** Decoding an encoding gives the value back and stops exactly behind it. */
  lemma RoundTrip(t: IntType, v: int, suffix: seq<Byte>)
    requires t.Valid() && t.InRange(v)
    ensures Decode(t, Encode(t, v) + suffix) == Ok(Decoded(v, suffix))
  {
    if t.signed {
      SignedEncoded(v);
    } else {
      UnsignedEncoded(v);
    }
    TypeFits(t, v);
    EncodedSize(t.signed, v, t.Cap());
    hide Encode, EncodeSigned, EncodeUnsigned, Value, Holds, Pow2, Decode;
    DecodeTerminated(t, Encode(t, v), suffix);
  }

  /** Encodings have between one and `Cap` bytes, only the last without the continuation bit, and no
      string that decodes to the same value and is used up is shorter. */
  lemma Minimal(t: IntType, v: int, bs: seq<Byte>)
    requires t.Valid() && t.InRange(v)
    ensures 1 <= |Encode(t, v)| <= t.Cap() && Terminated(Encode(t, v))
    ensures Decode(t, bs) == Ok(Decoded(v, [])) ==> |Encode(t, v)| <= |bs|
  {
    if t.signed {
      SignedEncoded(v);
    } else {
      UnsignedEncoded(v);
    }
    TypeFits(t, v);
    EncodedSize(t.signed, v, t.Cap());
    hide Encode, EncodeSigned, EncodeUnsigned, Value, Holds, Pow2;
    if Decode(t, bs) == Ok(Decoded(v, [])) && |bs| < t.Cap() {
      assert bs == bs[..Continued(bs) + 1];
      GroupsHold(t.signed, bs);
      HeldFits(t, |bs|, Value(t.signed, bs));
      EncodedSize(t.signed, v, |bs|);
    }
  }

  /** Below the byte limit nothing is lost in the reduction. */
  lemma HeldFits(t: IntType, k: nat, v: int)
    requires t.Valid() && 1 <= k < t.Cap() && Holds(t.signed, k, v)
    ensures t.Wrap(v) == v
  {
    Pow2Monotone(7 * k, t.bits);
    Pow2Monotone(7 * k - 1, t.bits - 1);
    HalfWrap(Pow2(t.bits - 1), v);
    Halves(7 * k);
    hide Pow2;
  }

  lemma WrapInRange(t: IntType, x: int)
    requires t.Valid()
    ensures t.InRange(t.Wrap(x))
  {
    Halves(t.bits);
    hide Pow2;
  }

  /** Where the last group ends a full-length encoding, its bits beyond the type must be zero or agree with
      the sign (section 5.2.2). */
  predicate LastFits(t: IntType, k: nat, last: Byte) {
    || k + 1 < t.Cap()
    || (if t.signed then (if t.bits == 32 then last < 0x08 || 0x78 <= last else last == 0x00 || last == 0x7F)
        else (if t.bits == 32 then last < 0x10 else last < 0x02))
  }

  /** `low` below a group of weight `p`. */
  lemma GroupBelow(p: nat, low: nat, last: nat, m: nat)
    requires low < p
    ensures low + last * p < m * p <==> last < m
  {
    if last < m {
      MulLe(last + 1, m, p);
      assert (last + 1) * p == last * p + p;
    } else {
      MulLe(m, last, p);
    }
  }

  lemma ValueSplit(signed: bool, bs: seq<Byte>)
    requires bs != [] && bs[|bs| - 1] < 128
    ensures Value(signed, bs)
         == UnsignedValue(bs) - if signed && bs[|bs| - 1] >= 64 then Pow2(7 * |bs|) else 0
  {
    hide UnsignedValue, Pow2;
  }

  lemma SplitLast(bs: seq<Byte>) returns (low: nat, p: nat)
    requires bs != [] && bs[|bs| - 1] < 128
    ensures p == Pow2(7 * (|bs| - 1)) && low < p && UnsignedValue(bs) == low + bs[|bs| - 1] * p
  {
    hide Pow2, UnsignedValue;
    var k, last := |bs| - 1, bs[|bs| - 1];
    assert bs == bs[..k] + [last] && last % 128 == last;
    UnsignedSnoc(bs[..k], last);
    UnsignedBound(bs[..k]);
    low, p := UnsignedValue(bs[..k]), Pow2(7 * k);
  }

  lemma LastGroup(t: IntType, bs: seq<Byte>)
    requires t.Valid() && |bs| == t.Cap() && bs[|bs| - 1] < 128
    ensures t.InRange(Value(t.signed, bs)) <==> LastFits(t, |bs| - 1, bs[|bs| - 1])
  {
    hide Pow2, UnsignedValue, LastFits, Value;
    var low, p := SplitLast(bs);
    CapPowers(t);
    ValueSplit(t.signed, bs);
    LastGroupRange(t, p, low, bs[|bs| - 1], Value(t.signed, bs));
  }

  lemma LastGroupRange(t: IntType, p: nat, low: nat, last: Byte, v: int)
    requires t.Valid() && last < 128 && low < p
    requires t.bits == 32 ==> Pow2(32) == 16 * p && Pow2(31) == 8 * p
    requires t.bits == 64 ==> Pow2(64) == 2 * p && Pow2(63) == p
    requires v == low + last * p - if t.signed && last >= 64 then 128 * p else 0
    ensures t.InRange(v) <==> LastFits(t, t.Cap() - 1, last)
  {
    hide Pow2;
    if !t.signed {
      GroupBelow(p, low, last, if t.bits == 32 then 16 else 2);
    } else if last < 64 {
      GroupBelow(p, low, last, if t.bits == 32 then 8 else 1);
    } else {
      GroupBelow(p, low, last, 128);
      GroupBelow(p, low, last, if t.bits == 32 then 120 else 127);
    }
  }

  lemma CapPowers(t: IntType)
    requires t.Valid()
    ensures var p := Pow2(7 * (t.Cap() - 1));
      && p >= 1 && Pow2(7 * t.Cap()) == 128 * p
      && (t.bits == 32 ==> Pow2(32) == 16 * p && Pow2(31) == 8 * p)
      && (t.bits == 64 ==> Pow2(64) == 2 * p && Pow2(63) == p)
  {
    SmallPowersOfTwo();
    hide Pow2;
    Pow2Add(7, 7 * (t.Cap() - 1));
    if t.bits == 32 {
      Pow2Add(4, 28);
      Pow2Add(3, 28);
    } else {
      Pow2Add(1, 63);
    }
  }

  lemma SmallPowersOfTwo()
    ensures Pow2(7) == 128 && Pow2(4) == 16 && Pow2(3) == 8 && Pow2(1) == 2
  {
  }

  /** The decoder is laxer than section 5.2.2, which refuses what does not fit. Whenever it answers, its
      answer is the value of the bytes read if and only if that value is in the range of the type, and that
      is so if and only if the last byte fits. */
  lemma LosslessExactly(t: IntType, bs: seq<Byte>)
    requires t.Valid() && Continued(bs) < t.Cap() && Continued(bs) < |bs|
    ensures var k := Continued(bs);
      var v := Value(t.signed, bs[..k + 1]);
      && Decode(t, bs).Ok?
      && (Decode(t, bs).value.value == v <==> LastFits(t, k, bs[k]))
      && (t.InRange(v) <==> LastFits(t, k, bs[k]))
  {
    var k := Continued(bs);
    var read := bs[..k + 1];
    var v := Value(t.signed, read);
    WrapInRange(t, v);
    if t.InRange(v) {
      TypeFits(t, v);
    }
    hide Pow2, UnsignedValue, Value, LastFits;
    assert read[|read| - 1] == bs[k];
    if k + 1 < t.Cap() {
      GroupsHold(t.signed, read);
      HeldFits(t, k + 1, v);
      ShortFits(t, k, bs[k]);
    } else {
      LastGroup(t, read);
    }
  }

  lemma ShortFits(t: IntType, k: nat, last: Byte)
    requires k + 1 < t.Cap()
    ensures LastFits(t, k, last)
  {
  }

  /** For instance, the unused bits of the last byte of a full-length unsigned encoding are dropped. */
  lemma ExcessBitsDropped()
    ensures Decode(IntType(32, false), [0xFF, 0xFF, 0xFF, 0xFF, 0x7F]) == Ok(Decoded(0xFFFF_FFFF, []))
  {
    hide Pow2, UnsignedValue, Continued;
    var t, bs := IntType(32, false), [0xFF, 0xFF, 0xFF, 0xFF, 0x7F];
    ContinuedIs(bs, 4);
    assert bs[..5] == bs && bs[5..] == [];
    ExcessValue();
    TwoTo32();
  }

  lemma ExcessValue()
    ensures UnsignedValue([0xFF, 0xFF, 0xFF, 0xFF, 0x7F]) == 0x7_FFFF_FFFF
  {
    var bs: seq<Byte> := [0xFF, 0xFF, 0xFF, 0xFF, 0x7F];
    assert bs[1..] == [0xFF, 0xFF, 0xFF, 0x7F] && bs[1..][1..] == [0xFF, 0xFF, 0x7F];
    assert bs[1..][1..][1..] == [0xFF, 0x7F] && bs[1..][1..][1..][1..] == [0x7F] && [0x7F][1..] == [];
    assert UnsignedValue([0x7F]) == 127 && UnsignedValue([0xFF, 0x7F]) == 16383;
  }

  // ---------- signed encodings read by the unsigned decoder ----------

  /** The unsigned word of a signed 32-bit value, and back. */
  function ToSigned(w: nat): int {
    if w < 0x8000_0000 then w else w - 0x1_0000_0000
  }

  /** What the unsigned 32-bit decoder makes of the signed encoding of `w`. */
  function Misread(w: nat): int {
    if w < 0xF800_0000 then w
    else ToSigned(w) + Pow2(7 * |EncodeSigned(ToSigned(w))|)
  }

  /** The unsigned value of a signed encoding is the value, or that much more when it is negative. */
  lemma SignedGroups(v: int)
    ensures var e := EncodeSigned(v);
      Terminated(e) && UnsignedValue(e) == if v < 0 then v + Pow2(7 * |e|) else v
  {
    SignedEncoded(v);
    UnsignedBound(EncodeSigned(v));
  }

  lemma ShortSigned(v: int)
    ensures |EncodeSigned(v)| <= 4 <==> -0x800_0000 <= v < 0x800_0000
    ensures |EncodeSigned(v)| <= 5 <==> -0x4_0000_0000 <= v < 0x4_0000_0000
  {
    EncodedSize(true, v, 4);
    EncodedSize(true, v, 5);
    Pow2Add(27, 7);
    Pow2Add(1, 27);
    Powers27();
    hide EncodeSigned;
  }

  lemma Powers27()
    ensures Pow2(27) == 0x800_0000 && Pow2(7) == 128 && Pow2(1) == 2 && Pow2(34) == 0x4_0000_0000
    ensures Pow2(28) == 0x1000_0000 && Pow2(35) == 0x8_0000_0000
  {
    Pow2Add(10, 10);
    Pow2Add(20, 7);
    Pow2Add(27, 7);
    Pow2Add(1, 27);
    Pow2Add(1, 34);
    assert Pow2(10) == 1024 && Pow2(7) == 128 && Pow2(1) == 2;
  }

  /** The unsigned decoder reads the signed encoding of a 32-bit value, and stops behind it, but it reads
      the value's own word if and only if the value is not negative or takes all five bytes. */
  lemma SignedReadExactly(w: nat, suffix: seq<Byte>)
    requires w < 0x1_0000_0000
    ensures Decode(IntType(32, false), EncodeSigned(ToSigned(w)) + suffix) == Ok(Decoded(Misread(w), suffix))
    ensures 0 <= Misread(w) < 0x1_0000_0000
    ensures Misread(w) == w <==> ToSigned(w) >= 0 || ToSigned(w) < -0x800_0000
  {
    hide EncodeSigned, UnsignedValue, Pow2, Continued, Misread, Decode;
    var v := ToSigned(w);
    SignedGroups(v);
    ShortSigned(v);
    DecodeTerminated(IntType(32, false), EncodeSigned(v), suffix);
    MisreadWord(w, |EncodeSigned(v)|);
  }

  lemma MisreadWord(w: nat, n: nat)
    requires w < 0x1_0000_0000 && 1 <= n <= 5 && n == |EncodeSigned(ToSigned(w))|
    ensures var v := ToSigned(w);
      (if v < 0 then v + Pow2(7 * n) else v) % Pow2(32) == Misread(w)
    ensures 0 <= Misread(w) < 0x1_0000_0000
    ensures Misread(w) == w <==> ToSigned(w) >= 0 || ToSigned(w) < -0x800_0000
  {
    var v := ToSigned(w);
    ShortSigned(v);
    SignedGroups(v);
    TwoTo32();
    Powers27();
    if n <= 4 {
      Pow2Monotone(7 * n, 28);
    }
    hide EncodeSigned, Pow2, UnsignedValue;
    if v < 0 && n == 5 {
      DivModUnique(v + Pow2(35), Pow2(32), 7, v + 0x1_0000_0000);
    } else {
      SmallMod(if v < 0 then v + Pow2(7 * n) else v, Pow2(32));
    }
  }

  /** For instance, -1 is read as 127. */
  lemma MinusOneMisread()
    ensures EncodeSigned(-1) == [0x7F] && Misread(0xFFFF_FFFF) == 127
  {
    Powers27();
  }
}
