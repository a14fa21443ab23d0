/**
 Primitive layer of the descriptor codec: LEB128 varints, zig-zag, strings, presence
 tags and counted vectors. `Put*(x, rest)` is the encoding of `x` in front of `rest`;
 `Get*(bytes)` reads one value off the front.
 */
module Wire {
  import opened Wrappers
  import opened Utf8

  const U64_LIMIT := 0x1_0000_0000_0000_0000
  const I32_MAX := 0x7FFF_FFFF

  type u32 = v: int | 0 <= v < 0x1_0000_0000
  type u64 = v: int | 0 <= v < U64_LIMIT
  type i64 = v: int | -0x8000_0000_0000_0000 <= v < 0x8000_0000_0000_0000
  type i32 = v: int | -0x8000_0000 <= v < 0x8000_0000

  datatype CodecError = UnexpectedEnd | VarintTooLong | LengthExceedsInput | InvalidUtf8 | UnknownDiscriminant

  /** A decoded value and the bytes after it. */
  type Got<T> = Result<(T, Bytes), CodecError>

  /** Every success of `get` consumes at least one byte. */
  ghost predicate Shrinks<T>(get: Bytes -> Got<T>) {
    forall bs :: get(bs).Success? ==> |get(bs).value.1| < |bs|
  }

  /** `put` never looks at what follows. */
  ghost predicate Frames<T(!new)>(put: (T, Bytes) -> Bytes) {
    forall x, a, b :: put(x, a + b) == put(x, a) + b
  }

  /**
   `get` reads back what `put` wrote, up to `clear`, and leaves exactly what followed;
   `put` writes at least one byte. The size bound is the address space: lengths are written as 64-bit integers.
   */
  ghost predicate Inverts<T(!new)>(put: (T, Bytes) -> Bytes, get: Bytes -> Got<T>, clear: T -> T) {
    && (forall x, rest :: |rest| < |put(x, rest)|)
    && (forall x, rest :: |put(x, rest)| < U64_LIMIT ==> get(put(x, rest)) == Success((clear(x), rest)))
    && Frames(put)
  }

  function Same<T>(x: T): T { x }

  // ----- varints -----

  function Pow2(n: nat): (p: nat)
    ensures p > 0
  {
    if n == 0 then 1 else 2 * Pow2(n - 1)
  }

  lemma Pow2Seven(n: nat)
    ensures Pow2(n + 7) == 0x80 * Pow2(n)
  {
    assert Pow2(n + 7) == 2 * Pow2(n + 6) == 4 * Pow2(n + 5) == 8 * Pow2(n + 4);
    assert Pow2(n + 4) == 2 * Pow2(n + 3) == 4 * Pow2(n + 2) == 8 * Pow2(n + 1);
  }

  lemma Pow2Of64()
    ensures Pow2(64) == U64_LIMIT
  {
    Pow2Seven(1); Pow2Seven(8); Pow2Seven(15); Pow2Seven(22); Pow2Seven(29);
    Pow2Seven(36); Pow2Seven(43); Pow2Seven(50); Pow2Seven(57);
  }

  lemma {:induction false} Pow2Monotone(m: nat, n: nat)
    requires m <= n
    ensures Pow2(m) <= Pow2(n)
    decreases n
  {
    if m < n {
      Pow2Monotone(m, n - 1);
    }
  }

  function PutUvarint(v: nat, rest: Bytes): (bs: Bytes)
    ensures |rest| < |bs|
    decreases v
  {
    if v < 0x80 then [v] + rest else [v % 0x80 + 0x80] + PutUvarint(v / 0x80, rest)
  }

  /** The payload of one varint byte when only `bits` bits of the result are left to fill. */
  function Digit(b: u8, bits: int): nat
    requires bits > 0
  {
    if bits >= 7 then b % 0x80 else b % 0x80 % Pow2(bits)
  }

  function GetUvarintBits(bs: Bytes, bits: int): (r: Got<nat>)
    ensures r.Success? ==> |r.value.1| < |bs|
    decreases |bs|
  {
    if bs == [] then Failure(UnexpectedEnd)
    else if bits <= 0 then Failure(VarintTooLong)
    else if bs[0] < 0x80 then Success((Digit(bs[0], bits), bs[1..]))
    else
      var (high, rest) :- GetUvarintBits(bs[1..], bits - 7);
      Success((Digit(bs[0], bits) + 0x80 * high, rest))
  }

  lemma {:induction false} UvarintInRange(bs: Bytes, bits: nat)
    ensures GetUvarintBits(bs, bits).Success? ==> GetUvarintBits(bs, bits).value.0 < Pow2(bits)
    decreases |bs|
  {
    if bs != [] && bits > 0 {
      if bits >= 7 {
        Pow2Seven(bits - 7);
        UvarintInRange(bs[1..], bits - 7);
      }
    }
  }

  function GetUvarint(bs: Bytes): (r: Got<u64>)
    ensures r.Success? ==> |r.value.1| < |bs|
  {
    UvarintInRange(bs, 64);
    Pow2Of64();
    var (v, rest) :- GetUvarintBits(bs, 64);
    Success((v, rest))
  }

  lemma SmallMod(v: nat, m: nat)
    requires v < m
    ensures v % m == v
  {}

  lemma DigitOfSmall(v: nat, bits: nat)
    requires bits > 0 && v < 0x80 && v < Pow2(bits)
    ensures Digit(v, bits) == v
  {
    SmallMod(v, 0x80);
    SmallMod(v, Pow2(bits));
  }

  lemma HighDigits(v: nat, bits: nat)
    requires 0x80 <= v < Pow2(bits)
    ensures 7 < bits && v / 0x80 < Pow2(bits - 7)
  {
    assert bits > 7 by {
      Pow2Seven(0);
      if bits <= 7 { Pow2Monotone(bits, 7); }
    }
    Pow2Seven(bits - 7);
  }

  lemma {:induction false} UvarintBitsRoundTrip(v: nat, bits: nat, rest: Bytes)
    requires bits > 0 && v < Pow2(bits)
    ensures GetUvarintBits(PutUvarint(v, rest), bits) == Success((v, rest))
    decreases v
  {
    var bs := PutUvarint(v, rest);
    if v < 0x80 {
      DigitOfSmall(v, bits);
      assert bs[1..] == rest;
    } else {
      HighDigits(v, bits);
      UvarintBitsRoundTrip(v / 0x80, bits - 7, rest);
      assert bs[1..] == PutUvarint(v / 0x80, rest);
      assert bs[0] == v % 0x80 + 0x80;
      assert Digit(bs[0], bits) == v % 0x80;
    }
  }

  lemma UvarintRoundTrip(v: u64, rest: Bytes)
    ensures GetUvarint(PutUvarint(v, rest)) == Success((v, rest))
  {
    Pow2Of64();
    UvarintBitsRoundTrip(v, 64, rest);
  }

  lemma {:induction false} PutUvarintFrames(v: nat, a: Bytes, b: Bytes)
    ensures PutUvarint(v, a + b) == PutUvarint(v, a) + b
    decreases v
  {
    if v < 0x80 {
      assert [v] + (a + b) == [v] + a + b;
    } else {
      PutUvarintFrames(v / 0x80, a, b);
    }
  }

  /** Reading is unaffected by bytes added after what it consumed. */
  lemma {:induction false} UvarintExtends(bs: Bytes, bits: int, more: Bytes)
    requires GetUvarintBits(bs, bits).Success?
    ensures GetUvarintBits(bs + more, bits)
         == Success((GetUvarintBits(bs, bits).value.0, GetUvarintBits(bs, bits).value.1 + more))
    decreases |bs|
  {
    assert (bs + more)[1..] == bs[1..] + more;
    if bs[0] >= 0x80 {
      UvarintExtends(bs[1..], bits - 7, more);
    }
  }

  // ----- zig-zag -----

  function ZigZag(v: i64): u64 {
    if v >= 0 then 2 * v else -2 * v - 1
  }

  function UnZigZag(z: u64): i64 {
    if z % 2 == 0 then z / 2 else -(z / 2) - 1
  }

  /** The `as i32` cast: the low 32 bits in two's complement. */
  function Wrap32(v: int): i32 {
    var low := v % 0x1_0000_0000;
    if low < 0x8000_0000 then low else low - 0x1_0000_0000
  }

  function PutI32(v: i32, rest: Bytes): Bytes { PutUvarint(ZigZag(v), rest) }

  function GetIvarint(bs: Bytes): Got<i64> {
    var (z, rest) :- GetUvarint(bs);
    Success((UnZigZag(z), rest))
  }

  function GetI32(bs: Bytes): (r: Got<i32>)
    ensures r.Success? ==> |r.value.1| < |bs|
  {
    var (v, rest) :- GetIvarint(bs);
    Success((Wrap32(v), rest))
  }

  function PutI64(v: i64, rest: Bytes): Bytes { PutUvarint(ZigZag(v), rest) }

  function PutU64(v: u64, rest: Bytes): Bytes { PutUvarint(v, rest) }

  lemma I32Inverts()
    ensures Inverts(PutI32, GetI32, Same<i32>)
  {
    forall x: i32, rest: Bytes
      ensures GetI32(PutI32(x, rest)) == Success((x, rest))
    {
      UvarintRoundTrip(ZigZag(x), rest);
    }
    forall x: i32, a: Bytes, b: Bytes
      ensures PutI32(x, a + b) == PutI32(x, a) + b
    {
      PutUvarintFrames(ZigZag(x), a, b);
    }
  }

  lemma I64Inverts()
    ensures Inverts(PutI64, GetIvarint, Same<i64>)
  {
    forall x: i64, rest: Bytes
      ensures GetIvarint(PutI64(x, rest)) == Success((x, rest))
    {
      UvarintRoundTrip(ZigZag(x), rest);
    }
    forall x: i64, a: Bytes, b: Bytes
      ensures PutI64(x, a + b) == PutI64(x, a) + b
    {
      PutUvarintFrames(ZigZag(x), a, b);
    }
  }

  lemma U64Inverts()
    ensures Inverts(PutU64, GetUvarint, Same<u64>)
  {
    forall x: u64, rest: Bytes
      ensures GetUvarint(PutU64(x, rest)) == Success((x, rest))
    {
      UvarintRoundTrip(x, rest);
    }
    forall x: u64, a: Bytes, b: Bytes
      ensures PutU64(x, a + b) == PutU64(x, a) + b
    {
      PutUvarintFrames(x, a, b);
    }
  }

  // ----- bytes, booleans, strings -----

  function PutBool(v: bool, rest: Bytes): Bytes {
    [if v then 1 else 0] + rest
  }

  function GetU8(bs: Bytes): (r: Got<u8>)
    ensures r.Success? ==> |r.value.1| < |bs|
  {
    if bs == [] then Failure(UnexpectedEnd) else Success((bs[0], bs[1..]))
  }

  function GetBool(bs: Bytes): (r: Got<bool>)
    ensures r.Success? ==> |r.value.1| < |bs|
  {
    var (b, rest) :- GetU8(bs);
    Success((b != 0, rest))
  }

  lemma BoolInverts()
    ensures Inverts(PutBool, GetBool, Same<bool>)
  {}

  function PutBytes(v: Bytes, rest: Bytes): (bs: Bytes)
    ensures |v| + |rest| < |bs|
  {
    PutUvarint(|v|, v + rest)
  }

  function GetBytes(bs: Bytes): (r: Got<Bytes>)
    ensures r.Success? ==> |r.value.1| < |bs|
  {
    var (len, rest) :- GetUvarint(bs);
    if len > |rest| then Failure(LengthExceedsInput) else Success((rest[..len], rest[len..]))
  }

  function PutStr(s: string, rest: Bytes): Bytes { PutBytes(Encode(s), rest) }

  function GetStr(bs: Bytes): (r: Got<string>)
    ensures r.Success? ==> |r.value.1| < |bs|
  {
    var (raw, rest) :- GetBytes(bs);
    match Decode(raw)
    case Some(s) => Success((s, rest))
    case None => Failure(InvalidUtf8)
  }

  lemma BytesRoundTrip(v: Bytes, rest: Bytes)
    requires |v| < U64_LIMIT
    ensures GetBytes(PutBytes(v, rest)) == Success((v, rest))
  {
    UvarintRoundTrip(|v|, v + rest);
    assert (v + rest)[..|v|] == v && (v + rest)[|v|..] == rest;
  }

  lemma PutBytesFrames(v: Bytes, a: Bytes, b: Bytes)
    ensures PutBytes(v, a + b) == PutBytes(v, a) + b
  {
    assert v + (a + b) == v + a + b;
    PutUvarintFrames(|v|, v + a, b);
  }

  lemma BytesInverts()
    ensures Inverts(PutBytes, GetBytes, Same<Bytes>)
  {
    forall x: Bytes, rest: Bytes | |PutBytes(x, rest)| < U64_LIMIT
      ensures GetBytes(PutBytes(x, rest)) == Success((x, rest))
    {
      BytesRoundTrip(x, rest);
    }
    forall x: Bytes, a: Bytes, b: Bytes
      ensures PutBytes(x, a + b) == PutBytes(x, a) + b
    {
      PutBytesFrames(x, a, b);
    }
  }

  lemma StrInverts()
    ensures Inverts(PutStr, GetStr, Same<string>)
  {
    forall s: string, rest: Bytes | |PutStr(s, rest)| < U64_LIMIT
      ensures GetStr(PutStr(s, rest)) == Success((s, rest))
    {
      BytesRoundTrip(Encode(s), rest);
      DecodeEncode(s);
    }
    forall s: string, a: Bytes, b: Bytes
      ensures PutStr(s, a + b) == PutStr(s, a) + b
    {
      PutBytesFrames(Encode(s), a, b);
    }
  }

  // ----- presence tags -----

  function PutOpt<T>(put: (T, Bytes) -> Bytes, o: Option<T>, rest: Bytes): Bytes {
    match o
    case Some(x) => [1] + put(x, rest)
    case None => [0] + rest
  }

  function GetOpt<T>(get: Bytes -> Got<T>, bs: Bytes): (r: Got<Option<T>>)
    requires Shrinks(get)
    ensures r.Success? ==> |r.value.1| < |bs|
  {
    var (tag, after) :- GetU8(bs);
    if tag == 1 then
      var (x, rest) :- get(after);
      Success((Some(x), rest))
    else Success((None, after))
  }

  lemma OptFacts<T(!new)>(put: (T, Bytes) -> Bytes, get: Bytes -> Got<T>)
    requires Inverts(put, get, Same) && Shrinks(get)
    ensures forall o, rest {:trigger PutOpt(put, o, rest)} :: |rest| < |PutOpt(put, o, rest)|
    ensures forall o, rest {:trigger PutOpt(put, o, rest)} :: |PutOpt(put, o, rest)| < U64_LIMIT ==>
              GetOpt(get, PutOpt(put, o, rest)) == Success((o, rest))
    ensures forall o, a, b {:trigger PutOpt(put, o, a + b)} :: PutOpt(put, o, a + b) == PutOpt(put, o, a) + b
  {}

  // ----- counted vectors -----

  function PutItems<T>(put: (T, Bytes) -> Bytes, items: seq<T>, rest: Bytes): Bytes {
    if items == [] then rest else put(items[0], PutItems(put, items[1..], rest))
  }

  function PutVec<T>(put: (T, Bytes) -> Bytes, items: seq<T>, rest: Bytes): Bytes {
    PutUvarint(|items|, PutItems(put, items, rest))
  }

  function GetItems<T>(get: Bytes -> Got<T>, n: nat, bs: Bytes): (r: Got<seq<T>>)
    requires Shrinks(get)
    ensures r.Success? ==> |r.value.0| == n && |r.value.1| + n <= |bs|
    decreases n
  {
    if n == 0 then Success(([], bs))
    else
      var (x, after) :- get(bs);
      var (xs, rest) :- GetItems(get, n - 1, after);
      Success(([x] + xs, rest))
  }

  function GetVec<T>(get: Bytes -> Got<T>, bs: Bytes): (r: Got<seq<T>>)
    requires Shrinks(get)
    ensures r.Success? ==> |r.value.1| < |bs|
  {
    var (n, after) :- GetUvarint(bs);
    GetItems(get, n, after)
  }

  function MapSeq<T>(f: T -> T, xs: seq<T>): (r: seq<T>)
    ensures |r| == |xs|
    ensures forall i :: 0 <= i < |xs| ==> r[i] == f(xs[i])
  {
    seq(|xs|, i requires 0 <= i < |xs| => f(xs[i]))
  }

  lemma {:induction false} PutItemsGrows<T(!new)>(put: (T, Bytes) -> Bytes, get: Bytes -> Got<T>, clear: T -> T,
                                                  items: seq<T>, rest: Bytes)
    requires Inverts(put, get, clear)
    ensures |items| + |rest| <= |PutItems(put, items, rest)|
  {
    if items != [] {
      PutItemsGrows(put, get, clear, items[1..], rest);
    }
  }

  lemma {:induction false} ItemsRoundTrip<T(!new)>(put: (T, Bytes) -> Bytes, get: Bytes -> Got<T>, clear: T -> T,
                                                   items: seq<T>, rest: Bytes)
    requires Inverts(put, get, clear) && Shrinks(get)
    requires |PutItems(put, items, rest)| < U64_LIMIT
    ensures GetItems(get, |items|, PutItems(put, items, rest)) == Success((MapSeq(clear, items), rest))
  {
    if items != [] {
      var tail := PutItems(put, items[1..], rest);
      assert |tail| < |put(items[0], tail)|;
      ItemsRoundTrip(put, get, clear, items[1..], rest);
      assert MapSeq(clear, items) == [clear(items[0])] + MapSeq(clear, items[1..]);
    }
  }

  lemma VecRoundTrip<T(!new)>(put: (T, Bytes) -> Bytes, get: Bytes -> Got<T>, clear: T -> T,
                              items: seq<T>, rest: Bytes)
    requires Inverts(put, get, clear) && Shrinks(get)
    ensures |rest| < |PutVec(put, items, rest)|
    ensures |PutVec(put, items, rest)| < U64_LIMIT ==>
              GetVec(get, PutVec(put, items, rest)) == Success((MapSeq(clear, items), rest))
  {
    PutItemsGrows(put, get, clear, items, rest);
    if |PutVec(put, items, rest)| < U64_LIMIT {
      UvarintRoundTrip(|items|, PutItems(put, items, rest));
      ItemsRoundTrip(put, get, clear, items, rest);
    }
  }

  lemma {:induction false} PutItemsFrames<T(!new)>(put: (T, Bytes) -> Bytes, items: seq<T>, a: Bytes, b: Bytes)
    requires Frames(put)
    ensures PutItems(put, items, a + b) == PutItems(put, items, a) + b
  {
    if items != [] {
      PutItemsFrames(put, items[1..], a, b);
      var inner := PutItems(put, items[1..], a);
      assert put(items[0], inner + b) == put(items[0], inner) + b;
    }
  }

  lemma VecFacts<T(!new)>(put: (T, Bytes) -> Bytes, get: Bytes -> Got<T>, clear: T -> T)
    requires Inverts(put, get, clear) && Shrinks(get)
    ensures forall xs, rest {:trigger PutVec(put, xs, rest)} :: |rest| < |PutVec(put, xs, rest)|
    ensures forall xs, rest {:trigger PutVec(put, xs, rest)} :: |PutVec(put, xs, rest)| < U64_LIMIT ==>
              GetVec(get, PutVec(put, xs, rest)) == Success((MapSeq(clear, xs), rest))
    ensures forall xs, a, b {:trigger PutVec(put, xs, a + b)} :: PutVec(put, xs, a + b) == PutVec(put, xs, a) + b
  {
    forall xs: seq<T>, rest: Bytes
      ensures |rest| < |PutVec(put, xs, rest)|
      ensures |PutVec(put, xs, rest)| < U64_LIMIT ==>
                GetVec(get, PutVec(put, xs, rest)) == Success((MapSeq(clear, xs), rest))
    {
      VecRoundTrip(put, get, clear, xs, rest);
    }
    forall xs: seq<T>, a: Bytes, b: Bytes
      ensures PutVec(put, xs, a + b) == PutVec(put, xs, a) + b
    {
      PutItemsFrames(put, xs, a, b);
      PutUvarintFrames(|xs|, PutItems(put, xs, a), b);
    }
  }

  /** `VecFacts` for elements that come back unchanged. */
  lemma PlainVecFacts<T(!new)>(put: (T, Bytes) -> Bytes, get: Bytes -> Got<T>)
    requires Inverts(put, get, Same) && Shrinks(get)
    ensures forall xs, rest {:trigger PutVec(put, xs, rest)} :: |rest| < |PutVec(put, xs, rest)|
    ensures forall xs, rest {:trigger PutVec(put, xs, rest)} :: |PutVec(put, xs, rest)| < U64_LIMIT ==>
              GetVec(get, PutVec(put, xs, rest)) == Success((xs, rest))
    ensures forall xs, a, b {:trigger PutVec(put, xs, a + b)} :: PutVec(put, xs, a + b) == PutVec(put, xs, a) + b
  {
    VecFacts(put, get, Same);
    assert forall xs: seq<T> :: MapSeq(Same, xs) == xs;
  }
}
