/**
 The mutable byte cursors of the codec. Each write appends exactly the `Wire` encoding
 to the buffer; each read returns what the `Wire` decoder returns on the unread bytes and,
 on success, moves past exactly the bytes that decoder consumed.
 */
module Cursors {
  import opened Wrappers
  import opened Utf8
  import opened Wire

  /** What a decoder leaves is the tail of what it was given. */
  ghost predicate LeavesTail<T(!new)>(get: Bytes -> Got<T>) {
    forall bs :: get(bs).Success? ==> IsTail(get(bs).value.1, bs)
  }

  ghost predicate IsTail(rest: Bytes, bs: Bytes) {
    |rest| <= |bs| && rest == bs[|bs| - |rest|..]
  }

  lemma TailOfTail(a: Bytes, b: Bytes, c: Bytes)
    requires IsTail(a, b) && IsTail(b, c)
    ensures IsTail(a, c)
  {}

  lemma {:induction false} UvarintBitsLeavesTail(bs: Bytes, bits: int)
    requires GetUvarintBits(bs, bits).Success?
    ensures IsTail(GetUvarintBits(bs, bits).value.1, bs)
    decreases |bs|
  {
    assert IsTail(bs[1..], bs);
    if bs[0] >= 0x80 {
      UvarintBitsLeavesTail(bs[1..], bits - 7);
      TailOfTail(GetUvarintBits(bs, bits).value.1, bs[1..], bs);
    }
  }

  /** The integer decoders leave a tail. */
  lemma IntegersLeaveTail()
    ensures LeavesTail(GetUvarint) && LeavesTail(GetIvarint) && LeavesTail(GetI32)
  {
    forall bs | GetUvarint(bs).Success? ensures IsTail(GetUvarint(bs).value.1, bs) {
      UvarintBitsLeavesTail(bs, 64);
    }
  }

  /** So do the decoders of bytes and strings. */
  lemma StringsLeaveTail()
    ensures LeavesTail(GetBytes) && LeavesTail(GetStr)
  {
    forall bs | GetBytes(bs).Success? ensures IsTail(GetBytes(bs).value.1, bs) {
      var (len, rest) := GetUvarint(bs).value;
      UvarintBitsLeavesTail(bs, 64);
      TailOfTail(rest[len..], rest, bs);
    }
  }

  lemma {:induction false} ItemsLeaveTail<T(!new)>(get: Bytes -> Got<T>, n: nat, bs: Bytes)
    requires Shrinks(get) && LeavesTail(get) && GetItems(get, n, bs).Success?
    ensures IsTail(GetItems(get, n, bs).value.1, bs)
    decreases n
  {
    if n > 0 {
      ItemsLeaveTail(get, n - 1, get(bs).value.1);
      TailOfTail(GetItems(get, n, bs).value.1, get(bs).value.1, bs);
    }
  }

  /** A counted list leaves a tail when its elements do. */
  lemma VecsLeaveTail<T(!new)>(get: Bytes -> Got<T>, bs: Bytes)
    requires Shrinks(get) && LeavesTail(get) && GetVec(get, bs).Success?
    ensures IsTail(GetVec(get, bs).value.1, bs)
  {
    var (n, after) := GetUvarint(bs).value;
    UvarintBitsLeavesTail(bs, 64);
    ItemsLeaveTail(get, n, after);
    TailOfTail(GetVec(get, bs).value.1, after, bs);
  }

  lemma UvarintThen(v: nat, tail: Bytes)
    ensures PutUvarint(v, tail) == PutUvarint(v, []) + tail
  {
    PutUvarintFrames(v, [], tail);
    assert [] + tail == tail;
  }

  lemma LengthThenBytes(b: Bytes)
    requires |b| < U64_LIMIT
    ensures PutBytes(b, []) == PutUvarint(|b|, []) + b
  {
    assert b + [] == b;
    UvarintThen(|b|, b);
  }

  lemma CountThenItems<T(!new)>(put: (T, Bytes) -> Bytes, items: seq<T>)
    requires |items| < U64_LIMIT
    ensures PutVec(put, items, []) == PutUvarint(|items|, []) + PutItems(put, items, [])
  {
    UvarintThen(|items|, PutItems(put, items, []));
  }

  class Writer {
    var buf: Bytes

    constructor ()
      ensures buf == []
    {
      buf := [];
    }

    method WriteU8(v: u8)
      modifies this
      ensures buf == old(buf) + [v]
    {
      buf := buf + [v];
    }

    method WriteUvarint(value: u64)
      modifies this
      ensures buf == old(buf) + PutUvarint(value, [])
    {
      var v: int := value;
      while true
        invariant 0 <= v
        invariant buf + PutUvarint(v, []) == old(buf) + PutUvarint(value, [])
        decreases v
      {
        var byte := v % 0x80;
        ghost var before := buf;
        ghost var whole := v;
        v := v / 0x80;
        if v != 0 {
          byte := byte + 0x80;
        }
        buf := buf + [byte];
        if v == 0 {
          assert PutUvarint(whole, []) == [byte];
          break;
        }
        assert PutUvarint(whole, []) == [byte] + PutUvarint(v, []);
        assert before + ([byte] + PutUvarint(v, [])) == buf + PutUvarint(v, []);
      }
    }

    method WriteIvarint(v: i64)
      modifies this
      ensures buf == old(buf) + PutI64(v, [])
    {
      WriteUvarint(ZigZag(v));
    }

    method WriteBytes(b: Bytes)
      requires |b| < U64_LIMIT
      modifies this
      ensures buf == old(buf) + PutBytes(b, [])
    {
      WriteUvarint(|b|);
      buf := buf + b;
      LengthThenBytes(b);
    }

    method WriteStr(s: string)
      requires |Encode(s)| < U64_LIMIT
      modifies this
      ensures buf == old(buf) + PutStr(s, [])
    {
      WriteBytes(Encode(s));
    }

    method WriteOpt<T(!new)>(put: (T, Bytes) -> Bytes, o: Option<T>)
      modifies this
      ensures buf == old(buf) + PutOpt(put, o, [])
    {
      match o
      case Some(x) =>
        WriteU8(1);
        buf := buf + put(x, []);
      case None =>
        WriteU8(0);
    }

    method WriteVec<T(!new)>(put: (T, Bytes) -> Bytes, items: seq<T>)
      requires Frames(put)
      requires |items| < U64_LIMIT
      modifies this
      ensures buf == old(buf) + PutVec(put, items, [])
    {
      WriteUvarint(|items|);
      ghost var header := buf;
      var i := 0;
      while i < |items|
        invariant 0 <= i <= |items|
        invariant buf + PutItems(put, items[i..], []) == header + PutItems(put, items, [])
      {
        ItemInFront(put, items, i, buf);
        buf := buf + put(items[i], []);
        i := i + 1;
      }
      assert items[i..] == [] && buf + [] == buf;
      CountThenItems(put, items);
    }

    static lemma ItemInFront<T(!new)>(put: (T, Bytes) -> Bytes, items: seq<T>, i: nat, before: Bytes)
      requires Frames(put)
      requires i < |items|
      ensures before + PutItems(put, items[i..], []) == before + put(items[i], []) + PutItems(put, items[i + 1..], [])
    {
      var tail := PutItems(put, items[i + 1..], []);
      assert items[i..][1..] == items[i + 1..];
      assert [] + tail == tail;
      assert put(items[i], [] + tail) == put(items[i], []) + tail;
    }
  }

  class Reader {
    const buf: Bytes
    var pos: nat

    ghost predicate Valid()
      reads this
    {
      pos <= |buf|
    }

    /** The unread bytes. */
    ghost function Rest(): Bytes
      requires Valid()
      reads this
    {
      buf[pos..]
    }

    /** The outcome of a read against the decoder's answer on the bytes that were unread. */
    ghost predicate Agrees<T>(answer: Got<T>, r: Result<T, CodecError>)
      reads this
    {
      && Valid()
      && match answer
         case Success(got) => r == Success(got.0) && Rest() == got.1
         case Failure(e) => r == Failure(e)
    }

    constructor (bytes: Bytes)
      ensures Valid() && buf == bytes && Rest() == bytes
    {
      buf := bytes;
      pos := 0;
    }

    method ReadU8() returns (r: Result<u8, CodecError>)
      requires Valid()
      modifies this`pos
      ensures Agrees(GetU8(old(Rest())), r)
      ensures r.Success? ==> pos == old(pos) + 1
      ensures r.Failure? ==> pos == old(pos)
    {
      if pos >= |buf| {
        return Failure(UnexpectedEnd);
      }
      var b := buf[pos];
      pos := pos + 1;
      r := Success(b);
    }

    static lemma TopDigit(d: nat)
      ensures d * Pow2(63) % U64_LIMIT == d % 2 * Pow2(63)
    {
      Pow2Of64();
      var p := Pow2(63);
      assert U64_LIMIT == 2 * p;
      assert d * p == d / 2 * U64_LIMIT + d % 2 * p;
    }

    static lemma LowerDigit(d: nat, shift: nat)
      requires d < 0x80 && shift <= 56
      ensures d * Pow2(shift) % U64_LIMIT == d * Pow2(shift)
    {
      Pow2Monotone(shift, 56);
      Pow2Seven(56);
      Pow2Of64();
      assert 2 * Pow2(63) == U64_LIMIT;
      Untruncated(d, Pow2(shift), U64_LIMIT);
    }

    static lemma Untruncated(d: nat, p: nat, limit: nat)
      requires d < 0x80 && 0x80 * p < limit
      ensures d * p % limit == d * p
    {
      assert 0x80 * p == d * p + (0x80 - d) * p;
      SmallMod(d * p, limit);
    }

    /** `(byte & 0x7f) << shift` on 64 bits. */
    static function ShiftedIn(b: u8, shift: nat): nat {
      b % 0x80 * Pow2(shift) % U64_LIMIT
    }

    static lemma ShiftedDigit(b: u8, shift: nat)
      requires shift % 7 == 0 && shift < 64
      ensures ShiftedIn(b, shift) == Digit(b, 64 - shift) * Pow2(shift)
    {
      if shift == 63 {
        TopDigit(b % 0x80);
        assert Pow2(1) == 2 * Pow2(0);
      } else {
        LowerDigit(b % 0x80, shift);
      }
    }

    /** What the bits still to be read contribute above the `shift` bits already in `low`. */
    static ghost function Above(low: nat, shift: nat, high: Got<nat>): Got<nat> {
      match high
      case Success(got) => Success((low + got.0 * Pow2(shift), got.1))
      case Failure(e) => Failure(e)
    }

    /** A digit `d` in front of what is still to come moves into `low`. */
    static lemma DigitIntoLow(low: nat, shift: nat, d: nat, rest: Got<nat>)
      ensures Pow2(shift + 7) == 0x80 * Pow2(shift)
      ensures rest.Success? ==>
                Above(low, shift, Success((d + 0x80 * rest.value.0, rest.value.1)))
                == Above(low + d * Pow2(shift), shift + 7, rest)
    {
      Pow2Seven(shift);
      if rest.Success? {
        Regroup(d, rest.value.0, Pow2(shift));
      }
    }

    /** One byte of a varint: it is the last, or its seven bits join `low` and reading goes on. */
    static lemma {:induction false} ReadDigit(bytes: Bytes, shift: nat, low: nat, next: nat)
      requires bytes != [] && shift % 7 == 0 && shift < 64
      requires next == low + Digit(bytes[0], 64 - shift) * Pow2(shift)
      ensures Above(low, shift, GetUvarintBits(bytes, 64 - shift))
           == if bytes[0] < 0x80 then Success((next, bytes[1..]))
              else Above(next, shift + 7, GetUvarintBits(bytes[1..], 64 - shift - 7))
    {
      if bytes[0] >= 0x80 {
        DigitIntoLow(low, shift, Digit(bytes[0], 64 - shift), GetUvarintBits(bytes[1..], 64 - shift - 7));
      }
    }

    static lemma ReadByte(bytes: Bytes, shift: nat, low: nat)
      requires bytes != [] && shift % 7 == 0 && shift < 64
      ensures Above(low, shift, GetUvarintBits(bytes, 64 - shift))
           == if bytes[0] < 0x80 then Success((low + ShiftedIn(bytes[0], shift), bytes[1..]))
              else Above(low + ShiftedIn(bytes[0], shift), shift + 7, GetUvarintBits(bytes[1..], 64 - shift - 7))
    {
      ShiftedDigit(bytes[0], shift);
      ReadDigit(bytes, shift, low, low + ShiftedIn(bytes[0], shift));
    }

    method ReadUvarint() returns (r: Result<u64, CodecError>)
      requires Valid()
      modifies this`pos
      ensures Agrees(GetUvarint(old(Rest())), r)
    {
      UvarintInRange(Rest(), 64);
      Pow2Of64();
      var value :- ReadDigits();
      r := Success(value);
    }

    /** The shifting loop. */
    method ReadDigits() returns (r: Result<nat, CodecError>)
      requires Valid()
      modifies this`pos
      ensures Agrees(GetUvarintBits(old(Rest()), 64), r)
    {
      ghost var start := Rest();
      var result: nat := 0;
      var shift: nat := 0;
      while true
        invariant Valid()
        invariant shift % 7 == 0 && shift <= 70
        invariant GetUvarintBits(start, 64) == Above(result, shift, GetUvarintBits(Rest(), 64 - shift))
        decreases |buf| - pos
      {
        ghost var unread := Rest();
        var byte :- ReadU8();
        assert byte == unread[0] && Rest() == unread[1..];
        if shift >= 64 {
          return Failure(VarintTooLong);
        }
        ReadByte(unread, shift, result);
        // The bits shifted in lie above every bit already set, so `|` is `+`.
        result := result + ShiftedIn(byte, shift);
        if byte < 0x80 {
          break;
        }
        shift := shift + 7;
      }
      r := Success(result);
    }

    static lemma Regroup(d: nat, h: nat, p: nat)
      ensures (d + 0x80 * h) * p == d * p + h * (0x80 * p)
    {}

    method ReadIvarint() returns (r: Result<i64, CodecError>)
      requires Valid()
      modifies this`pos
      ensures Agrees(GetIvarint(old(Rest())), r)
    {
      var zz :- ReadUvarint();
      r := Success(UnZigZag(zz));
    }

    method ReadBytes() returns (r: Result<Bytes, CodecError>)
      requires Valid()
      modifies this`pos
      ensures Agrees(GetBytes(old(Rest())), r)
    {
      var len :- ReadUvarint();
      if pos + len > |buf| {
        return Failure(LengthExceedsInput);
      }
      var v := buf[pos..pos + len];
      ghost var rest := Rest();
      assert v == rest[..len] && buf[pos + len..] == rest[len..];
      pos := pos + len;
      r := Success(v);
    }

    method ReadStr() returns (r: Result<string, CodecError>)
      requires Valid()
      modifies this`pos
      ensures Agrees(GetStr(old(Rest())), r)
    {
      var raw :- ReadBytes();
      match Decode(raw)
      case Some(s) => r := Success(s);
      case None => r := Failure(InvalidUtf8);
    }

    /** Run one decoder at the cursor. */
    method ReadOne<T(!new)>(get: Bytes -> Got<T>) returns (r: Result<T, CodecError>)
      requires Valid()
      requires LeavesTail(get)
      modifies this`pos
      ensures Agrees(get(old(Rest())), r)
    {
      match get(buf[pos..])
      case Failure(e) => r := Failure(e);
      case Success(got) =>
        assert IsTail(got.1, buf[pos..]);
        pos := |buf| - |got.1|;
        r := Success(got.0);
    }

    method ReadVec<T(!new)>(get: Bytes -> Got<T>) returns (r: Result<seq<T>, CodecError>)
      requires Valid()
      requires Shrinks(get)
      requires LeavesTail(get)
      modifies this`pos
      ensures Agrees(GetVec(get, old(Rest())), r)
    {
      var len :- ReadUvarint();
      r := ReadItems(get, len);
    }

    /** The counted loop. */
    method ReadItems<T(!new)>(get: Bytes -> Got<T>, n: nat) returns (r: Result<seq<T>, CodecError>)
      requires Valid()
      requires Shrinks(get)
      requires LeavesTail(get)
      modifies this`pos
      ensures Agrees(GetItems(get, n, old(Rest())), r)
    {
      ghost var goal := GetItems(get, n, Rest());
      var out: seq<T> := [];
      var i := 0;
      PrependNone(goal);
      while i < n
        invariant Valid()
        invariant 0 <= i <= n
        invariant goal == Prepend(out, GetItems(get, n - i, Rest()))
      {
        NextItem(get, n - i, Rest());
        var item :- ReadOne(get);
        PrependTwice(out, item, GetItems(get, n - i - 1, Rest()));
        out := out + [item];
        i := i + 1;
      }
      assert out + [] == out;
      r := Success(out);
    }

    static lemma NextItem<T>(get: Bytes -> Got<T>, n: nat, unread: Bytes)
      requires Shrinks(get) && n > 0
      ensures get(unread).Failure? ==> GetItems(get, n, unread) == Failure(get(unread).error)
      ensures get(unread).Success? ==>
                GetItems(get, n, unread) == Prepend([get(unread).value.0], GetItems(get, n - 1, get(unread).value.1))
    {}

    static ghost function Prepend<T>(out: seq<T>, more: Got<seq<T>>): Got<seq<T>> {
      match more
      case Success(got) => Success((out + got.0, got.1))
      case Failure(e) => Failure(e)
    }

    static lemma PrependNone<T>(more: Got<seq<T>>)
      ensures Prepend([], more) == more
    {
      if more.Success? {
        assert [] + more.value.0 == more.value.0;
      }
    }

    static lemma PrependTwice<T>(out: seq<T>, x: T, more: Got<seq<T>>)
      ensures Prepend(out, Prepend([x], more)) == Prepend(out + [x], more)
    {
      if more.Success? {
        assert out + ([x] + more.value.0) == out + [x] + more.value.0;
      }
    }
  }
}
