/** The protobuf wire format by hand: varints, length-delimited fields and the
    cursor that reads them. */
module Wire {
  import opened Wrappers

  type Byte = b: int | 0 <= b < 256

  type Bytes = seq<Byte>

  const TWO_64: nat := 0x1_0000_0000_0000_0000

  type Uint64 = v: int | 0 <= v < TWO_64

  type Int64 = v: int | -0x8000_0000_0000_0000 <= v < 0x8000_0000_0000_0000

  /** Go strings and slices are shorter than 2^63. */
  type Text = s: Bytes | |s| < 0x8000_0000_0000_0000

  datatype Error = Truncated | Overflow | UnsupportedWire(wire: nat)

  /** What a read leaves: the value and the remaining bytes, or the error and the
      bytes that were not consumed before it. */
  datatype Read<T> = Got(value: T, rest: Bytes) | Fail(error: Error, rest: Bytes)

  function EncodeVarint(v: nat): (r: Bytes)
    ensures |r| > 0
  {
    if v < 128 then [v] else [v % 128 + 128] + EncodeVarint(v / 128)
  }

  function Pow2(n: nat): nat {
    if n == 0 then 1 else 2 * Pow2(n - 1)
  }

  /** `v |= uint64(b&0x7f) << shift` as arithmetic; bits past the 64th are lost. That
      or-ing is adding here is `AddBitsIsOr`. */
  function AddBits(v: Uint64, b: Byte, shift: nat): Uint64 {
    (v + (b % 128) * Pow2(shift) % TWO_64) % TWO_64
  }

  /** The varint loop from a state of its two variables. */
  function VarintFrom(data: Bytes, v: Uint64, shift: nat): (r: Read<Uint64>)
    ensures |r.rest| <= |data| && (r.Got? ==> |r.rest| < |data|)
    decreases |data|
  {
    if data == [] then Fail(Truncated, data)
    else
      var b, rest := data[0], data[1..];
      var sum := AddBits(v, b, shift);
      if b < 128 then Got(sum, rest)
      else if shift + 7 >= 64 then Fail(Overflow, rest)
      else VarintFrom(rest, sum, shift + 7)
  }

  function ReadVarint(data: Bytes): (r: Read<Uint64>)
    ensures |r.rest| <= |data| && (r.Got? ==> |r.rest| < |data|)
  {
    VarintFrom(data, 0, 0)
  }

  function ReadBytes(data: Bytes): (r: Read<Bytes>)
    ensures |r.rest| <= |data| && (r.Got? ==> |r.rest| < |data| && |r.value| < |data|)
  {
    match ReadVarint(data)
    case Fail(e, rest) => Fail(e, rest)
    case Got(n, rest) => if n > |rest| then Fail(Truncated, rest) else Got(rest[..n], rest[n..])
  }

  function ReadFixed(data: Bytes, size: nat): (r: Read<Bytes>)
    ensures |r.rest| <= |data|
  {
    if |data| < size then Fail(Truncated, data) else Got(data[..size], data[size..])
  }

  datatype Payload = Number(v: Uint64) | Chunk(bytes: Bytes)

  /** One field on the wire: its number, its wire type and what it carries. */
  datatype Record = Record(field: nat, wire: nat, payload: Payload)

  function Delimited(wire: nat, r: Read<Bytes>): Read<Payload> {
    match r
    case Fail(e, rest) => Fail(e, rest)
    case Got(b, rest) => Got(Chunk(b), rest)
  }

  /** How much a field's value occupies depends on its wire type alone. */
  function ReadPayload(wire: nat, data: Bytes): (r: Read<Payload>)
    ensures |r.rest| <= |data|
    ensures r.Got? && wire == 2 ==> r.value.Chunk? && |r.value.bytes| < |data|
    ensures r.Got? && wire == 0 ==> r.value.Number?
  {
    if wire == 0 then
      match ReadVarint(data)
      case Fail(e, rest) => Fail(e, rest)
      case Got(v, rest) => Got(Number(v), rest)
    else if wire == 1 then Delimited(wire, ReadFixed(data, 8))
    else if wire == 2 then Delimited(wire, ReadBytes(data))
    else if wire == 5 then Delimited(wire, ReadFixed(data, 4))
    else Fail(UnsupportedWire(wire), data)
  }

  function ReadRecord(data: Bytes): (r: Read<Record>)
    ensures |r.rest| <= |data| && (r.Got? ==> |r.rest| < |data|)
    ensures r.Got? && r.value.wire == 2 ==> r.value.payload.Chunk? && |r.value.payload.bytes| < |data|
    ensures r.Got? && r.value.wire == 0 ==> r.value.payload.Number?
  {
    match ReadVarint(data)
    case Fail(e, rest) => Fail(e, rest)
    case Got(tag, rest) =>
      match ReadPayload(tag % 8, rest)
      case Fail(e, left) => Fail(e, left)
      case Got(p, left) => Got(Record(tag / 8, tag % 8, p), left)
  }

  function EncodeTag(field: nat, wire: nat): Bytes { EncodeVarint(field * 8 + wire) }

  function EncodeNumber(field: nat, v: nat): Bytes { EncodeTag(field, 0) + EncodeVarint(v) }

  function EncodeChunk(field: nat, b: Bytes): Bytes { EncodeTag(field, 2) + EncodeVarint(|b|) + b }

  // Or-ing in bits above those that are set.

  /** Bitwise or. */
  function Or(a: nat, b: nat): nat
    decreases a
  {
    if a == 0 then b
    else if b == 0 then a
    else 2 * Or(a / 2, b / 2) + if a % 2 == 1 || b % 2 == 1 then 1 else 0
  }

  /** uint64(b&0x7f) << shift. */
  function Shifted(b: Byte, shift: nat): Uint64 {
    (b % 128) * Pow2(shift) % TWO_64
  }

  lemma OrEven(v: nat, half: nat)
    ensures Or(v, 2 * half) == 2 * Or(v / 2, half) + v % 2
  {
    assert (2 * half) / 2 == half && (2 * half) % 2 == 0;
  }

  lemma {:induction false} OrAdds(v: nat, k: nat, shift: nat)
    requires v < Pow2(shift)
    ensures Or(v, k * Pow2(shift)) == v + k * Pow2(shift)
    decreases shift
  {
    hide Or;
    if shift == 0 {
      OrZero(k);
    } else {
      OrAdds(v / 2, k, shift - 1);
      Doubled(k, Pow2(shift - 1));
      OrEven(v, k * Pow2(shift - 1));
    }
  }

  lemma OrZero(k: nat)
    ensures Or(0, k) == k
  {
  }

  lemma Doubled(k: nat, p: nat)
    ensures k * (2 * p) == 2 * (k * p)
  {
  }

  lemma Times(k: nat, p: nat, most: nat)
    requires k <= 127 && p <= most
    ensures k * p <= 127 * most
  {
    assert 127 * most - k * p == (127 - k) * p + 127 * (most - p);
  }

  /** Below the last shift, seven bits fit. */
  lemma SevenBitsFit(k: nat, shift: nat)
    requires shift < 63 && shift % 7 == 0 && k <= 127
    ensures k * Pow2(shift) + Pow2(shift) <= TWO_64
  {
    Pow2Is64();
    Pow2Step(56);
    Pow2Monotone(shift, 56);
    var p := Pow2(shift);
    assert Pow2(56) == 0x100_0000_0000_0000;
    hide Pow2;
    Times(k, p, 0x100_0000_0000_0000);
  }

  /** Past the 64th bit only the lowest of the seven is kept. */
  function Kept(b: Byte, shift: nat): nat {
    if shift == 63 then b % 2 else b % 128
  }

  lemma ShiftedIs(b: Byte, shift: nat)
    requires shift < 64 && shift % 7 == 0
    ensures Shifted(b, shift) == Kept(b, shift) * Pow2(shift)
    ensures Kept(b, shift) * Pow2(shift) + Pow2(shift) <= TWO_64
  {
    Pow2Is64();
    hide Pow2;
    if shift < 63 {
      SevenBitsFit(b % 128, shift);
      var d := (b % 128) * Pow2(shift);
      Pow2Positive(shift);
      Small(d);
    } else {
      LastShift(b % 128);
    }
  }

  lemma LastShift(x: nat)
    ensures (x * 0x8000_0000_0000_0000) % TWO_64 == (x % 2) * 0x8000_0000_0000_0000
  {
    assert x == 2 * (x / 2) + x % 2;
  }

  lemma Pow2Positive(n: nat)
    ensures Pow2(n) >= 1
  {
    Pow2Monotone(0, n);
  }

  /** While only bits below `shift` are set, as the loop keeps it. */
  lemma AddBitsIsOr(v: Uint64, b: Byte, shift: nat)
    requires shift < 64 && shift % 7 == 0 && v < Pow2(shift)
    ensures Or(v, Shifted(b, shift)) == AddBits(v, b, shift) < Pow2(shift + 7)
  {
    var k, p := Kept(b, shift), Pow2(shift);
    ShiftedIs(b, shift);
    OrAdds(v, k, shift);
    Pow2Step(shift);
    Times(k, p, p);
    hide Or, Pow2, Kept;
    Small(v + k * p);
  }

  // Varints.

  lemma Pow2Step(n: nat)
    ensures Pow2(n + 7) == 128 * Pow2(n)
  {
    assert Pow2(n + 7) == 2 * Pow2(n + 6) == 4 * Pow2(n + 5) == 8 * Pow2(n + 4);
    assert Pow2(n + 4) == 2 * Pow2(n + 3) == 4 * Pow2(n + 2) == 8 * Pow2(n + 1) == 16 * Pow2(n);
  }

  lemma {:induction false} Pow2Monotone(a: nat, b: nat)
    requires a <= b
    ensures 1 <= Pow2(a) <= Pow2(b)
    decreases b
  {
    if a < b { Pow2Monotone(a, b - 1); } else if a > 0 { Pow2Monotone(a - 1, b - 1); }
  }

  lemma Pow2Is64()
    ensures Pow2(63) == 0x8000_0000_0000_0000 && Pow2(64) == TWO_64
  {
    Pow2Step(0); Pow2Step(7); Pow2Step(14); Pow2Step(21); Pow2Step(28);
    Pow2Step(35); Pow2Step(42); Pow2Step(49); Pow2Step(56);
    assert Pow2(0) == 1;
  }

  lemma Digits(u: nat, p: nat)
    ensures (u % 128) * p + (u / 128) * (128 * p) == u * p
    ensures 0 <= (u % 128) * p <= u * p
  {
    var q, r := u / 128, u % 128;
    assert u == 128 * q + r;
    assert (128 * q + r) * p == q * (128 * p) + r * p;
  }

  /** Adding one digit neither wraps nor touches what was read before. */
  lemma DigitAdded(u: nat, p: nat, v: Uint64)
    requires v + u * p < TWO_64
    ensures (v + (u % 128) * p % TWO_64) % TWO_64 == v + (u % 128) * p
    ensures v + (u % 128) * p + (u / 128) * (128 * p) == v + u * p
    ensures u < 128 ==> (u % 128) * p == u * p
  {
    Digits(u, p);
    var d := (u % 128) * p;
    assert 0 <= d < TWO_64 && v + d < TWO_64;
    Small(d);
    Small(v + d);
  }

  lemma Small(x: nat)
    requires x < TWO_64
    ensures x % TWO_64 == x
  {
  }

  /** Reading back what was written, from any state of the loop. */
  lemma {:induction false} VarintRoundTripFrom(u: nat, rest: Bytes, v: Uint64, shift: nat)
    requires v + u * Pow2(shift) < TWO_64
    ensures VarintFrom(EncodeVarint(u) + rest, v, shift) == Got(v + u * Pow2(shift), rest)
    decreases u
  {
    var data := EncodeVarint(u) + rest;
    DigitRead(u, data[0], v, shift);
    hide AddBits, Pow2;
    if u < 128 {
      assert data[1..] == rest;
    } else {
      assert data[1..] == EncodeVarint(u / 128) + rest;
      FitsShift(u, shift);
      VarintRoundTripFrom(u / 128, rest, AddBits(v, data[0], shift), shift + 7);
    }
  }

  /** Reading one byte moves one digit from what is to come to what was read. */
  lemma DigitRead(u: nat, b: Byte, v: Uint64, shift: nat)
    requires v + u * Pow2(shift) < TWO_64 && b % 128 == u % 128
    ensures AddBits(v, b, shift) + (u / 128) * Pow2(shift + 7) == v + u * Pow2(shift)
    ensures u < 128 ==> AddBits(v, b, shift) == v + u * Pow2(shift)
  {
    Pow2Step(shift);
    DigitAdded(u, Pow2(shift), v);
    hide Pow2;
  }

  lemma FitsShift(u: nat, shift: nat)
    requires u >= 128 && u * Pow2(shift) < TWO_64
    ensures shift + 7 < 64
  {
    assert u * Pow2(shift) >= 128 * Pow2(shift);
    if shift + 7 >= 64 {
      Pow2Step(shift);
      Pow2Monotone(64, shift + 7);
      Pow2Is64();
    }
  }

  lemma VarintRoundTrip(u: Uint64, rest: Bytes)
    ensures ReadVarint(EncodeVarint(u) + rest) == Got(u, rest)
  {
    assert Pow2(0) == 1;
    VarintRoundTripFrom(u, rest, 0, 0);
  }

  /** 64 bits take one to ten bytes. */
  lemma {:induction false} VarintLength(u: nat, k: nat)
    requires u < Pow2(7 * k) && k > 0
    ensures 1 <= |EncodeVarint(u)| <= k
  {
    if u >= 128 {
      Pow2Step(7 * (k - 1));
      if k == 1 { assert Pow2(0) == 1; }
      VarintLength(u / 128, k - 1);
    }
  }

  lemma VarintAtMostTenBytes(u: Uint64)
    ensures 1 <= |EncodeVarint(u)| <= 10
  {
    Pow2Is64();
    Pow2Monotone(64, 70);
    VarintLength(u, 10);
  }

  /** Every proper prefix of an encoded varint is a truncation error. */
  lemma {:induction false} VarintPrefixFrom(u: nat, k: nat, v: Uint64, shift: nat)
    requires k < |EncodeVarint(u)| && u * Pow2(shift) < TWO_64
    ensures VarintFrom(EncodeVarint(u)[..k], v, shift) == Fail(Truncated, [])
    decreases u
  {
    if k > 0 {
      var data := EncodeVarint(u)[..k];
      assert data[0] == u % 128 + 128 && data[1..] == EncodeVarint(u / 128)[..k - 1];
      hide AddBits;
      Pow2Step(shift);
      FitsShift(u, shift);
      Digits(u, Pow2(shift));
      hide Pow2;
      VarintPrefixFrom(u / 128, k - 1, AddBits(v, data[0], shift), shift + 7);
    }
  }

  lemma VarintPrefixFails(u: Uint64, k: nat)
    requires k < |EncodeVarint(u)|
    ensures ReadVarint(EncodeVarint(u)[..k]) == Fail(Truncated, [])
  {
    assert Pow2(0) == 1;
    VarintPrefixFrom(u, k, 0, 0);
  }

  // What any bytes are read as.

  /** The first n bytes all have the top bit, which says that another one follows. */
  predicate Continued(data: Bytes, n: nat) {
    n <= |data| && forall i | 0 <= i < n :: data[i] >= 128
  }

  /** The low seven bits of the bytes as digits, the least significant first. */
  function DigitsOf(data: Bytes): nat {
    if data == [] then 0 else data[0] % 128 + 128 * DigitsOf(data[1..])
  }

  lemma SumMod(v: nat, d: nat, rest: nat)
    ensures ((v + d % TWO_64) % TWO_64 + rest) % TWO_64 == (v + d + rest) % TWO_64
  {
    var q, k := d / TWO_64, (v + d % TWO_64) / TWO_64;
    assert v + d + rest == (v + d % TWO_64) % TWO_64 + rest + (q + k) * TWO_64;
    ModPlus((v + d % TWO_64) % TWO_64 + rest, q + k);
  }

  lemma {:induction false} ModPlus(x: nat, k: nat)
    ensures (x + k * TWO_64) % TWO_64 == x % TWO_64
  {
    if k > 0 {
      ModPlus(x, k - 1);
      assert x + k * TWO_64 == x + (k - 1) * TWO_64 + TWO_64;
    }
  }

  lemma {:induction false} VarintValueFrom(data: Bytes, n: nat, v: Uint64, shift: nat)
    requires n < |data| && Continued(data, n) && data[n] < 128 && shift + 7 * n < 64
    ensures VarintFrom(data, v, shift) == Got((v + DigitsOf(data[..n + 1]) * Pow2(shift)) % TWO_64, data[n + 1..])
    decreases n
  {
    var digits := DigitsOf(data[1..][..n]);
    assert data[..n + 1][1..] == data[1..][..n];
    assert DigitsOf(data[..n + 1]) == data[0] % 128 + 128 * digits;
    OneDigitMore(v, data[0], digits, shift);
    hide AddBits, Pow2;
    if n == 0 {
      assert digits == 0;
      hide DigitsOf;
      Small(AddBits(v, data[0], shift));
    } else {
      hide DigitsOf;
      VarintValueFrom(data[1..], n - 1, AddBits(v, data[0], shift), shift + 7);
      assert data[1..][n..] == data[n + 1..];
    }
  }

  lemma OneDigitMore(v: Uint64, b: Byte, digits: nat, shift: nat)
    ensures (AddBits(v, b, shift) + digits * Pow2(shift + 7)) % TWO_64 == (v + (b % 128 + 128 * digits) * Pow2(shift)) % TWO_64
  {
    Pow2Step(shift);
    var d, p := b % 128, Pow2(shift);
    assert AddBits(v, b, shift) == (v + d * p % TWO_64) % TWO_64;
    hide Pow2, AddBits;
    Horner(d, digits, p);
    SumMod(v, d * p, digits * (128 * p));
  }

  lemma Horner(d: nat, digits: nat, p: nat)
    ensures (d + 128 * digits) * p == d * p + digits * (128 * p)
  {
  }

  lemma {:induction false} VarintLongFrom(data: Bytes, v: Uint64, shift: nat, n: nat)
    requires Continued(data, n) && n > 0 && shift == 70 - 7 * n
    ensures VarintFrom(data, v, shift) == Fail(Overflow, data[n..])
    decreases n
  {
    hide AddBits;
    if n > 1 {
      VarintLongFrom(data[1..], AddBits(v, data[0], shift), shift + 7, n - 1);
      assert data[1..][n - 1..] == data[n..];
    }
  }

  lemma {:induction false} VarintShortFrom(data: Bytes, v: Uint64, shift: nat)
    requires Continued(data, |data|) && shift + 7 * |data| <= 63
    ensures VarintFrom(data, v, shift) == Fail(Truncated, [])
    decreases |data|
  {
    hide AddBits;
    if data != [] {
      VarintShortFrom(data[1..], AddBits(v, data[0], shift), shift + 7);
    }
  }

  /** A varint ends at the first byte without the top bit, which has to be among the first
      ten; its value is that of the digits up to there, of which 64 bits are kept. */
  lemma VarintExactly(data: Bytes, n: nat)
    requires Continued(data, n) && (n == |data| || data[n] < 128)
    ensures ReadVarint(data) ==
            if n >= 10 then Fail(Overflow, data[10..])
            else if n == |data| then Fail(Truncated, [])
            else Got(DigitsOf(data[..n + 1]) % TWO_64, data[n + 1..])
  {
    if n >= 10 {
      VarintLongFrom(data, 0, 0, 10);
    } else if n == |data| {
      VarintShortFrom(data, 0, 0);
    } else {
      VarintValueFrom(data, n, 0, 0);
      assert Pow2(0) == 1;
    }
  }

  /** Every input is of this form. */
  lemma {:induction false} ContinuedUpTo(data: Bytes) returns (n: nat)
    ensures Continued(data, n) && (n == |data| || data[n] < 128)
  {
    if data == [] || data[0] < 128 {
      n := 0;
    } else {
      var m := ContinuedUpTo(data[1..]);
      n := m + 1;
      assert forall i | 1 <= i < n :: data[i] == data[1..][i - 1];
      assert n < |data| ==> data[n] == data[1..][m];
    }
  }

  // Bytes behind what is read do not matter.

  lemma {:induction false} VarintExtends(data: Bytes, more: Bytes, v: Uint64, shift: nat)
    requires VarintFrom(data, v, shift).Got?
    ensures var r := VarintFrom(data, v, shift);
            VarintFrom(data + more, v, shift) == Got(r.value, r.rest + more)
    decreases |data|
  {
    assert (data + more)[0] == data[0] && (data + more)[1..] == data[1..] + more;
    if data[0] >= 128 {
      VarintExtends(data[1..], more, AddBits(v, data[0], shift), shift + 7);
    }
  }

  lemma PayloadExtends(wire: nat, data: Bytes, more: Bytes)
    requires ReadPayload(wire, data).Got?
    ensures var r := ReadPayload(wire, data);
            ReadPayload(wire, data + more) == Got(r.value, r.rest + more)
  {
    if wire == 0 {
      VarintExtends(data, more, 0, 0);
    } else if wire == 2 {
      VarintExtends(data, more, 0, 0);
      var n, rest := ReadVarint(data).value, ReadVarint(data).rest;
      assert (rest + more)[..n] == rest[..n] && (rest + more)[n..] == rest[n..] + more;
    } else {
      var n := if wire == 1 then 8 else 4;
      assert (data + more)[..n] == data[..n] && (data + more)[n..] == data[n..] + more;
    }
  }

  lemma RecordExtends(data: Bytes, more: Bytes)
    requires ReadRecord(data).Got?
    ensures var r := ReadRecord(data);
            ReadRecord(data + more) == Got(r.value, r.rest + more)
  {
    hide ReadPayload, VarintFrom;
    VarintExtends(data, more, 0, 0);
    PayloadExtends(ReadVarint(data).value % 8, ReadVarint(data).rest, more);
  }

  /** Only a truncation can be cured by more bytes. */
  lemma {:induction false} VarintFailureExtends(data: Bytes, more: Bytes, v: Uint64, shift: nat)
    requires VarintFrom(data, v, shift).Fail? && VarintFrom(data, v, shift).error != Truncated
    ensures var r := VarintFrom(data, v, shift);
            VarintFrom(data + more, v, shift) == Fail(r.error, r.rest + more)
    decreases |data|
  {
    assert (data + more)[0] == data[0] && (data + more)[1..] == data[1..] + more;
    hide AddBits;
    if shift + 7 < 64 {
      VarintFailureExtends(data[1..], more, AddBits(v, data[0], shift), shift + 7);
    }
  }

  lemma FailureExtends(data: Bytes, more: Bytes)
    requires ReadRecord(data).Fail? && ReadRecord(data).error != Truncated
    ensures ReadRecord(data + more) == Fail(ReadRecord(data).error, ReadRecord(data).rest + more)
  {
    hide VarintFrom;
    match ReadVarint(data)
    case Fail(_, _) => VarintFailureExtends(data, more, 0, 0);
    case Got(tag, rest) =>
      VarintExtends(data, more, 0, 0);
      if tag % 8 == 0 || tag % 8 == 2 { VarintFailureExtends(rest, more, 0, 0); }
  }

  /** Cut short anywhere, a complete field is a truncation error. */
  lemma CutRecordFails(field: Bytes, k: nat)
    requires ReadRecord(field).Got? && ReadRecord(field).rest == [] && k < |field|
    ensures ReadRecord(field[..k]).Fail? && ReadRecord(field[..k]).error == Truncated
  {
    assert field[..k] + field[k..] == field;
    hide ReadRecord;
    if ReadRecord(field[..k]).Got? {
      RecordExtends(field[..k], field[k..]);
      assert false;
    } else if ReadRecord(field[..k]).error != Truncated {
      FailureExtends(field[..k], field[k..]);
    }
  }

  lemma TagParts(field: nat, wire: nat)
    requires wire < 8
    ensures (field * 8 + wire) / 8 == field && (field * 8 + wire) % 8 == wire
  {
  }

  lemma NumberRecord(field: nat, v: Uint64, rest: Bytes)
    requires field < 0x1000_0000
    ensures ReadRecord(EncodeNumber(field, v) + rest) == Got(Record(field, 0, Number(v)), rest)
  {
    var after := EncodeVarint(v) + rest;
    assert EncodeNumber(field, v) + rest == EncodeTag(field, 0) + after;
    VarintRoundTrip(field * 8, after);
    TagParts(field, 0);
    VarintRoundTrip(v, rest);
    hide ReadVarint, EncodeVarint;
  }

  lemma ChunkRecord(field: nat, b: Bytes, rest: Bytes)
    requires field < 0x1000_0000 && |b| < TWO_64
    ensures ReadRecord(EncodeChunk(field, b) + rest) == Got(Record(field, 2, Chunk(b)), rest)
  {
    var after := EncodeVarint(|b|) + (b + rest);
    assert EncodeChunk(field, b) + rest == EncodeTag(field, 2) + after;
    VarintRoundTrip(field * 8 + 2, after);
    TagParts(field, 2);
    VarintRoundTrip(|b|, b + rest);
    hide ReadVarint, EncodeVarint;
    assert (b + rest)[..|b|] == b && (b + rest)[|b|..] == rest;
  }

  lemma FixedRecord(field: nat, wire: nat, b: Bytes, rest: Bytes)
    requires field < 0x1000_0000 && ((wire == 1 && |b| == 8) || (wire == 5 && |b| == 4))
    ensures ReadRecord(EncodeTag(field, wire) + b + rest) == Got(Record(field, wire, Chunk(b)), rest)
  {
    assert EncodeTag(field, wire) + b + rest == EncodeTag(field, wire) + (b + rest);
    VarintRoundTrip(field * 8 + wire, b + rest);
    TagParts(field, wire);
    hide ReadVarint, EncodeVarint;
    assert (b + rest)[..|b|] == b && (b + rest)[|b|..] == rest;
  }

  /** Groups and unknown wire types are refused wherever they start. */
  lemma OtherWiresFail(field: nat, wire: nat, rest: Bytes)
    requires field < 0x1000_0000 && wire < 8 && wire != 0 && wire != 1 && wire != 2 && wire != 5
    ensures ReadRecord(EncodeTag(field, wire) + rest) == Fail(UnsupportedWire(wire), rest)
  {
    VarintRoundTrip(field * 8 + wire, rest);
    TagParts(field, wire);
    hide ReadFixed, ReadBytes;
    hide ReadVarint, EncodeVarint;
  }

  // The loops.

  method AppendVarint(b: Bytes, v: Uint64) returns (r: Bytes)
    ensures r == b + EncodeVarint(v)
  {
    r := b;
    var u: nat := v;
    while u >= 128
      invariant r + EncodeVarint(u) == b + EncodeVarint(v)
    {
      r := r + [u % 128 + 128];
      u := u / 128;
    }
    r := r + [u];
  }

  class Decoder {
    var data: Bytes

    constructor (data: Bytes)
      ensures this.data == data
    {
      this.data := data;
    }

    method Varint() returns (v: Uint64, err: Option<Error>)
      modifies this
      ensures match ReadVarint(old(data))
              case Got(value, rest) => err == None && v == value && data == rest
              case Fail(e, rest) => err == Some(e) && data == rest
    {
      v := 0;
      var shift := 0;
      while true
        invariant VarintFrom(data, v, shift) == ReadVarint(old(data))
        invariant shift < 64 && shift % 7 == 0 && v < Pow2(shift)
        decreases |data|
      {
        if |data| == 0 { return 0, Some(Truncated); }
        var b := data[0];
        data := data[1..];
        AddBitsIsOr(v, b, shift);
        v := Or(v, Shifted(b, shift));
        if b < 128 { return v, None; }
        shift := shift + 7;
        if shift >= 64 { return 0, Some(Overflow); }
      }
    }

    method Bytes() returns (v: Bytes, err: Option<Error>)
      modifies this
      ensures match ReadBytes(old(data))
              case Got(value, rest) => err == None && v == value && data == rest
              case Fail(e, rest) => err == Some(e) && data == rest
    {
      var n, e := Varint();
      if e.Some? { return [], e; }
      if n > |data| { return [], Some(Truncated); }
      v := data[..n];
      data := data[n..];
      err := None;
    }

    method Skip(wire: nat) returns (err: Option<Error>)
      modifies this
      ensures match ReadPayload(wire, old(data))
              case Got(_, rest) => err == None && data == rest
              case Fail(e, rest) => err == Some(e) && data == rest
    {
      if wire == 0 {
        var _, e := Varint();
        err := e;
      } else if wire == 1 {
        if |data| < 8 { return Some(Truncated); }
        data := data[8..];
        err := None;
      } else if wire == 2 {
        var _, e := Bytes();
        err := e;
      } else if wire == 5 {
        if |data| < 4 { return Some(Truncated); }
        data := data[4..];
        err := None;
      } else {
        err := Some(UnsupportedWire(wire));
      }
    }
  }
}
