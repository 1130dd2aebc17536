module Bytewise {
  type Byte = x: int | 0 <= x < 0x100
}

/** Messages as sequences of fields, for any encoder and decoder of single fields. */
module Framing {
  import opened Bytewise
  import opened Options

  function EncodeAll<F>(enc: F -> seq<Byte>, fs: seq<F>): (b: seq<Byte>) {
    if fs == [] then [] else EncodeAll(enc, fs[..|fs| - 1]) + enc(fs[|fs| - 1])
  }

  /** Reads the fields one after the other and says how many bytes they took together. */
  function DecodeAll<K, F>(dec: (K, seq<Byte>) -> Option<(F, nat)>, ks: seq<K>, b: seq<Byte>): (r: Option<(seq<F>, nat)>)
  {
    if ks == [] then Some(([], 0))
    else match DecodeAll(dec, ks[..|ks| - 1], b) {
           case None => None
           case Some((fs, n)) =>
             if |b| < n then None
             else match dec(ks[|ks| - 1], b[n..]) {
                    case None => None
                    case Some((f, m)) => Some((fs + [f], n + m))
                  }
         }
  }

  /** The field f decodes to itself, from its own bytes alone, exactly when ok says so. */
  ghost predicate Trips<K, F>(enc: F -> seq<Byte>, dec: (K, seq<Byte>) -> Option<(F, nat)>, kind: F -> K,
                              ok: F -> bool, f: F, rest: seq<Byte>)
  {
    var d := dec(kind(f), enc(f) + rest);
    d.Some? && d.value.1 == |enc(f)| && (d.value.0 == f <==> ok(f))
  }

  lemma SnocIsEqual<T>(xs: seq<T>, x: T, ys: seq<T>)
    requires ys != []
    ensures xs + [x] == ys <==> xs == ys[..|ys| - 1] && x == ys[|ys| - 1]
  {
    if xs + [x] == ys {
      assert xs == (xs + [x])[..|xs|];
    }
    assert ys == ys[..|ys| - 1] + [ys[|ys| - 1]];
  }

  lemma {:induction false} DecodeOneMore<K, F>(
    dec: (K, seq<Byte>) -> Option<(F, nat)>, ks: seq<K>, b: seq<Byte>, fs: seq<F>, n: nat, f: F, m: nat)
    requires ks != [] && n <= |b| && DecodeAll(dec, ks[..|ks| - 1], b) == Some((fs, n))
    requires dec(ks[|ks| - 1], b[n..]) == Some((f, m))
    ensures DecodeAll(dec, ks, b) == Some((fs + [f], n + m))
  {
  }

  lemma AllOfSnoc<F>(ok: F -> bool, fs: seq<F>)
    requires fs != []
    ensures (forall f | f in fs :: ok(f)) <==> (forall f | f in fs[..|fs| - 1] :: ok(f)) && ok(fs[|fs| - 1])
  {
    assert fs == fs[..|fs| - 1] + [fs[|fs| - 1]];
  }

  /** The last field of a message, behind a front that has already been read. */
  lemma {:induction false} LastDecodes<K, F>(
    enc: F -> seq<Byte>, dec: (K, seq<Byte>) -> Option<(F, nat)>, kind: F -> K, ok: F -> bool,
    last: F, ks: seq<K>, front: seq<Byte>, rest: seq<Byte>, gs: seq<F>)
    returns (g: F)
    requires ks != [] && ks[|ks| - 1] == kind(last) && Trips(enc, dec, kind, ok, last, rest)
    requires DecodeAll(dec, ks[..|ks| - 1], front + (enc(last) + rest)) == Some((gs, |front|))
    ensures DecodeAll(dec, ks, front + enc(last) + rest) == Some((gs + [g], |front + enc(last)|))
    ensures g == last <==> ok(last)
  {
    var back := enc(last) + rest;
    g := dec(kind(last), back).value.0;
    assert (front + back)[|front|..] == back;
    DecodeOneMore(dec, ks, front + back, gs, |front|, g, |enc(last)|);
    assert front + enc(last) + rest == front + back;
  }

  lemma {:induction false} MessageDecodes<K, F(!new)>(
    enc: F -> seq<Byte>, dec: (K, seq<Byte>) -> Option<(F, nat)>, kind: F -> K, ok: F -> bool,
    fs: seq<F>, ks: seq<K>, rest: seq<Byte>)
    returns (gs: seq<F>)
    requires forall f, tail :: Trips(enc, dec, kind, ok, f, tail)
    requires |ks| == |fs| && forall i | 0 <= i < |fs| :: ks[i] == kind(fs[i])
    ensures DecodeAll(dec, ks, EncodeAll(enc, fs) + rest) == Some((gs, |EncodeAll(enc, fs)|))
    ensures gs == fs <==> forall f | f in fs :: ok(f)
  {
    if fs == [] {
      gs := [];
    } else {
      var init, last := fs[..|fs| - 1], fs[|fs| - 1];
      var gs' := MessageDecodes(enc, dec, kind, ok, init, ks[..|ks| - 1], enc(last) + rest);
      var g := LastDecodes(enc, dec, kind, ok, last, ks, EncodeAll(enc, init), rest, gs');
      gs := gs' + [g];
      SnocIsEqual(gs', g, fs);
      AllOfSnoc(ok, fs);
    }
  }
}

/** The length-prefixed binary messages of include/zbxserialize.h, laid out little-endian. */
module Codec {
  import opened Bytewise
  import opened Options
  import opened Arithmetic
  import opened Vectors
  import Framing

  const UINT32_RANGE: nat := 0x1_0000_0000

  const UINT16_SIZE: nat := 2
  const UINT32_SIZE: nat := 4
  const UINT64_SIZE: nat := 8

  type UInt32 = x: int | 0 <= x < 0x1_0000_0000
  type UInt64 = x: int | 0 <= x < 0x1_0000_0000_0000_0000
  type Int32Value = x: int | -0x8000_0000 <= x < 0x8000_0000
  type Int16Value = x: int | -0x8000 <= x < 0x8000

  /** The bytes of a C string before its terminator. */
  type CString = s: seq<Byte> | forall i | 0 <= i < |s| :: s[i] != 0

  datatype Kind = KUInt64 | KInt | KShort | KChar | KDouble | KStr | KUInt64s

  datatype Field =
    | FUInt64(u: UInt64)
    | FInt(i: Int32Value)
    | FShort(h: Int16Value)
    | FChar(b: Byte)
    | FDouble(bits: UInt64)            // the eight bytes of an IEEE double, never interpreted
    | FStr(str: Option<CString>)       // None is the NULL pointer
    | FUInt64s(xs: seq<UInt64>)

  function KindOf(f: Field): (k: Kind) {
    match f
    case FUInt64(_) => KUInt64
    case FInt(_) => KInt
    case FShort(_) => KShort
    case FChar(_) => KChar
    case FDouble(_) => KDouble
    case FStr(_) => KStr
    case FUInt64s(_) => KUInt64s
  }

  function KindsOf(fs: seq<Field>): (ks: seq<Kind>)
    ensures |ks| == |fs|
  {
    seq(|fs|, i requires 0 <= i < |fs| => KindOf(fs[i]))
  }

  // ----- Scalars -----

  function Range(width: nat): (r: nat)
    ensures r >= 1
  {
    if width == 0 then 1 else 0x100 * Range(width - 1)
  }

  /** memcpy of an unsigned scalar of the given width. */
  function Bytes(n: nat, width: nat): (b: seq<Byte>)
    ensures |b| == width
    decreases width
  {
    if width == 0 then [] else [n % 0x100] + Bytes(n / 0x100, width - 1)
  }

  function FromBytes(b: seq<Byte>): (n: nat) {
    if b == [] then 0 else b[0] + 0x100 * FromBytes(b[1..])
  }

  lemma {:induction false} ScalarRoundTrip(n: nat, width: nat)
    requires n < Range(width)
    ensures FromBytes(Bytes(n, width)) == n
    decreases width
  {
    if width > 0 {
      ScalarRoundTrip(n / 0x100, width - 1);
      assert Bytes(n, width)[1..] == Bytes(n / 0x100, width - 1);
    }
  }

  lemma DropsOneDigit(n: nat, b: nat)
    requires b > 0
    ensures n / 0x100 / b == n / (0x100 * b)
  {
    var q, r := n / 0x100 / b, n / 0x100 % b;
    assert n / 0x100 == b * q + r;
    assert 0x100 * b * q == 0x100 * (b * q);
    DivisionIsUnique(n, 0x100 * b, q, 0x100 * r + n % 0x100);
  }

  /** Little-endian: byte k is the k-th digit in base 256, the least significant one first. */
  lemma {:induction false} BytesAreDigits(n: nat, width: nat, k: nat)
    requires k < width
    ensures Bytes(n, width)[k] == n / Range(k) % 0x100
    decreases width
  {
    if k > 0 {
      BytesAreDigits(n / 0x100, width - 1, k - 1);
      DropsOneDigit(n, Range(k - 1));
    }
  }

  lemma {:induction false} FromBytesFits(b: seq<Byte>)
    ensures FromBytes(b) < Range(|b|)
  {
    if b != [] {
      FromBytesFits(b[1..]);
    }
  }

  lemma Ranges()
    ensures Range(1) == 0x100 && Range(UINT16_SIZE) == 0x1_0000
    ensures Range(UINT32_SIZE) == UINT32_RANGE && Range(UINT64_SIZE) == 0x1_0000_0000_0000_0000
  {
    assert Range(3) == 0x100_0000;
    assert Range(4) == 0x100 * Range(3);
    assert Range(5) == 0x100 * Range(4);
    assert Range(6) == 0x100 * Range(5);
    assert Range(7) == 0x100 * Range(6);
  }

  /** Two's complement. */
  function Wrap(v: int, range: nat): (r: nat)
    requires -(range as int) <= v < range
    ensures r < range
  {
    if v < 0 then v + range else v
  }

  function Unwrap(n: nat, range: nat): (v: int) {
    if 2 * n < range then n else n - range
  }

  // ----- Fields -----

  function FlattenWords(xs: seq<UInt64>): (b: seq<Byte>)
    ensures |b| == 8 * |xs|
  {
    if xs == [] then [] else Bytes(xs[0], UINT64_SIZE) + FlattenWords(xs[1..])
  }

  /** The 32-bit length that the prepare pass computes for a variable-size field. */
  function LengthWord(f: Field): (r: UInt32) {
    match f
    case FStr(Some(s)) => (|s| % UINT32_RANGE + 1) % UINT32_RANGE
    case FUInt64s(xs) => (|xs| % UINT32_RANGE) * 8 % UINT32_RANGE
    case _ => 0
  }

  /** The memory that a variable-size field is copied from. */
  function Payload(f: Field): (b: seq<Byte>) {
    match f
    case FStr(Some(s)) => s + [0]
    case FUInt64s(xs) => FlattenWords(xs)
    case _ => []
  }

  /** The 32-bit length describes the whole payload. */
  ghost predicate Fits(f: Field) {
    |Payload(f)| < UINT32_RANGE
  }

  lemma WrappedIncrement(n: nat)
    ensures (n % UINT32_RANGE + 1) % UINT32_RANGE == (n + 1) % UINT32_RANGE
  {
  }

  lemma WrappedScaling(n: nat)
    ensures (n % UINT32_RANGE) * 8 % UINT32_RANGE == 8 * n % UINT32_RANGE
  {
    var q := n / UINT32_RANGE;
    assert 8 * n == (n % UINT32_RANGE) * 8 + UINT32_RANGE * (8 * q);
  }

  lemma Remainder(n: nat)
    ensures n % UINT32_RANGE <= n && (n % UINT32_RANGE == n <==> n < UINT32_RANGE)
  {
  }

  lemma LengthWordIsPayloadSize(f: Field)
    ensures LengthWord(f) == |Payload(f)| % UINT32_RANGE <= |Payload(f)|
    ensures Fits(f) <==> LengthWord(f) == |Payload(f)|
  {
    Remainder(|Payload(f)|);
    match f
    case FStr(Some(s)) => WrappedIncrement(|s|);
    case FUInt64s(xs) => WrappedScaling(|xs|);
    case _ =>
  }

  function Encode(f: Field): (b: seq<Byte>) {
    match f
    case FUInt64(u) => Bytes(u, UINT64_SIZE)
    case FInt(i) => Bytes(Wrap(i, UINT32_RANGE), UINT32_SIZE)
    case FShort(h) => Bytes(Wrap(h, 0x1_0000), UINT16_SIZE)
    case FChar(b) => [b]
    case FDouble(bits) => Bytes(bits, UINT64_SIZE)
    case _ =>
      LengthWordIsPayloadSize(f);
      Bytes(LengthWord(f), UINT32_SIZE) + Payload(f)[..LengthWord(f)]
  }

  /** What a C reader sees of a character buffer: the bytes before the first NUL. */
  function UntilNul(b: seq<Byte>): (s: CString)
    ensures s <= b && (|s| < |b| ==> b[|s|] == 0)
  {
    if b == [] || b[0] == 0 then [] else [b[0]] + UntilNul(b[1..])
  }

  function Words(b: seq<Byte>): (xs: seq<UInt64>)
    ensures |xs| == |b| / 8
  {
    if |b| < 8 then []
    else
      FromBytesFits(b[..8]);
      Ranges();
      [FromBytes(b[..8])] + Words(b[8..])
  }

  /** The bytes behind a length word; None when the buffer ends before they do. */
  function Prefixed(b: seq<Byte>): (r: Option<seq<Byte>>)
    ensures r.Some? ==> 4 + |r.value| <= |b|
  {
    if |b| < 4 || |b| < 4 + FromBytes(b[..4]) then None else Some(b[4..4 + FromBytes(b[..4])])
  }

  function DecodeString(payload: seq<Byte>): (s: Option<CString>) {
    if payload == [] then None else Some(UntilNul(payload + [0]))
  }

  /** Reads one field and says how many bytes it took; None when the buffer is read past its end. */
  function Decode(k: Kind, b: seq<Byte>): (r: Option<(Field, nat)>) {
    Ranges();
    match k
    case KUInt64 => if |b| < 8 then None else FromBytesFits(b[..8]); Some((FUInt64(FromBytes(b[..8])), 8))
    case KDouble => if |b| < 8 then None else FromBytesFits(b[..8]); Some((FDouble(FromBytes(b[..8])), 8))
    case KInt =>
      if |b| < 4 then None else FromBytesFits(b[..4]); Some((FInt(Unwrap(FromBytes(b[..4]), UINT32_RANGE)), 4))
    case KShort =>
      if |b| < 2 then None else FromBytesFits(b[..2]); Some((FShort(Unwrap(FromBytes(b[..2]), 0x1_0000)), 2))
    case KChar => if |b| < 1 then None else Some((FChar(b[0]), 1))
    case KStr =>
      var p := Prefixed(b);
      if p.None? then None else Some((FStr(DecodeString(p.value)), 4 + |p.value|))
    case KUInt64s =>
      var p := Prefixed(b);
      if p.None? then None else Some((FUInt64s(Words(p.value)), 4 + |p.value|))
  }

  /** Decoding fails exactly when the buffer ends too early, and takes what the width or the length word says. */
  lemma DecodeFailsExactly(k: Kind, b: seq<Byte>)
    ensures k == KUInt64 || k == KDouble ==> Takes(Decode(k, b), b, 8)
    ensures k == KInt ==> Takes(Decode(k, b), b, 4)
    ensures k == KShort ==> Takes(Decode(k, b), b, 2)
    ensures k == KChar ==> Takes(Decode(k, b), b, 1)
    ensures k == KStr || k == KUInt64s ==>
              if |b| < 4 then Decode(k, b).None? else Takes(Decode(k, b), b, 4 + FromBytes(b[..4]))
  {
  }

  /** The result of a decoder that needs n bytes. */
  ghost predicate Takes(r: Option<(Field, nat)>, b: seq<Byte>, n: nat) {
    if |b| < n then r.None? else r.Some? && r.value.1 == n
  }

  lemma {:induction false} UntilNulStops(s: CString, rest: seq<Byte>)
    ensures UntilNul(s + [0] + rest) == s
  {
    if s != [] {
      UntilNulStops(s[1..], rest);
      assert (s + [0] + rest)[1..] == s[1..] + [0] + rest;
    }
  }

  lemma {:induction false} WordsOfFlattened(xs: seq<UInt64>)
    ensures Words(FlattenWords(xs)) == xs
  {
    if xs != [] {
      var b := FlattenWords(xs);
      Ranges();
      ScalarRoundTrip(xs[0], UINT64_SIZE);
      WordsOfFlattened(xs[1..]);
      assert b[..8] == Bytes(xs[0], UINT64_SIZE) && b[8..] == FlattenWords(xs[1..]);
    }
  }

  lemma {:induction false} FlattenedPrefix(xs: seq<UInt64>, n: nat)
    requires n <= |xs|
    ensures FlattenWords(xs[..n]) <= FlattenWords(xs)
  {
    if n > 0 {
      var init, tail, head := xs[..n], xs[1..], Bytes(xs[0], UINT64_SIZE);
      FlattenedPrefix(tail, n - 1);
      assert init[1..] == tail[..n - 1] && init[0] == xs[0];
      assert FlattenWords(xs) == head + FlattenWords(tail) && FlattenWords(init) == head + FlattenWords(init[1..]);
      PrefixUnderHead(head, FlattenWords(init[1..]), FlattenWords(tail));
    }
  }

  lemma PrefixUnderHead(head: seq<Byte>, a: seq<Byte>, b: seq<Byte>)
    requires a <= b
    ensures head + a <= head + b
  {
  }

  /** A scalar's bytes at the front of a buffer read back as the scalar. */
  lemma ScalarAtFront(n: nat, width: nat, rest: seq<Byte>)
    requires n < Range(width)
    ensures FromBytes((Bytes(n, width) + rest)[..width]) == n
  {
    ScalarRoundTrip(n, width);
    assert (Bytes(n, width) + rest)[..width] == Bytes(n, width);
  }

  lemma ScalarFieldRoundTrip(f: Field, rest: seq<Byte>)
    requires !f.FStr? && !f.FUInt64s?
    ensures Decode(KindOf(f), Encode(f) + rest) == Some((f, |Encode(f)|)) && Fits(f)
  {
    Ranges();
    match f
    case FUInt64(u) => ScalarAtFront(u, UINT64_SIZE, rest);
    case FInt(i) => ScalarAtFront(Wrap(i, UINT32_RANGE), UINT32_SIZE, rest);
    case FShort(h) => ScalarAtFront(Wrap(h, 0x1_0000), UINT16_SIZE, rest);
    case FChar(b) =>
    case FDouble(bits) => ScalarAtFront(bits, UINT64_SIZE, rest);
  }

  /** A variable-size field is its length word followed by that much payload, and nothing of the rest. */
  lemma PrefixedLayout(f: Field, rest: seq<Byte>)
    requires f.FStr? || f.FUInt64s?
    ensures LengthWord(f) <= |Payload(f)| && |Encode(f)| == 4 + LengthWord(f)
    ensures Prefixed(Encode(f) + rest) == Some(Payload(f)[..LengthWord(f)])
  {
    Ranges();
    LengthWordIsPayloadSize(f);
    ScalarAtFront(LengthWord(f), UINT32_SIZE, Payload(f)[..LengthWord(f)] + rest);
    assert Encode(f) + rest == Bytes(LengthWord(f), UINT32_SIZE) + (Payload(f)[..LengthWord(f)] + rest);
  }

  lemma UntilNulOfCut(s: CString, n: nat)
    requires n <= |s| + 1
    ensures UntilNul((s + [0])[..n] + [0]) == if n <= |s| then s[..n] else s
  {
    if n <= |s| {
      UntilNulStops(s[..n], []);
      assert (s + [0])[..n] + [0] == s[..n] + [0] + [];
    } else {
      UntilNulStops(s, [0]);
      assert (s + [0])[..n] + [0] == s + [0] + [0];
    }
  }

  /** A NULL string is its length word alone. */
  lemma NullRoundTrip(rest: seq<Byte>)
    ensures Decode(KStr, Encode(FStr(None)) + rest) == Some((FStr(None), |Encode(FStr(None))|)) && Fits(FStr(None))
  {
    PrefixedLayout(FStr(None), rest);
  }

  /** What the decoder makes of the bytes that the wrapped length lets through. */
  lemma ReceivedString(s: CString)
    ensures var f := FStr(Some(s));
            && LengthWord(f) <= |Payload(f)|
            && (DecodeString(Payload(f)[..LengthWord(f)]) == Some(s) <==> Fits(f))
  {
    var f := FStr(Some(s));
    LengthWordIsPayloadSize(f);
    UntilNulOfCut(s, LengthWord(f));
    assert LengthWord(f) <= |s| ==> |s[..LengthWord(f)]| == LengthWord(f);
  }

  lemma StringRoundTrip(s: CString, rest: seq<Byte>)
    ensures var f := FStr(Some(s));
            var d := Decode(KStr, Encode(f) + rest);
            d.Some? && d.value.1 == |Encode(f)| && (d.value.0 == f <==> Fits(f))
  {
    PrefixedLayout(FStr(Some(s)), rest);
    ReceivedString(s);
  }

  lemma WholeWords(n: nat)
    ensures 8 * n % UINT32_RANGE == 8 * (n % 0x2000_0000)
    ensures n % 0x2000_0000 <= n && (n % 0x2000_0000 == n <==> 8 * n < UINT32_RANGE)
  {
    assert 8 * n == UINT32_RANGE * (n / 0x2000_0000) + 8 * (n % 0x2000_0000);
  }

  /** The wrapped length of a vector still counts whole words, so the decoder sees a prefix of the vector. */
  lemma ReceivedWords(xs: seq<UInt64>)
    ensures var f := FUInt64s(xs);
            && LengthWord(f) <= |Payload(f)|
            && Words(Payload(f)[..LengthWord(f)]) == xs[..|xs| % 0x2000_0000]
            && (Words(Payload(f)[..LengthWord(f)]) == xs <==> Fits(f))
  {
    var n := |xs| % 0x2000_0000;
    WholeWords(|xs|);
    LengthWordIsPayloadSize(FUInt64s(xs));
    FlattenedPrefix(xs, n);
    assert Payload(FUInt64s(xs))[..8 * n] == FlattenWords(xs[..n]);
    WordsOfFlattened(xs[..n]);
    assert xs[..|xs|] == xs && (xs[..n] == xs ==> |xs[..n]| == |xs|);
  }

  lemma WordsRoundTrip(xs: seq<UInt64>, rest: seq<Byte>)
    ensures var f := FUInt64s(xs);
            var d := Decode(KUInt64s, Encode(f) + rest);
            d.Some? && d.value.1 == |Encode(f)| && (d.value.0 == f <==> Fits(f))
  {
    PrefixedLayout(FUInt64s(xs), rest);
    ReceivedWords(xs);
  }

  /**
   Decoding an encoded field takes exactly its bytes, whatever follows them, and gives the field back exactly
   when its payload fits the 32-bit length. NULL and the empty string are told apart.
   */
  lemma FieldRoundTrip(f: Field, rest: seq<Byte>)
    ensures var d := Decode(KindOf(f), Encode(f) + rest);
            d.Some? && d.value.1 == |Encode(f)| && (d.value.0 == f <==> Fits(f))
  {
    if f == FStr(None) {
      NullRoundTrip(rest);
    } else if f.FStr? {
      StringRoundTrip(f.str.value, rest);
    } else if f.FUInt64s? {
      WordsRoundTrip(f.xs, rest);
    } else {
      ScalarFieldRoundTrip(f, rest);
    }
  }

  // ----- The layout of a field, byte by byte -----

  /** The bytes are the base-256 digits of n, the least significant first. */
  ghost predicate Digits(b: seq<Byte>, n: nat, width: nat) {
    |b| == width && forall k | 0 <= k < width :: b[k] == n / Range(k) % 0x100
  }

  lemma BytesHaveDigits(n: nat, width: nat)
    ensures Digits(Bytes(n, width), n, width)
  {
    forall k | 0 <= k < width ensures Bytes(n, width)[k] == n / Range(k) % 0x100 {
      BytesAreDigits(n, width, k);
    }
  }

  lemma SliceBehind(head: seq<Byte>, tail: seq<Byte>, a: nat, b: nat)
    requires a <= b <= |tail|
    ensures (head + tail)[|head| + a..|head| + b] == tail[a..b]
  {
  }

  lemma {:induction false} FlattenedWord(xs: seq<UInt64>, j: nat, a: nat)
    requires j < |xs| && a == 8 * j
    ensures FlattenWords(xs)[a..a + 8] == Bytes(xs[j], UINT64_SIZE)
    decreases j
  {
    var head, tail := Bytes(xs[0], UINT64_SIZE), FlattenWords(xs[1..]);
    if j > 0 {
      FlattenedWord(xs[1..], j - 1, a - 8);
      SliceBehind(head, tail, a - 8, a);
    } else {
      assert (head + tail)[0..8] == head;
    }
  }

  /** Unsigned scalars and the bits of a double are their digits. */
  lemma UnsignedLayout(n: UInt64, b: Byte)
    ensures Digits(Encode(FUInt64(n)), n, UINT64_SIZE) && Digits(Encode(FDouble(n)), n, UINT64_SIZE)
    ensures Encode(FChar(b)) == [b]
  {
    BytesHaveDigits(n, UINT64_SIZE);
  }

  /** Negative scalars are in two's complement. */
  lemma SignedLayout(i: Int32Value, h: Int16Value)
    ensures Wrap(i, UINT32_RANGE) == i % UINT32_RANGE && Wrap(h, 0x1_0000) == h % 0x1_0000
    ensures Digits(Encode(FInt(i)), Wrap(i, UINT32_RANGE), UINT32_SIZE)
    ensures Digits(Encode(FShort(h)), Wrap(h, 0x1_0000), UINT16_SIZE)
  {
    BytesHaveDigits(Wrap(i, UINT32_RANGE), UINT32_SIZE);
    BytesHaveDigits(Wrap(h, 0x1_0000), UINT16_SIZE);
    TwosComplement(i, h);
  }

  lemma TwosComplement(i: Int32Value, h: Int16Value)
    ensures Wrap(i, UINT32_RANGE) == i % UINT32_RANGE && Wrap(h, 0x1_0000) == h % 0x1_0000
  {
  }

  /** A string is its size with the terminator, its characters and a NUL byte; a NULL pointer is four zero bytes. */
  lemma StringLayout(f: Field)
    requires f.FStr? && (f.str.Some? ==> |f.str.value| + 1 < UINT32_RANGE)
    ensures f.str.None? ==> Encode(f) == [0, 0, 0, 0]
    ensures f.str.Some? ==> var s := f.str.value;
                            && |Encode(f)| == 4 + |s| + 1
                            && Digits(Encode(f)[..4], |s| + 1, UINT32_SIZE) && Encode(f)[4..] == s + [0]
  {
    LengthWordIsPayloadSize(f);
    ZeroLength();
    BytesHaveDigits(LengthWord(f), UINT32_SIZE);
    assert Encode(f)[..4] == Bytes(LengthWord(f), UINT32_SIZE);
  }

  lemma {:induction false} VectorBytes(xs: seq<UInt64>)
    requires 8 * |xs| < UINT32_RANGE
    ensures Encode(FUInt64s(xs)) == Bytes(8 * |xs|, UINT32_SIZE) + FlattenWords(xs)
  {
    var f := FUInt64s(xs);
    LengthWordIsPayloadSize(f);
    assert LengthWord(f) == 8 * |xs| && Payload(f) == FlattenWords(xs);
    assert Payload(f)[..LengthWord(f)] == FlattenWords(xs);
  }

  lemma WordDigits(xs: seq<UInt64>, j: nat, a: nat)
    requires j < |xs| && a == 8 * j
    ensures Digits(FlattenWords(xs)[a..a + 8], xs[j], UINT64_SIZE)
  {
    FlattenedWord(xs, j, a);
    BytesHaveDigits(xs[j], UINT64_SIZE);
  }

  lemma WordInside(head: seq<Byte>, tail: seq<Byte>, a: nat, n: nat)
    requires |head| == 4 && a + 8 <= |tail| && Digits(tail[a..a + 8], n, UINT64_SIZE)
    ensures Digits((head + tail)[4 + a..4 + a + 8], n, UINT64_SIZE)
  {
    SliceBehind(head, tail, a, a + 8);
  }

  /** A vector is its size in bytes and the digits of one word after the other. */
  lemma VectorLayout(xs: seq<UInt64>)
    requires 8 * |xs| < UINT32_RANGE
    ensures var b := Encode(FUInt64s(xs));
            && |b| == 4 + 8 * |xs|
            && Digits(b[..4], 8 * |xs|, UINT32_SIZE)
            && forall j | 0 <= j < |xs| :: Digits(b[4 + 8 * j..4 + 8 * j + 8], xs[j], UINT64_SIZE)
  {
    var head, tail := Bytes(8 * |xs|, UINT32_SIZE), FlattenWords(xs);
    VectorBytes(xs);
    BytesHaveDigits(8 * |xs|, UINT32_SIZE);
    assert (head + tail)[..4] == head;
    forall j | 0 <= j < |xs| ensures Digits((head + tail)[4 + 8 * j..4 + 8 * j + 8], xs[j], UINT64_SIZE) {
      WordDigits(xs, j, 8 * j);
      WordInside(head, tail, 8 * j, xs[j]);
    }
  }

  // ----- Messages -----

  function EncodeAll(fs: seq<Field>): (b: seq<Byte>) {
    Framing.EncodeAll(Encode, fs)
  }

  function DecodeAll(ks: seq<Kind>, b: seq<Byte>): (r: Option<(seq<Field>, nat)>) {
    Framing.DecodeAll(Decode, ks, b)
  }

  ghost predicate AllFit(fs: seq<Field>) {
    forall f | f in fs :: Fits(f)
  }

  /** A message survives the trip exactly when each of its fields fits; the bytes behind it are never read. */
  lemma MessageRoundTrip(fs: seq<Field>, rest: seq<Byte>)
    ensures var d := DecodeAll(KindsOf(fs), EncodeAll(fs) + rest);
            d.Some? && d.value.1 == |EncodeAll(fs)| && (d.value.0 == fs <==> AllFit(fs))
  {
    forall f: Field, tail ensures Framing.Trips(Encode, Decode, KindOf, Fits, f, tail) {
      FieldRoundTrip(f, tail);
    }
    var _ := Framing.MessageDecodes(Encode, Decode, KindOf, Fits, fs, KindsOf(fs), rest);
  }

  /** No message is a proper prefix of another of the same schema, so concatenated messages split one way. */
  lemma EncodingIsPrefixFree(fs: seq<Field>, gs: seq<Field>, rest: seq<Byte>, rest': seq<Byte>)
    requires KindsOf(fs) == KindsOf(gs) && AllFit(fs) && AllFit(gs)
    requires EncodeAll(fs) + rest == EncodeAll(gs) + rest'
    ensures fs == gs && rest == rest'
  {
    MessageRoundTrip(fs, rest);
    MessageRoundTrip(gs, rest');
    assert rest == (EncodeAll(fs) + rest)[|EncodeAll(fs)|..];
    assert rest' == (EncodeAll(gs) + rest')[|EncodeAll(gs)|..];
  }

  // ----- The three passes as the macros run them -----

  /** The number of bytes one prepare macro accounts for. */
  function PreparedSize(f: Field): (n: nat)
    ensures n == |Encode(f)|
  {
    match f
    case FUInt64(_) => 8
    case FInt(_) => 4
    case FShort(_) => 2
    case FChar(_) => 1
    case FDouble(_) => 8
    case _ => LengthWordIsPayloadSize(f); LengthWord(f) + 4
  }

  lemma WrappedSum(a: nat, b: nat, sum: nat)
    requires sum == a + b
    ensures (a % UINT32_RANGE + b) % UINT32_RANGE == sum % UINT32_RANGE
  {
  }

  lemma PrefixLength(fs: seq<Field>, i: nat)
    requires i < |fs|
    ensures |EncodeAll(fs[..i + 1])| == |EncodeAll(fs[..i])| + |Encode(fs[i])|
  {
    PrefixEncoding(fs, i);
  }

  /** The size pass adds in 32 bits, so it is right exactly while the message stays below four gigabytes. */
  method Prepare(fs: seq<Field>) returns (len: UInt32)
    ensures len == |EncodeAll(fs)| % UINT32_RANGE
    ensures len == |EncodeAll(fs)| <==> |EncodeAll(fs)| < UINT32_RANGE
  {
    len := 0;
    for i := 0 to |fs|
      invariant len == |EncodeAll(fs[..i])| % UINT32_RANGE
    {
      PrefixLength(fs, i);
      var n := PreparedSize(fs[i]);
      WrappedSum(|EncodeAll(fs[..i])|, n, |EncodeAll(fs[..i + 1])|);
      len := (len + n) % UINT32_RANGE;
    }
    assert fs[..|fs|] == fs;
    Remainder(|EncodeAll(fs)|);
  }

  /** memcpy into the message buffer. */
  method CopyIn(buffer: array<Byte>, at: nat, bytes: seq<Byte>)
    requires at + |bytes| <= buffer.Length
    modifies buffer
    ensures buffer[..at + |bytes|] == old(buffer[..at]) + bytes
    ensures buffer[at + |bytes|..] == old(buffer[at + |bytes|..])
  {
    forall i | 0 <= i < |bytes| {
      buffer[at + i] := bytes[i];
    }
  }

  /** The shape both variable-size macros share; a zero length writes only the null marker. */
  method SerializePrefixed(buffer: array<Byte>, at: nat, len: UInt32, payload: seq<Byte>) returns (n: nat)
    requires |payload| == len && at + 4 + len <= buffer.Length
    modifies buffer
    ensures n == 4 + len
    ensures buffer[..at + n] == old(buffer[..at]) + (Bytes(len, UINT32_SIZE) + payload)
    ensures buffer[at + n..] == old(buffer[at + n..])
  {
    if len == 0 {
      ZeroLength();
      CopyIn(buffer, at, [0, 0, 0, 0]);
    } else {
      ghost var before, after := buffer[..at], buffer[at + 4..];
      assert after[len..] == buffer[at + 4 + len..];
      CopyIn(buffer, at, Bytes(len, UINT32_SIZE));
      CopyIn(buffer, at + 4, payload);
      assert before + Bytes(len, UINT32_SIZE) + payload == before + (Bytes(len, UINT32_SIZE) + payload);
      assert buffer[at + 4 + len..] == after[len..];
    }
    n := len + 4;
  }

  method SerializeField(buffer: array<Byte>, at: nat, f: Field) returns (n: nat)
    requires at + |Encode(f)| <= buffer.Length
    modifies buffer
    ensures n == |Encode(f)|
    ensures buffer[..at + n] == old(buffer[..at]) + Encode(f)
    ensures buffer[at + n..] == old(buffer[at + n..])
  {
    if f.FStr? || f.FUInt64s? {
      LengthWordIsPayloadSize(f);
      n := SerializePrefixed(buffer, at, LengthWord(f), Payload(f)[..LengthWord(f)]);
    } else {
      CopyIn(buffer, at, Encode(f));
      n := |Encode(f)|;
    }
  }

  lemma ZeroLength()
    ensures Bytes(0, UINT32_SIZE) == [0, 0, 0, 0]
  {
    assert Bytes(0, 1) == [0] && Bytes(0, 2) == [0, 0] && Bytes(0, 3) == [0, 0, 0];
  }

  method Serialize(fs: seq<Field>, buffer: array<Byte>) returns (n: nat)
    requires |EncodeAll(fs)| <= buffer.Length
    modifies buffer
    ensures n == |EncodeAll(fs)|
    ensures buffer[..n] == EncodeAll(fs) && buffer[n..] == old(buffer[n..])
  {
    n := 0;
    ghost var start := buffer[..];
    for i := 0 to |fs|
      invariant n == |EncodeAll(fs[..i])| <= |EncodeAll(fs)|
      invariant buffer[..n] == EncodeAll(fs[..i])
      invariant buffer[n..] == start[n..]
    {
      PrefixEncoding(fs, i);
      SuffixesAgree(buffer[..], start, n, |Encode(fs[i])|);
      var k := SerializeField(buffer, n, fs[i]);
      n := n + k;
    }
    assert fs[..|fs|] == fs;
  }

  lemma SuffixesAgree(a: seq<Byte>, b: seq<Byte>, n: nat, k: nat)
    requires |a| == |b| && n + k <= |a| && a[n..] == b[n..]
    ensures a[n + k..] == b[n + k..]
  {
    assert a[n..][k..] == a[n + k..] && b[n..][k..] == b[n + k..];
  }

  lemma {:induction false} EncodeAllIsMonotone(fs: seq<Field>, i: nat)
    requires i <= |fs|
    ensures |EncodeAll(fs[..i])| <= |EncodeAll(fs)|
  {
    if i < |fs| {
      EncodeAllIsMonotone(fs[..|fs| - 1], i);
      assert fs[..|fs| - 1][..i] == fs[..i];
    } else {
      assert fs[..i] == fs;
    }
  }

  lemma PrefixEncoding(fs: seq<Field>, i: nat)
    requires i < |fs|
    ensures EncodeAll(fs[..i + 1]) == EncodeAll(fs[..i]) + Encode(fs[i])
    ensures |EncodeAll(fs[..i + 1])| <= |EncodeAll(fs)|
  {
    assert fs[..i + 1][..i] == fs[..i];
    EncodeAllIsMonotone(fs, i + 1);
  }

  /** Reads the fields of a schema from a buffer; a false result stands for reading past its end. */
  method Deserialize(ks: seq<Kind>, buffer: array<Byte>) returns (ok: bool, fs: seq<Field>, n: nat)
    ensures ok <==> DecodeAll(ks, buffer[..]).Some?
    ensures ok ==> DecodeAll(ks, buffer[..]).value == (fs, n)
  {
    ok, fs, n := true, [], 0;
    for i := 0 to |ks|
      invariant DecodeAll(ks[..i], buffer[..]) == Some((fs, n))
    {
      assert ks[..i + 1][..i] == ks[..i];
      var d := if n <= buffer.Length then Decode(ks[i], buffer[n..]) else None;
      assert n <= buffer.Length ==> buffer[..][n..] == buffer[n..];
      if d.None? {
        DecodeAllFails(ks, i + 1, buffer[..]);
        return false, fs, n;
      }
      fs, n := fs + [d.value.0], n + d.value.1;
    }
    assert ks[..|ks|] == ks;
  }

  lemma {:induction false} DecodeAllFails(ks: seq<Kind>, i: nat, b: seq<Byte>)
    requires i <= |ks| && DecodeAll(ks[..i], b).None?
    ensures DecodeAll(ks, b).None?
  {
    if i < |ks| {
      assert ks[..|ks| - 1][..i] == ks[..i];
      DecodeAllFails(ks[..|ks| - 1], i, b);
    } else {
      assert ks[..i] == ks;
    }
  }

  /** The vector decoder appends the received words to whatever the target already holds. */
  method DeserializeVector(buffer: array<Byte>, at: nat, v: Vector<UInt64>) returns (n: nat)
    requires at <= buffer.Length && Prefixed(buffer[at..]).Some?
    requires v.Valid() && v.count + |Prefixed(buffer[at..]).value| / 8 <= if v.live then INT_MAX else v.capacity
    modifies v, v.values
    ensures v.Valid()
    ensures Decode(KUInt64s, buffer[at..]).Some?
    ensures var (f, size) := Decode(KUInt64s, buffer[at..]).value;
            v.Contents() == old(v.Contents()) + f.xs && n == size
  {
    var words := Prefixed(buffer[at..]).value;
    if 0 < |words| {
      v.AppendArray(Words(words));
    }
    n := |words| + 4;
  }

  /**
   A whole exchange: a buffer of the prepared size, filled by the encoder and read by the decoder. Prepared,
   written and consumed sizes agree, and the message arrives unchanged.
   */
  method Exchange(fs: seq<Field>) returns (received: seq<Field>, prepared: nat, written: nat, consumed: nat)
    requires AllFit(fs) && |EncodeAll(fs)| < UINT32_RANGE
    ensures received == fs
    ensures prepared == written == consumed
  {
    prepared := Prepare(fs);
    var buffer := new Byte[prepared];
    written := Serialize(fs, buffer);
    MessageRoundTrip(fs, []);
    assert buffer[..] == EncodeAll(fs) + [];
    var ok;
    ok, received, consumed := Deserialize(KindsOf(fs), buffer);
  }
}
