/** Unpadded URL-safe base64 (sections 3.5 and 5 of RFC 4648), as `src/crypto.rs` writes and reads it. */
module Base64Url {
  import opened Prelude

  type Sextet = x: int | 0 <= x < 64

  /** The alphabet of section 5: A-Z, a-z, 0-9, then `-` and `_`. */
  function Symbol(v: Sextet): char {
    if v < 26 then 'A' + v as char
    else if v < 52 then 'a' + (v - 26) as char
    else if v < 62 then '0' + (v - 52) as char
    else if v == 62 then '-' else '_'
  }

  predicate IsSymbol(c: char) {
    'A' <= c <= 'Z' || 'a' <= c <= 'z' || '0' <= c <= '9' || c == '-' || c == '_'
  }

  /** The value of a symbol: its position in the alphabet. */
  function Position(c: char): (v: Sextet)
    requires IsSymbol(c)
    ensures Symbol(v) == c
  {
    if 'A' <= c <= 'Z' then c as int - 'A' as int
    else if 'a' <= c <= 'z' then 26 + (c as int - 'a' as int)
    else if '0' <= c <= '9' then 52 + (c as int - '0' as int)
    else if c == '-' then 62 else 63
  }

  lemma PositionOfSymbol(v: Sextet)
    ensures Position(Symbol(v)) == v
  {
  }

  // ---------------------------------------------------------------------
  // The reference reading: a text and a byte string are numbers
  // ---------------------------------------------------------------------

  ghost predicate AllSymbols(t: string) {
    forall i :: 0 <= i < |t| ==> IsSymbol(t[i])
  }

  /** A text read as a big-endian number in base 64. */
  ghost function TextNumber(t: string): nat
    requires AllSymbols(t)
  {
    if t == [] then 0 else TextNumber(t[..|t| - 1]) * 64 + Position(t[|t| - 1])
  }

  /** A byte string read as a big-endian number in base 256. */
  ghost function ByteNumber(b: seq<byte>): nat {
    if b == [] then 0 else ByteNumber(b[..|b| - 1]) * 256 + b[|b| - 1]
  }

  /** Bit counts left over between sextets and octets. */
  type Bits = x: int | x == 0 || x == 2 || x == 4 || x == 6

  function ShiftLeft(n: nat, bits: Bits): nat {
    if bits == 0 then n else if bits == 2 then n * 4 else if bits == 4 then n * 16 else n * 64
  }

  function ShiftRight(n: nat, bits: Bits): nat {
    if bits == 0 then n else if bits == 2 then n / 4 else if bits == 4 then n / 16 else n / 64
  }

  function LowBits(n: nat, bits: Bits): nat {
    if bits == 0 then 0 else if bits == 2 then n % 4 else if bits == 4 then n % 16 else n % 64
  }

  /** `t` carries exactly the bits of `b`, followed by `pad` zero bits. */
  ghost predicate Carries(t: string, b: seq<byte>, pad: Bits) {
    && pad != 6
    && AllSymbols(t)
    && 6 * |t| == 8 * |b| + pad
    && TextNumber(t) == ShiftLeft(ByteNumber(b), pad)
  }

  lemma {:induction false} TextNumberInjective(s: string, t: string)
    requires AllSymbols(s) && AllSymbols(t)
    requires |s| == |t| && TextNumber(s) == TextNumber(t)
    ensures s == t
  {
    if s != [] {
      var n := |s| - 1;
      TextNumberInjective(s[..n], t[..n]);
      assert Symbol(Position(s[n])) == Symbol(Position(t[n]));
      assert s == s[..n] + [s[n]] && t == t[..n] + [t[n]];
    }
  }

  lemma {:induction false} ByteNumberInjective(a: seq<byte>, b: seq<byte>)
    requires |a| == |b| && ByteNumber(a) == ByteNumber(b)
    ensures a == b
  {
    if a != [] {
      var n := |a| - 1;
      ByteNumberInjective(a[..n], b[..n]);
      assert a == a[..n] + [a[n]] && b == b[..n] + [b[n]];
    }
  }

  // ---------------------------------------------------------------------
  // Encoding
  // ---------------------------------------------------------------------

  /** One group of up to three bytes: a group of `n` bytes emits `n + 1` symbols. */
  function Group(chunk: seq<byte>): (t: string)
    requires 1 <= |chunk| <= 3
    ensures |t| == |chunk| + 1 && AllSymbols(t)
  {
    var n := Number24(chunk);
    [Symbol(n / 0x4_0000 % 64), Symbol(n / 0x1000 % 64)]
    + (if |chunk| >= 2 then [Symbol(n / 64 % 64)] else [])
    + (if |chunk| == 3 then [Symbol(n % 64)] else [])
  }

  /** The group as one 24-bit number, zero-padded on the right. */
  function Number24(chunk: seq<byte>): nat
    requires 1 <= |chunk| <= 3
  {
    chunk[0] as int * 0x1_0000
    + (if |chunk| >= 2 then chunk[1] as int * 0x100 else 0)
    + (if |chunk| == 3 then chunk[2] as int else 0)
  }

  function TailLength(n: nat): (k: nat)
    requires n > 0
  {
    if n % 3 == 0 then 3 else n % 3
  }

  function Encode(b: seq<byte>): (t: string)
    ensures AllSymbols(t)
  {
    if b == [] then []
    else
      var cut := |b| - TailLength(|b|);
      Encode(b[..cut]) + Group(b[cut..])
  }

  function Padding(n: nat): (pad: Bits) {
    if n % 3 == 0 then 0 else if n % 3 == 1 then 4 else 2
  }

  lemma TextNumberSnoc(t: string, v: Sextet)
    requires AllSymbols(t)
    ensures AllSymbols(t + [Symbol(v)]) && TextNumber(t + [Symbol(v)]) == TextNumber(t) * 64 + v
  {
    var t' := t + [Symbol(v)];
    assert t'[..|t|] == t;
    PositionOfSymbol(v);
  }

  lemma ByteNumberSnoc(b: seq<byte>, x: byte)
    ensures ByteNumber(b + [x]) == ByteNumber(b) * 256 + x
  {
    assert (b + [x])[..|b|] == b;
  }

  /** The four sextets of a 24-bit number are its digits in base 64. */
  lemma Digits64(n: nat)
    requires n < 0x100_0000
    ensures n == ((n / 0x4_0000 % 64 * 64 + n / 0x1000 % 64) * 64 + n / 64 % 64) * 64 + n % 64
  {
    var a := n / 64;
    var b := a / 64;
    var c := b / 64;
    DivModUnique(n, 0x1000, b, a % 64 * 64 + n % 64);
    DivModUnique(n, 0x4_0000, c, (b % 64 * 64 + a % 64) * 64 + n % 64);
    DivModUnique(c, 64, 0, c);
  }

  lemma TwoSymbols(t: string, v: Sextet, w: Sextet)
    requires AllSymbols(t)
    ensures AllSymbols(t + [Symbol(v), Symbol(w)])
    ensures TextNumber(t + [Symbol(v), Symbol(w)]) == TextNumber(t) * 0x1000 + (v * 64 + w)
  {
    TextNumberSnoc(t, v);
    TextNumberSnoc(t + [Symbol(v)], w);
    assert t + [Symbol(v), Symbol(w)] == t + [Symbol(v)] + [Symbol(w)];
  }

  lemma ThreeSymbols(t: string, v: Sextet, w: Sextet, x: Sextet)
    requires AllSymbols(t)
    ensures AllSymbols(t + [Symbol(v), Symbol(w), Symbol(x)])
    ensures TextNumber(t + [Symbol(v), Symbol(w), Symbol(x)]) == TextNumber(t) * 0x4_0000 + ((v * 64 + w) * 64 + x)
  {
    TwoSymbols(t, v, w);
    TextNumberSnoc(t + [Symbol(v), Symbol(w)], x);
    assert t + [Symbol(v), Symbol(w), Symbol(x)] == t + [Symbol(v), Symbol(w)] + [Symbol(x)];
  }

  lemma FourSymbols(t: string, v: Sextet, w: Sextet, x: Sextet, y: Sextet)
    requires AllSymbols(t)
    ensures AllSymbols(t + [Symbol(v), Symbol(w), Symbol(x), Symbol(y)])
    ensures TextNumber(t + [Symbol(v), Symbol(w), Symbol(x), Symbol(y)])
         == TextNumber(t) * 0x100_0000 + (((v * 64 + w) * 64 + x) * 64 + y)
  {
    ThreeSymbols(t, v, w, x);
    TextNumberSnoc(t + [Symbol(v), Symbol(w), Symbol(x)], y);
    assert t + [Symbol(v), Symbol(w), Symbol(x), Symbol(y)] == t + [Symbol(v), Symbol(w), Symbol(x)] + [Symbol(y)];
  }

  lemma TwoBytes(b: seq<byte>, x: byte, y: byte)
    ensures ByteNumber(b + [x, y]) == ByteNumber(b) * 0x1_0000 + (x as int * 256 + y)
  {
    ByteNumberSnoc(b, x);
    ByteNumberSnoc(b + [x], y);
    assert b + [x, y] == b + [x] + [y];
  }

  lemma ThreeBytes(b: seq<byte>, x: byte, y: byte, z: byte)
    ensures ByteNumber(b + [x, y, z]) == ByteNumber(b) * 0x100_0000 + ((x as int * 256 + y as int) * 256 + z)
  {
    TwoBytes(b, x, y);
    ByteNumberSnoc(b + [x, y], z);
    assert b + [x, y, z] == b + [x, y] + [z];
  }

  lemma GroupOfOne(t: string, b: seq<byte>, chunk: seq<byte>)
    requires |chunk| == 1 && Carries(t, b, 0)
    ensures Carries(t + Group(chunk), b + chunk, 4)
  {
    var n := Number24(chunk);
    TwoSymbols(t, n / 0x4_0000 % 64, n / 0x1000 % 64);
    ByteNumberSnoc(b, chunk[0]);
    Digits64(n);
    DivModUnique(n, 64, 1024 * chunk[0] as int, 0);
    DivModUnique(n / 64, 64, 16 * chunk[0] as int, 0);
    assert Group(chunk) == [Symbol(n / 0x4_0000 % 64), Symbol(n / 0x1000 % 64)];
    assert chunk == [chunk[0]];
  }

  lemma GroupOfTwo(t: string, b: seq<byte>, chunk: seq<byte>)
    requires |chunk| == 2 && Carries(t, b, 0)
    ensures Carries(t + Group(chunk), b + chunk, 2)
  {
    var n := Number24(chunk);
    ThreeSymbols(t, n / 0x4_0000 % 64, n / 0x1000 % 64, n / 64 % 64);
    TwoBytes(b, chunk[0], chunk[1]);
    Digits64(n);
    DivModUnique(n, 64, 1024 * chunk[0] as int + 4 * chunk[1] as int, 0);
    assert Group(chunk) == [Symbol(n / 0x4_0000 % 64), Symbol(n / 0x1000 % 64), Symbol(n / 64 % 64)];
    assert chunk == [chunk[0], chunk[1]];
  }

  lemma GroupOfThree(t: string, b: seq<byte>, chunk: seq<byte>)
    requires |chunk| == 3 && Carries(t, b, 0)
    ensures Carries(t + Group(chunk), b + chunk, 0)
  {
    var n := Number24(chunk);
    FourSymbols(t, n / 0x4_0000 % 64, n / 0x1000 % 64, n / 64 % 64, n % 64);
    ThreeBytes(b, chunk[0], chunk[1], chunk[2]);
    Digits64(n);
    assert Group(chunk)
        == [Symbol(n / 0x4_0000 % 64), Symbol(n / 0x1000 % 64), Symbol(n / 64 % 64), Symbol(n % 64)];
    assert chunk == [chunk[0], chunk[1], chunk[2]];
  }

  lemma GroupNumber(t: string, b: seq<byte>, chunk: seq<byte>)
    requires 1 <= |chunk| <= 3 && Carries(t, b, 0)
    ensures Carries(t + Group(chunk), b + chunk, Padding(|chunk|))
  {
    if |chunk| == 1 {
      GroupOfOne(t, b, chunk);
    } else if |chunk| == 2 {
      GroupOfTwo(t, b, chunk);
    } else {
      GroupOfThree(t, b, chunk);
    }
  }

  lemma WholeGroupsBefore(n: nat)
    requires n > 0
    ensures TailLength(n) <= n && (n - TailLength(n)) % 3 == 0 && Padding(TailLength(n)) == Padding(n)
  {
  }

  /** Every encoding carries exactly its bytes, padded with zero bits to a whole sextet. */
  lemma {:induction false} EncodeCarries(b: seq<byte>)
    ensures Carries(Encode(b), b, Padding(|b|))
  {
    if b != [] {
      WholeGroupsBefore(|b|);
      var cut := |b| - TailLength(|b|);
      var head, tail := b[..cut], b[cut..];
      EncodeCarries(head);
      GroupNumber(Encode(head), head, tail);
      assert head + tail == b;
    }
  }

  lemma PaddingForced(symbols: nat, bytes: nat, pad: Bits)
    requires pad != 6 && 6 * symbols == 8 * bytes + pad
    ensures pad == Padding(bytes)
  {
    var q, r := bytes / 3, bytes % 3;
    assert 6 * (symbols - 4 * q) == 8 * r + pad;
  }

  /** Carrying determines the text: the encoding is the only text that carries `b`. */
  lemma OnlyEncodingCarries(t: string, b: seq<byte>, pad: Bits)
    ensures Carries(t, b, pad) <==> t == Encode(b) && pad == Padding(|b|)
  {
    EncodeCarries(b);
    if Carries(t, b, pad) {
      PaddingForced(|t|, |b|, pad);
      TextNumberInjective(t, Encode(b));
    }
  }

  /** Two byte strings never share an encoding. */
  lemma EncodeInjective(a: seq<byte>, b: seq<byte>)
    requires Encode(a) == Encode(b)
    ensures a == b
  {
    EncodeCarries(a);
    EncodeCarries(b);
    ByteNumberInjective(a, b);
  }

  lemma TailOfChunk(n: nat, k: nat)
    requires n % 3 == 0 && 1 <= k <= 3
    ensures TailLength(n + k) == k
  {
  }

  lemma EncodeSnoc(b: seq<byte>, chunk: seq<byte>)
    requires |b| % 3 == 0 && 1 <= |chunk| <= 3
    ensures Encode(b + chunk) == Encode(b) + Group(chunk)
  {
    var all := b + chunk;
    TailOfChunk(|b|, |chunk|);
    var cut := |all| - TailLength(|all|);
    assert cut == |b|;
    assert all[..cut] == b;
    assert all[cut..] == chunk;
  }

  lemma EncodeChunk(bytes: seq<byte>, k: nat)
    requires 3 * k < |bytes|
    ensures var end := Min(3 * k + 3, |bytes|);
      Encode(bytes[..end]) == Encode(bytes[..3 * k]) + Group(bytes[3 * k..end])
  {
    var end := Min(3 * k + 3, |bytes|);
    var head, chunk := bytes[..3 * k], bytes[3 * k..end];
    assert bytes[..end] == head + chunk;
    EncodeSnoc(head, chunk);
  }

  method EncodeGroup(chunk: seq<byte>) returns (out: string)
    requires 1 <= |chunk| <= 3
    ensures out == Group(chunk)
  {
    var n := Number24(chunk);
    var sextets := [n / 0x4_0000 % 64, n / 0x1000 % 64, n / 64 % 64, n % 64];
    out := [];
    for index := 0 to 4
      invariant out == Group(chunk)[..Min(index, |chunk| + 1)]
    {
      if index < |chunk| + 1 {
        out := out + [Symbol(sextets[index])];
      }
    }
  }

  method Base64UrlEncode(bytes: seq<byte>) returns (out: string)
    ensures out == Encode(bytes)
  {
    out := [];
    var chunk := 0;
    while 3 * chunk < |bytes|
      invariant 0 <= chunk && out == Encode(bytes[..Min(3 * chunk, |bytes|)])
    {
      var from, end := 3 * chunk, Min(3 * chunk + 3, |bytes|);
      var group := EncodeGroup(bytes[from..end]);
      EncodeChunk(bytes, chunk);
      out := out + group;
      chunk := chunk + 1;
    }
    assert bytes[..|bytes|] == bytes;
  }

  // ---------------------------------------------------------------------
  // Decoding
  // ---------------------------------------------------------------------

  /** One sextet shifted in: the accumulator's low `bits` survive the wrap of the `u32`. */
  lemma ShiftIn(acc: u32, v: Sextet, acc': u32)
    requires acc' == acc * 64 % 0x1_0000_0000 + v
    ensures acc' % 0x1000 == (acc * 64 + v) % 0x1000
    ensures acc' % 64 == v
  {
    var lost := acc * 64 / 0x1_0000_0000;
    assert acc' == acc * 64 + v - lost * 0x1_0000_0000;
    DivModUnique(acc', 64, acc - lost * 0x400_0000, v);
    DivModUnique(acc * 64 + v, 0x1000, acc' / 0x1000 + lost * 0x10_0000, acc' % 0x1000);
  }

  lemma LowerBits(n: nat)
    ensures n % 256 == n % 0x1000 % 256 && n % 1024 == n % 0x1000 % 1024
  {
    var q, r := n / 0x1000, n % 0x1000;
    DivModUnique(n, 256, 16 * q + r / 256, r % 256);
    DivModUnique(n, 1024, 4 * q + r / 1024, r % 1024);
  }

  lemma SameLowBits(a: nat, b: nat)
    requires a % 0x1000 == b % 0x1000
    ensures a % 256 == b % 256 && a % 1024 == b % 1024
  {
    LowerBits(a);
    LowerBits(b);
  }

  /** The octet that a sextet completes, with what is left over, is what was there before it. */
  lemma Completed(acc: u32, bits: Bits, v: Sextet, acc': u32, done: Bits)
    requires acc' % 0x1000 == (acc * 64 + v) % 0x1000
    requires bits == done + 2
    ensures ShiftLeft(ShiftRight(acc', done) % 256, done) + LowBits(acc', done)
         == LowBits(acc, bits) * 64 + v
  {
    SameLowBits(acc', acc * 64 + v);
    if bits == 2 {
      SextetOnTop(acc, v, 4);
    } else if bits == 4 {
      SextetOnTop(acc, v, 16);
      QuotientThenRest(acc', 4);
    } else {
      SextetOnTop(acc, v, 64);
      QuotientThenRest(acc', 16);
    }
  }

  lemma SextetOnTop(acc: nat, v: Sextet, k: nat)
    requires k == 4 || k == 16 || k == 64
    ensures (acc * 64 + v) % (k * 64) == acc % k * 64 + v
  {
    DivModUnique(acc * 64 + v, k * 64, acc / k, acc % k * 64 + v);
  }

  lemma QuotientThenRest(n: nat, k: nat)
    requires k == 4 || k == 16
    ensures n / k % 256 * k + n % k == n % (256 * k)
  {
    var q := n / k;
    DivModUnique(n, 256 * k, q / 256, q % 256 * k + n % k);
  }

  /** What the loop knows: the whole bytes are out, and the low bits of the accumulator are the rest. */
  ghost predicate Consumed(t: string, out: seq<byte>, accumulator: u32, bits: Bits) {
    && AllSymbols(t)
    && 6 * |t| == 8 * |out| + bits
    && TextNumber(t) == ShiftLeft(ByteNumber(out), bits) + LowBits(accumulator, bits)
  }

  lemma ConsumeSymbol(t: string, c: char, out: seq<byte>, acc: u32, bits: Bits, acc': u32)
    requires Consumed(t, out, acc, bits) && IsSymbol(c)
    requires acc' == acc * 64 % 0x1_0000_0000 + Position(c)
    ensures bits == 0 ==> Consumed(t + [c], out, acc', 6)
    ensures bits != 0 ==> Consumed(t + [c], out + [ShiftRight(acc', bits - 2) % 256], acc', bits - 2)
  {
    TextNumberSnoc(t, Position(c));
    ShiftIn(acc, Position(c), acc');
    if bits != 0 {
      Completed(acc, bits, Position(c), acc', bits - 2);
      ByteNumberSnoc(out, ShiftRight(acc', bits - 2) % 256);
    }
  }

  lemma ConsumeNext(text: string, i: nat, out: seq<byte>, acc: u32, bits: Bits, acc': u32)
    requires i < |text| && Consumed(text[..i], out, acc, bits) && IsSymbol(text[i])
    requires acc' == acc * 64 % 0x1_0000_0000 + Position(text[i])
    ensures bits == 0 ==> Consumed(text[..i + 1], out, acc', 6)
    ensures bits != 0 ==> Consumed(text[..i + 1], out + [ShiftRight(acc', bits - 2) % 256], acc', bits - 2)
  {
    ConsumeSymbol(text[..i], text[i], out, acc, bits, acc');
    assert text[..i + 1] == text[..i] + [text[i]];
  }

  lemma RejectedSymbol(t: string, i: nat)
    requires i < |t| && !IsSymbol(t[i])
    ensures forall b: seq<byte> :: t != Encode(b)
  {
    forall b: seq<byte> ensures t != Encode(b) {
      assert AllSymbols(Encode(b));
    }
  }

  /** The loop's body on a symbol: shift it in, and put out a byte as soon as there is one. */
  method TakeSymbol(text: string, i: nat, out: seq<byte>, acc: u32, pending: Bits)
    returns (longer: seq<byte>, accumulator: u32, bits: Bits)
    requires i < |text| && IsSymbol(text[i]) && Consumed(text[..i], out, acc, pending)
    ensures Consumed(text[..i + 1], longer, accumulator, bits)
  {
    accumulator := acc * 64 % 0x1_0000_0000 + Position(text[i]);
    ConsumeNext(text, i, out, acc, pending, accumulator);
    if pending + 6 >= 8 {
      bits := pending - 2;
      longer := out + [ShiftRight(accumulator, bits) % 256];
    } else {
      bits := pending + 6;
      longer := out;
    }
  }

  /**
   * The reader accepts exactly the encodings, although its accumulator is never masked and
   * its high bits fall off the top of a `u32`.
   */
  method Base64UrlDecode(text: string) returns (r: Option<seq<byte>>)
    ensures r.Some? ==> text == Encode(r.value)
    ensures forall b: seq<byte> :: text == Encode(b) ==> r == Some(b)
  {
    var out: seq<byte> := [];
    var accumulator: u32 := 0;
    var bits: Bits := 0;
    var i := 0;
    while i < |text|
      invariant 0 <= i <= |text|
      invariant Consumed(text[..i], out, accumulator, bits)
    {
      if !IsSymbol(text[i]) {
        RejectedSymbol(text, i);
        return None;
      }
      out, accumulator, bits := TakeSymbol(text, i, out, accumulator, bits);
      i := i + 1;
    }
    assert text[..i] == text;
    if bits >= 6 || LowBits(accumulator, bits) != 0 {
      NothingFits(text, out, accumulator, bits);
      return None;
    }
    AcceptedOnce(text, out, bits);
    return Some(out);
  }

  lemma NothingFits(t: string, out: seq<byte>, accumulator: u32, bits: Bits)
    requires Consumed(t, out, accumulator, bits)
    requires bits == 6 || LowBits(accumulator, bits) != 0
    ensures forall b: seq<byte> :: t != Encode(b)
  {
    forall b: seq<byte> ensures t != Encode(b) {
      Refused(t, out, accumulator, bits, b);
    }
  }

  lemma AcceptedOnce(t: string, out: seq<byte>, bits: Bits)
    requires Carries(t, out, bits)
    ensures t == Encode(out)
    ensures forall b: seq<byte> :: t == Encode(b) ==> b == out
  {
    OnlyEncodingCarries(t, out, bits);
    forall b: seq<byte> | t == Encode(b) ensures b == out {
      EncodeInjective(b, out);
    }
  }

  /** Left-over bits that are a whole sextet, or not zero, belong to no encoding. */
  lemma Refused(t: string, out: seq<byte>, accumulator: u32, bits: Bits, b: seq<byte>)
    requires Consumed(t, out, accumulator, bits)
    requires bits == 6 || LowBits(accumulator, bits) != 0
    ensures t != Encode(b)
  {
    if t == Encode(b) {
      EncodeCarries(b);
      SameRemainder(|b|, Padding(|b|), |out|, bits);
      NothingLeft(ByteNumber(b), ByteNumber(out), bits, LowBits(accumulator, bits));
      assert false;
    }
  }

  lemma SameRemainder(a: nat, x: Bits, b: nat, y: Bits)
    requires 8 * a + x == 8 * b + y
    ensures a == b && x == y
  {
  }

  lemma NothingLeft(a: nat, b: nat, bits: Bits, low: nat)
    requires ShiftLeft(a, bits) == ShiftLeft(b, bits) + low && low < ShiftLeft(1, bits)
    ensures low == 0
  {
    var k := ShiftLeft(1, bits);
    assert low == k * (a - b) by {
      if bits == 0 {
      } else if bits == 2 {
        assert low == 4 * (a - b);
      } else if bits == 4 {
        assert low == 16 * (a - b);
      } else {
        assert low == 64 * (a - b);
      }
    }
    MultipleGrows(k, a - b);
  }
}
