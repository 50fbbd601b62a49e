/**
 The base32 codec of lib/totp.ts (section 6 of RFC 4648, without padding). Both loops keep their
 pending bits at the bottom of a number that is shifted left and never masked, so it wraps at 32 bits.
 */
module Totp {
  import opened Js32

  type Byte = n: int | 0 <= n < 256

  const B32 := "ABCDEFGHIJKLMNOPQRSTUVWXYZ234567"

  // ----- Strings of digits as numbers

  /** The number a string of digits writes, most significant first. */
  function Number(digits: seq<int>, base: nat): int {
    if digits == [] then 0 else Number(digits[..|digits| - 1], base) * base + digits[|digits| - 1]
  }

  /** B32's character at i, and where B32 has c, -1 if it is not there. */
  function Letter(i: int): char
    requires 0 <= i < 32
  {
    if i < 26 then (i + 'A' as int) as char else (i - 26 + '2' as int) as char
  }

  function IndexOf(c: char): (i: int)
    ensures -1 <= i < 32
  {
    if 'A' <= c <= 'Z' then c as int - 'A' as int else if '2' <= c <= '7' then c as int - '2' as int + 26 else -1
  }

  lemma AlphabetIsB32()
    ensures |B32| == 32
    ensures forall i :: 0 <= i < 32 ==> Letter(i) == B32[i] && IndexOf(Letter(i)) == i
    ensures forall c :: IndexOf(c) >= 0 <==> c in B32
  {
    forall c | IndexOf(c) >= 0 ensures c in B32 {
      assert B32[IndexOf(c)] == c;
    }
  }

  /** The values of a string's characters, leaving out those that are in no alphabet. */
  function Digits(s: string): (d: seq<int>)
    ensures forall i :: 0 <= i < |d| ==> 0 <= d[i] < 32
  {
    if s == [] then []
    else Digits(s[..|s| - 1]) + (if IndexOf(s[|s| - 1]) < 0 then [] else [IndexOf(s[|s| - 1])])
  }

  predicate InAlphabet(s: string) {
    forall i :: 0 <= i < |s| ==> IndexOf(s[i]) >= 0
  }

  function Upper(s: string): (u: string)
    ensures |u| == |s|
  {
    seq(|s|, i requires 0 <= i < |s| => if 'a' <= s[i] <= 'z' then (s[i] as int - 32) as char else s[i])
  }

  predicate IsSpace(c: char) {
    c == ' ' || '\t' <= c <= '\r'
  }

  function WithoutSpaces(s: string): string {
    if s == [] then [] else WithoutSpaces(s[..|s| - 1]) + (if IsSpace(s[|s| - 1]) then [] else [s[|s| - 1]])
  }

  function WithoutPadding(s: string): string {
    if s != [] && s[|s| - 1] == '=' then WithoutPadding(s[..|s| - 1]) else s
  }

  function Clean(s: string): string {
    WithoutSpaces(WithoutPadding(Upper(s)))
  }

  // ----- What the two functions promise

  /** How many unused bits end the text of n bytes. */
  function Unused(n: nat): (p: nat)
    ensures p < 5 && (8 * n + p) % 5 == 0
  {
    (4 * (8 * n)) % 5
  }

  /** s writes the bytes' bits in groups of five, with zeros to fill the last group. */
  ghost predicate Writes(s: string, bytes: seq<Byte>) {
    && InAlphabet(s)
    && 5 * |s| == 8 * |bytes| + Unused(|bytes|)
    && Number(Digits(s), 32) == Number(bytes, 256) * Pow2(Unused(|bytes|))
  }

  /** The bytes are the whole octets at the front of s's bits. */
  ghost predicate Reads(bytes: seq<Byte>, s: string) {
    var d := Digits(Clean(s));
    && |bytes| == 5 * |d| / 8
    && Number(bytes, 256) == Number(d, 32) / Pow2(5 * |d| % 8)
  }

  // ----- Lemmas on the pending bits

  /** Shifting in s bits: the pending number grows by them, whatever the bits above it were. */
  lemma ShiftIn(value: int, bits: nat, s: nat, low: nat)
    requires 0 < s < 32 && bits + s < 32 && low < Pow2(s)
    ensures ToUint32(Or(Shl(value, s), low)) % Pow2(bits + s) == ToUint32(value) % Pow2(bits) * Pow2(s) + low
  {
    hide ToUint32, Shl, Or, Pow2;
    var u, p, q, hi := ToUint32(value), Pow2(s), Pow2(bits), ToUint32(Shl(value, s));
    LowFits(value, s, low);
    OrDisjointJs(Shl(value, s), low, s);
    Pow2Add(bits, s);
    NestedRemainder(hi, low, q, p);
    assert hi % (q * p) == u % q * p by {
      ShlUnsigned(value, s);
      Pow2Add(32 - bits - s, bits + s);
      ModOfMod(u * p, q * p, Pow2(32 - bits - s));
      ScaleMod(u, q, p);
    }
  }

  lemma ShlUnsigned(value: int, s: nat)
    requires s < 32
    ensures ToUint32(Shl(value, s)) == (ToUint32(value) * Pow2(s)) % Pow2(32)
  {
    hide Pow2;
    Pow2Values();
    assert s % 32 == s;
    SignedAndBack(ToUint32(value) * Pow2(s));
  }

  lemma LowFits(value: int, s: nat, low: nat)
    requires s < 32 && low < Pow2(s)
    ensures ToUint32(low) == low
    ensures ToUint32(Shl(value, s)) % Pow2(s) == 0
    ensures ToUint32(Shl(value, s)) + low < TWO_32
  {
    hide ToUint32, Shl;
    ShlUnsigned(value, s);
    Pow2Add(32 - s, s);
    Pow2Values();
    Pow2Monotone(s, 32);
    Unsigned(low);
    ShiftedOut(ToUint32(value), Pow2(s), Pow2(32 - s));
  }

  /** (u * p) mod (k * p) is a multiple of p, so at least p below k * p. */
  lemma ShiftedOut(u: nat, p: nat, k: nat)
    requires p > 0 && k > 0
    ensures k * p > 0
    ensures (u * p) % (k * p) == (u % k) * p && (u * p) % (k * p) % p == 0
    ensures (u * p) % (k * p) + p <= k * p
  {
    ScaleMod(u, k, p);
    DivModUnique((u % k) * p, p, u % k, 0);
    MulMonotone(u % k + 1, k, p);
  }

  lemma ScaleMod(u: nat, k: nat, p: nat)
    requires p > 0 && k > 0
    ensures k * p > 0
    ensures (u * p) % (k * p) == (u % k) * p
  {
    MulMonotone(1, k, p);
    assert u == (u / k) * k + u % k;
    assert u * p == (u / k) * (k * p) + (u % k) * p;
    MulMonotone(0, u % k, p);
    MulMonotone(u % k + 1, k, p);
    DivModUnique(u * p, k * p, u / k, (u % k) * p);
  }

  /** With room for low below each multiple of p, it just adds on. */
  lemma NestedRemainder(hi: nat, low: nat, q: nat, p: nat)
    requires p > 0 && q > 0 && low < p && hi % p == 0
    ensures q * p > 0
    ensures (hi + low) % (q * p) == hi % (q * p) + low
  {
    MulMonotone(1, q, p);
    var m := q * p;
    var h := hi / p;
    assert hi == h * p;
    ScaleMod(h, q, p);
    MulMonotone(h % q + 1, q, p);
    assert hi == (hi / m) * m + hi % m;
    DivModUnique(hi + low, m, hi / m, hi % m + low);
  }

  /** Taking the top s of the pending bits. */
  lemma TakeOut(value: int, bits: nat, s: nat)
    requires 0 < s <= bits < 32
    ensures And(Ushr(value, bits - s), Pow2(s) - 1) == ToUint32(value) % Pow2(bits) / Pow2(bits - s)
    ensures ToUint32(value) % Pow2(bits - s) == ToUint32(value) % Pow2(bits) % Pow2(bits - s)
  {
    hide And, ToUint32;
    var u, r := ToUint32(value), bits - s;
    assert r % 32 == r;
    AndLowJs(Ushr(value, r), s);
    Pow2Add(s, r);
    ModOfMod(u, Pow2(r), Pow2(s));
    DivOfMod(u, Pow2(r), Pow2(s));
  }

  lemma DivOfMod(u: nat, d: nat, k: nat)
    requires d > 0 && k > 0
    ensures k * d > 0
    ensures u % (k * d) / d == u / d % k
  {
    MulMonotone(1, k, d);
    var q := u / d;
    assert u == q * d + u % d;
    assert q == (q / k) * k + q % k;
    assert u == (q / k) * (k * d) + ((q % k) * d + u % d);
    MulMonotone(0, q % k, d);
    MulMonotone(q % k + 1, k, d);
    DivModUnique(u, k * d, q / k, (q % k) * d + u % d);
    DivModUnique((q % k) * d + u % d, d, q % k, u % d);
  }

  // ----- Lemmas on numbers

  lemma NumberPush(d: seq<int>, base: nat, x: int)
    ensures Number(d + [x], base) == Number(d, base) * base + x
  {
    assert (d + [x])[..|d|] == d;
  }

  lemma DigitsPush(s: string, c: char)
    ensures Digits(s + [c]) == Digits(s) + if IndexOf(c) < 0 then [] else [IndexOf(c)]
  {
    assert (s + [c])[..|s|] == s;
  }

  lemma {:induction false} DigitsOfAlphabet(s: string)
    requires InAlphabet(s)
    ensures |Digits(s)| == |s|
    ensures forall i :: 0 <= i < |s| ==> Digits(s)[i] == IndexOf(s[i])
  {
    hide IndexOf;
    if s != [] {
      var n := |s| - 1;
      DigitsOfAlphabet(s[..n]);
    }
  }

  /** Strings of digits of one length that write one number are the same. */
  lemma {:induction false} NumberInjective(x: seq<int>, y: seq<int>, base: nat)
    requires base > 0 && |x| == |y|
    requires forall i :: 0 <= i < |x| ==> 0 <= x[i] < base && 0 <= y[i] < base
    requires Number(x, base) == Number(y, base)
    ensures x == y
  {
    if x != [] {
      var n := |x| - 1;
      DivModUnique(Number(x, base), base, Number(x[..n], base), x[n]);
      DivModUnique(Number(y, base), base, Number(y[..n], base), y[n]);
      NumberInjective(x[..n], y[..n], base);
      assert x == x[..n] + [x[n]] && y == y[..n] + [y[n]];
    }
  }

  // ----- One turn of a loop

  /** Taking in s bits multiplies what has been read by 2^s and adds them. */
  lemma PushIn(head: int, value: int, bits: nat, s: nat, low: nat)
    requires 0 < s < 32 && bits + s < 32 && low < Pow2(s)
    ensures (head * Pow2(bits) + ToUint32(value) % Pow2(bits)) * Pow2(s) + low
            == head * Pow2(bits + s) + ToUint32(Or(Shl(value, s), low)) % Pow2(bits + s)
  {
    hide ToUint32, Shl, Or, Pow2;
    ShiftIn(value, bits, s, low);
    Pow2Add(bits, s);
    var l := ToUint32(value) % Pow2(bits);
    assert head * Pow2(bits + s) == head * Pow2(bits) * Pow2(s);
    assert (head * Pow2(bits) + l) * Pow2(s) == head * Pow2(bits) * Pow2(s) + l * Pow2(s);
  }

  /** Writing out the top s pending bits leaves what has been read as it was. */
  lemma PopOut(head: int, value: int, bits: nat, s: nat, t: int)
    requires 0 < s <= bits < 32
    requires t == And(Ushr(value, bits - s), Pow2(s) - 1)
    ensures 0 <= t < Pow2(s)
    ensures (head * Pow2(s) + t) * Pow2(bits - s) + ToUint32(value) % Pow2(bits - s)
            == head * Pow2(bits) + ToUint32(value) % Pow2(bits)
  {
    hide ToUint32, And, Ushr, Pow2;
    var r := bits - s;
    AndLowJs(Ushr(value, r), s);
    TakeOut(value, bits, s);
    Pow2Add(s, r);
    var l := ToUint32(value) % Pow2(bits);
    assert l == t * Pow2(r) + l % Pow2(r);
    assert (head * Pow2(s) + t) * Pow2(r) == head * (Pow2(s) * Pow2(r)) + t * Pow2(r);
  }

  lemma GroupOut(read: int, text: string, value: int, bits: nat, i: int)
    requires 5 <= bits <= 12 && i == And(Ushr(value, bits - 5), 31)
    requires Pending(read, Number(Digits(text), 32), value, bits)
    ensures 0 <= i < 32 && IndexOf(Letter(i)) == i
    ensures Pending(read, Number(Digits(text + [Letter(i)]), 32), value, bits - 5)
  {
    hide ToUint32, And, Ushr, Number, Digits;
    assert Pow2(5) == 32;
    PopOut(Number(Digits(text), 32), value, bits, 5, i);
    DigitsPush(text, Letter(i));
    NumberPush(Digits(text), 32, i);
  }

  lemma ByteOut(read: int, bytes: seq<Byte>, value: int, bits: nat, b: int)
    requires 8 <= bits <= 12 && b == And(Ushr(value, bits - 8), 0xff)
    requires Pending(read, Number(bytes, 256), value, bits)
    ensures 0 <= b < 256
    ensures Pending(read, Number(bytes + [b], 256), value, bits - 8)
  {
    hide ToUint32, And, Ushr, Number;
    assert Pow2(8) == 256;
    PopOut(Number(bytes, 256), value, bits, 8, b);
    NumberPush(bytes, 256, b);
  }

  /** The bits left at the end, moved to the top of a group of five. */
  lemma LastGroup(read: int, text: string, value: int, bits: nat, i: int)
    requires 0 < bits < 5 && i == And(Shl(value, 5 - bits), 31)
    requires Pending(read, Number(Digits(text), 32), value, bits)
    ensures 0 <= i < 32 && IndexOf(Letter(i)) == i
    ensures Number(Digits(text + [Letter(i)]), 32) == read * Pow2(5 - bits)
  {
    hide ToUint32, And, Shl, Number, Digits;
    var pad, head := 5 - bits, Number(Digits(text), 32);
    LastFive(value, pad, i);
    DigitsPush(text, Letter(i));
    NumberPush(Digits(text), 32, i);
    PushIn(head, value, bits, pad, 0);
    assert bits + pad == 5 && Pow2(5) == 32;
  }

  lemma LastFive(value: int, pad: nat, i: int)
    requires i == And(Shl(value, pad), 31)
    ensures 0 <= i < 32 && i == ToUint32(Or(Shl(value, pad), 0)) % 32
  {
    hide ToUint32, And, Shl, Or;
    assert Pow2(5) == 32;
    AndLowJs(Shl(value, pad), 5);
    OrZero(Shl(value, pad));
    ModTwice(Shl(value, pad));
  }

  lemma OrZero(x: int)
    ensures ToUint32(Or(x, 0)) == ToUint32(x)
  {
    SignedAndBack(ToUint32(x));
    assert ToUint32(0) == 0;
    assert OrBits(ToUint32(x), 0) == ToUint32(x);
  }

  lemma ModTwice(x: int)
    ensures ToUint32(x) % 32 == x % 32
  {
    ModOfMod(x, 32, 0x800_0000);
  }

  /** What has been read is what has been written, then the pending bits. */
  ghost predicate Pending(read: int, written: int, value: int, bits: nat) {
    read == written * Pow2(bits) + ToUint32(value) % Pow2(bits)
  }

  lemma NoDigits(s: string)
    requires |s| == 0
    ensures Digits(s) == []
  {
  }

  lemma NothingPending(read: int, written: int, value: int)
    ensures Pending(read, written, value, 0) <==> read == written
    ensures Pow2(0) == 1
  {
  }

  lemma NoNumber(d: seq<int>, base: nat)
    requires |d| == 0
    ensures Number(d, base) == 0
  {
  }

  lemma ReadByte(buf: seq<Byte>, n: nat, text: string, value: int, bits: nat)
    requires n < |buf| && bits < 5
    requires Pending(Number(buf[..n], 256), Number(Digits(text), 32), value, bits)
    ensures Pending(Number(buf[..n + 1], 256), Number(Digits(text), 32), Or(Shl(value, 8), buf[n]), bits + 8)
  {
    hide ToUint32, Shl, Or, Number, Digits;
    Pow2Values();
    assert buf[..n + 1] == buf[..n] + [buf[n]];
    NumberPush(buf[..n], 256, buf[n]);
    PushIn(Number(Digits(text), 32), value, bits, 8, buf[n]);
  }

  lemma ReadDigit(s: string, n: nat, bytes: seq<Byte>, value: int, bits: nat, idx: int)
    requires n < |s| && bits < 8 && idx == IndexOf(s[n])
    requires Pending(Number(Digits(s[..n]), 32), Number(bytes, 256), value, bits)
    ensures |Digits(s[..n + 1])| == |Digits(s[..n])| + if idx < 0 then 0 else 1
    ensures if idx < 0 then Pending(Number(Digits(s[..n + 1]), 32), Number(bytes, 256), value, bits)
            else Pending(Number(Digits(s[..n + 1]), 32), Number(bytes, 256), Or(Shl(value, 5), idx), bits + 5)
  {
    hide ToUint32, Shl, Or, Number, Digits;
    Pow2Values();
    var d := Digits(s[..n]);
    assert s[..n + 1] == s[..n] + [s[n]];
    DigitsPush(s[..n], s[n]);
    if idx < 0 {
      assert d + [] == d;
    } else {
      NumberPush(d, 32, idx);
      PushIn(Number(bytes, 256), value, bits, 5, idx);
    }
  }

  lemma WholeBytes(read: int, written: int, value: int, bits: nat)
    requires Pending(read, written, value, bits)
    ensures read / Pow2(bits) == written
  {
    DivModUnique(read, Pow2(bits), written, ToUint32(value) % Pow2(bits));
  }

  // ----- The source's loops

  method B32Encode(buf: seq<Byte>) returns (result: string)
    ensures Writes(result, buf)
  {
    hide Pending, Number, Digits, Shl, Ushr, Or, And, Pow2, Unused, IndexOf, Letter;
    result := "";
    var bits, value := 0, 0;
    NothingPending(0, 0, 0);
    NoDigits(result);
    NoNumber(Digits(result), 32);
    NoNumber(buf[..0], 256);
    for n := 0 to |buf|
      invariant bits < 5 && 8 * n == 5 * |result| + bits
      invariant InAlphabet(result)
      invariant Pending(Number(buf[..n], 256), Number(Digits(result), 32), value, bits)
    {
      ReadByte(buf, n, result, value, bits);
      value := Or(Shl(value, 8), buf[n]);
      bits := bits + 8;
      while bits >= 5
        invariant bits <= 12 && 8 * (n + 1) == 5 * |result| + bits
        invariant InAlphabet(result)
        invariant Pending(Number(buf[..n + 1], 256), Number(Digits(result), 32), value, bits)
      {
        var i := And(Ushr(value, bits - 5), 31);
        GroupOut(Number(buf[..n + 1], 256), result, value, bits, i);
        result := result + [Letter(i)];
        bits := bits - 5;
      }
    }
    assert buf[..|buf|] == buf;
    if bits > 0 {
      var i := And(Shl(value, 5 - bits), 31);
      LastGroup(Number(buf, 256), result, value, bits, i);
      result := result + [Letter(i)];
    } else {
      NothingPending(Number(buf, 256), Number(Digits(result), 32), value);
    }
  }

  method B32Decode(str: string) returns (bytes: seq<Byte>)
    ensures Reads(bytes, str)
  {
    hide Pending, Number, Digits, Shl, Ushr, Or, And, Pow2, IndexOf, Clean;
    var clean := Clean(str);
    var bits, value := 0, 0;
    bytes := [];
    NothingPending(0, 0, 0);
    NoDigits(clean[..0]);
    NoNumber(Digits(clean[..0]), 32);
    NoNumber(bytes, 256);
    for n := 0 to |clean|
      invariant bits < 8 && 5 * |Digits(clean[..n])| == 8 * |bytes| + bits
      invariant Pending(Number(Digits(clean[..n]), 32), Number(bytes, 256), value, bits)
    {
      var idx := IndexOf(clean[n]);
      ReadDigit(clean, n, bytes, value, bits, idx);
      if idx < 0 { continue; }
      value := Or(Shl(value, 5), idx);
      bits := bits + 5;
      if bits >= 8 {
        var b := And(Ushr(value, bits - 8), 0xff);
        ByteOut(Number(Digits(clean[..n + 1]), 32), bytes, value, bits, b);
        bytes := bytes + [b];
        bits := bits - 8;
      }
    }
    assert clean[..|clean|] == clean;
    WholeBytes(Number(Digits(clean), 32), Number(bytes, 256), value, bits);
  }

  // ----- The round trip

  lemma UpperStays(c: char)
    requires IndexOf(c) >= 0
    ensures !IsSpace(c) && c != '=' && !('a' <= c <= 'z')
  {
  }

  lemma {:induction false} SpacesStay(s: string)
    requires InAlphabet(s)
    ensures WithoutSpaces(s) == s
  {
    hide IsSpace;
    if s != [] {
      var n := |s| - 1;
      assert s == s[..n] + [s[n]];
      UpperStays(s[n]);
      SpacesStay(s[..n]);
    }
  }

  /** Cleaning an encoding changes nothing. */
  lemma CleanStays(s: string)
    requires InAlphabet(s)
    ensures Clean(s) == s
  {
    forall i | 0 <= i < |s| ensures s[i] != '=' && !('a' <= s[i] <= 'z') { UpperStays(s[i]); }
    assert Upper(s) == s;
    SpacesStay(s);
  }

  /** What encoding promises fixes the text. */
  lemma WritesUnique(s: string, t: string, bytes: seq<Byte>)
    requires Writes(s, bytes) && Writes(t, bytes)
    ensures s == t
  {
    DigitsOfAlphabet(s);
    DigitsOfAlphabet(t);
    NumberInjective(Digits(s), Digits(t), 32);
    forall i | 0 <= i < |s| ensures s[i] == t[i] { SameIndexSameLetter(s[i], t[i]); }
  }

  lemma SameIndexSameLetter(c: char, d: char)
    requires IndexOf(c) == IndexOf(d) >= 0
    ensures c == d
  {
  }

  /** Decoding any text with the alphabet characters of an encoding gives the bytes back. */
  lemma RoundTripOf(x: seq<Byte>, text: string, shown: string, y: seq<Byte>)
    requires Writes(text, x)
    requires Digits(Clean(shown)) == Digits(text)
    requires Reads(y, shown)
    ensures y == x
  {
    var pad := Unused(|x|);
    DigitsOfAlphabet(text);
    assert 5 * |text| % 8 == pad && 5 * |text| / 8 == |x|;
    DivModUnique(Number(Digits(text), 32), Pow2(pad), Number(x, 256), 0);
    NumberInjective(y, x, 256);
  }

  /** For every byte sequence: whatever encoding returns, decoding it returns the bytes. */
  lemma RoundTrip(x: seq<Byte>, text: string, y: seq<Byte>)
    requires Writes(text, x) && Reads(y, text)
    ensures y == x
  {
    CleanStays(text);
    RoundTripOf(x, text, text, y);
  }
}
