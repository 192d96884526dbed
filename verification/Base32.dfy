/** Base32 without padding, and the proof that it satisfies what the capability code relies on. */
module Base32 {
  import opened Arithmetic
  import opened Basics
  import opened TreeShape
  import opened Caps
  import opened CapProofs

  // ---- Numbers as bits, most significant first ----------------------------

  function BitsOf(v: nat, width: nat): (b: seq<bool>)
    ensures |b| == width
  {
    if width == 0 then [] else BitsOf(v / 2, width - 1) + [v % 2 == 1]
  }

  function ValueOf(b: seq<bool>): nat {
    if b == [] then 0 else 2 * ValueOf(b[..|b| - 1]) + if b[|b| - 1] then 1 else 0
  }

  lemma {:induction false} ValueOfBits(v: nat, width: nat)
    requires v < Pow2(width)
    ensures ValueOf(BitsOf(v, width)) == v
  {
    if width > 0 {
      ValueOfBits(v / 2, width - 1);
      assert BitsOf(v, width)[..width - 1] == BitsOf(v / 2, width - 1);
    }
  }

  lemma {:induction false} BitsOfValue(b: seq<bool>)
    ensures ValueOf(b) < Pow2(|b|) && BitsOf(ValueOf(b), |b|) == b
  {
    if b != [] {
      var front := b[..|b| - 1];
      BitsOfValue(front);
      assert ValueOf(b) / 2 == ValueOf(front);
      assert b == front + [b[|b| - 1]];
    }
  }

  // ---- Groups of bits -----------------------------------------------------

  function Flatten(vals: seq<nat>, width: nat): (b: seq<bool>)
    ensures |b| == |vals| * width
  {
    if vals == [] then [] else BitsOf(vals[0], width) + Flatten(vals[1..], width)
  }

  function Chunks(b: seq<bool>, width: nat, count: nat): (vals: seq<nat>)
    requires |b| == count * width
    ensures |vals| == count
  {
    if count == 0 then []
    else
      MultipleStep(count, width);
      [ValueOf(b[..width])] + Chunks(b[width..], width, count - 1)
  }

  lemma MultipleStep(count: nat, width: nat)
    requires count > 0
    ensures count * width == width + (count - 1) * width
  {
  }

  lemma {:induction false} ChunksInverse(vals: seq<nat>, width: nat)
    requires forall i :: 0 <= i < |vals| ==> vals[i] < Pow2(width)
    ensures Chunks(Flatten(vals, width), width, |vals|) == vals
  {
    if vals != [] {
      var b := Flatten(vals, width);
      MultipleStep(|vals|, width);
      assert b[..width] == BitsOf(vals[0], width) && b[width..] == Flatten(vals[1..], width);
      ValueOfBits(vals[0], width);
      ChunksInverse(vals[1..], width);
      assert vals == [vals[0]] + vals[1..];
    }
  }

  lemma ChunksStep(b: seq<bool>, width: nat, count: nat)
    requires count > 0 && |b| == count * width
    ensures width <= |b| && |b[width..]| == (count - 1) * width
    ensures Chunks(b, width, count) == [ValueOf(b[..width])] + Chunks(b[width..], width, count - 1)
  {
    MultipleStep(count, width);
  }

  lemma {:induction false} FlattenInverse(b: seq<bool>, width: nat, count: nat)
    requires |b| == count * width
    ensures Flatten(Chunks(b, width, count), width) == b
    ensures forall i :: 0 <= i < count ==> Chunks(b, width, count)[i] < Pow2(width)
    decreases count
  {
    hide BitsOf, ValueOf, Pow2, Chunks;
    if count > 0 {
      ChunksStep(b, width, count);
      var first, rest := b[..width], b[width..];
      var vals := Chunks(rest, width, count - 1);
      BitsOfValue(first);
      FlattenInverse(rest, width, count - 1);
      assert ([ValueOf(first)] + vals)[1..] == vals;
      assert b == first + rest;
    } else {
      NoChunks(b, width);
    }
  }

  lemma NoChunks(b: seq<bool>, width: nat)
    requires |b| == 0
    ensures b == [] && Chunks(b, width, 0) == [] && Flatten([], width) == []
  {
  }

  // ---- Characters ---------------------------------------------------------

  function QuintetChar(v: nat): (c: char)
    requires v < 32
    ensures IsBase32Char(c) && Quintet(c) == v
  {
    if v < 26 then 'a' + v as char else '2' + (v - 26) as char
  }

  function Values(x: Bytes): seq<nat> {
    seq(|x|, i requires 0 <= i < |x| => x[i] as int)
  }

  function FromValues(vals: seq<nat>): Bytes
    requires forall i :: 0 <= i < |vals| ==> vals[i] < 256
  {
    seq(|vals|, i requires 0 <= i < |vals| => vals[i] as char)
  }

  function Quintets(s: Bytes): seq<nat>
    requires IsBase32(s)
  {
    seq(|s|, i requires 0 <= i < |s| => Quintet(s[i]))
  }

  function FromQuintets(vals: seq<nat>): (s: Bytes)
    requires forall i :: 0 <= i < |vals| ==> vals[i] < 32
    ensures IsBase32(s) && Quintets(s) == vals
  {
    seq(|vals|, i requires 0 <= i < |vals| => QuintetChar(vals[i]))
  }

  lemma QuintetsInverse(s: Bytes)
    requires IsBase32(s)
    ensures forall i :: 0 <= i < |s| ==> Quintets(s)[i] < 32
    ensures FromQuintets(Quintets(s)) == s
  {
    var t := FromQuintets(Quintets(s));
    forall i | 0 <= i < |s|
      ensures t[i] == s[i]
    {
      QuintetInjective(t[i], s[i]);
    }
  }

  lemma QuintetInjective(a: char, b: char)
    requires IsBase32Char(a) && IsBase32Char(b) && Quintet(a) == Quintet(b)
    ensures a == b
  {
  }

  // ---- Encoding and decoding ----------------------------------------------

  /** The number of quintets for n bytes, and of bytes in n quintets. */
  function QuintetCount(n: nat): nat {
    (8 * n + 4) / 5
  }

  function ByteCount(n: nat): nat {
    5 * n / 8
  }

  function Zeros(n: nat): seq<bool> {
    seq(n, i => false)
  }

  function Padded(b: seq<bool>, n: nat): seq<bool>
    requires |b| <= n
  {
    b + Zeros(n - |b|)
  }

  lemma Width()
    ensures Pow2(8) == 256 && Pow2(5) == 32
  {
    assert Pow2(1) == 2 && Pow2(2) == 4 && Pow2(3) == 8 && Pow2(4) == 16;
    assert Pow2(5) == 32 && Pow2(6) == 64 && Pow2(7) == 128;
  }

  /** The bits of n bytes, padded with zeros to whole quintets. */
  function PaddedBits(x: Bytes): (b: seq<bool>)
    ensures |b| == QuintetCount(|x|) * 5
  {
    Padded(Flatten(Values(x), 8), QuintetCount(|x|) * 5)
  }

  /** `b2a`. */
  function B2a(x: Bytes): (s: Bytes)
    ensures IsBase32(s) && |s| == QuintetCount(|x|)
  {
    Width();
    FlattenInverse(PaddedBits(x), 5, QuintetCount(|x|));
    FromQuintets(Chunks(PaddedBits(x), 5, QuintetCount(|x|)))
  }

  /** The whole bytes in the bits of a base32 string. */
  function WholeBytes(s: Bytes): (b: seq<bool>)
    requires IsBase32(s)
    ensures |b| == ByteCount(|s|) * 8
  {
    Flatten(Quintets(s), 5)[..ByteCount(|s|) * 8]
  }

  /** `a2b` of a base32 string. */
  function A2b(s: Bytes): (x: Bytes)
    ensures IsBase32(s) ==> |x| == ByteCount(|s|) && IsByteString(x)
  {
    if !IsBase32(s) then "" else
    Width();
    FlattenInverse(WholeBytes(s), 8, ByteCount(|s|));
    FromValues(Chunks(WholeBytes(s), 8, ByteCount(|s|)))
  }

  lemma DecodeInverse(x: Bytes)
    requires IsByteString(x)
    ensures A2b(B2a(x)) == x
  {
    var n, s := QuintetCount(|x|), B2a(x);
    Width();
    FlattenInverse(PaddedBits(x), 5, n);
    assert Flatten(Quintets(s), 5) == PaddedBits(x);
    assert ByteCount(n) == |x|;
    assert WholeBytes(s) == Flatten(Values(x), 8);
    ChunksInverse(Values(x), 8);
    assert FromValues(Values(x)) == x;
  }

  // ---- The last character -------------------------------------------------

  lemma {:induction false} LowBitsClear(v: nat, width: nat, low: nat)
    requires low <= width
    ensures BitsOf(v, width)[width - low..] == Zeros(low) <==> v % Pow2(low) == 0
  {
    var b := BitsOf(v, width);
    if low == 0 {
      assert b[width..] == [];
      assert Pow2(0) == 1;
    } else {
      LowBitsClear(v / 2, width - 1, low - 1);
      var front := BitsOf(v / 2, width - 1);
      assert b == front + [v % 2 == 1];
      assert b[width - low..] == front[width - low..] + [v % 2 == 1];
      assert Zeros(low) == Zeros(low - 1) + [false];
      HalveModulo(v, Pow2(low - 1));
      if b[width - low..] == Zeros(low) {
        assert front[width - low..] == b[width - low..][..low - 1] == Zeros(low - 1);
        assert b[width - low..][low - 1] == false;
      }
    }
  }

  lemma HalveModulo(v: nat, p: nat)
    requires p > 0
    ensures v % (2 * p) == 0 <==> v % 2 == 0 && (v / 2) % p == 0
  {
    var q, r := v / 2 / p, (v / 2) % p;
    Divide(v / 2, p);
    Swap(2, q, p);
    DivideUnique(v, 2 * p, q, 2 * r + v % 2);
  }

  lemma {:induction false} FlattenLast(vals: seq<nat>, width: nat)
    requires vals != []
    ensures width <= |vals| * width
    ensures Flatten(vals, width)[|vals| * width - width..] == BitsOf(vals[|vals| - 1], width)
  {
    MultipleStep(|vals|, width);
    var b := Flatten(vals, width);
    if |vals| == 1 {
      assert Flatten(vals[1..], width) == [];
    } else {
      var tail := vals[1..];
      FlattenLast(tail, width);
      MultipleStep(|tail|, width);
      assert b[|vals| * width - width..] == Flatten(tail, width)[|tail| * width - width..];
    }
  }

  /** The bits beyond the whole bytes are clear exactly when the last character says so. */
  lemma TailClear(s: Bytes, low: nat)
    requires IsBase32(s) && s != "" && low <= 5
    ensures Flatten(Quintets(s), 5)[|s| * 5 - low..] == Zeros(low) <==> EndsClear(s, Pow2(low))
  {
    hide BitsOf, Pow2, Flatten;
    var vals := Quintets(s);
    var b, last := Flatten(vals, 5), vals[|vals| - 1];
    FlattenLast(vals, 5);
    assert b[|s| * 5 - low..] == b[|s| * 5 - 5..][5 - low..];
    LowBitsClear(last, 5, low);
  }

  /** How many bits are left over, by the length of the string. */
  function Leftover(n: nat): Option<nat> {
    match n % 8
    case 0 => Some(0)
    case 2 => Some(2)
    case 4 => Some(4)
    case 5 => Some(1)
    case 7 => Some(3)
    case _ => None
  }

  /** The quintets that b < 5 bytes need. */
  function SmallCount(b: nat): nat
    requires b < 5
  {
    match b
    case 0 => 0
    case 1 => 2
    case 2 => 4
    case 3 => 5
    case 4 => 7
  }

  lemma Counts(a: nat, b: nat)
    requires b < 5
    ensures QuintetCount(5 * a + b) == 8 * a + SmallCount(b)
    ensures ByteCount(8 * a + SmallCount(b)) == 5 * a + b
    ensures Leftover(8 * a + SmallCount(b)) == Some(5 * SmallCount(b) - 8 * b)
  {
    var c := SmallCount(b);
    DivideUnique(8 * (5 * a + b) + 4, 5, 8 * a + c, 8 * b + 4 - 5 * c);
    DivideUnique(5 * (8 * a + c), 8, 5 * a + b, 5 * c - 8 * b);
    DivideUnique(8 * a + c, 8, a, c);
  }

  lemma LeftoverCounts(n: nat)
    ensures Leftover(QuintetCount(n)) == Some(QuintetCount(n) * 5 - n * 8) && ByteCount(QuintetCount(n)) == n
    ensures Leftover(n).Some? ==> Leftover(n) == Some(n * 5 - ByteCount(n) * 8) && QuintetCount(ByteCount(n)) == n
  {
    hide QuintetCount, ByteCount;
    Divide(n, 5);
    Counts(n / 5, n % 5);
    Divide(n, 8);
    if Leftover(n).Some? {
      var b := match n % 8 case 0 => 0 case 2 => 1 case 4 => 2 case 5 => 3 case _ => 4;
      Counts(n / 8, b);
    }
  }

  lemma AnyBytesIff(s: Bytes)
    requires IsBase32(s)
    ensures IsAnyBytes(s) <==> Leftover(|s|).Some? && (s == "" || EndsClear(s, Pow2(Leftover(|s|).value)))
  {
    assert Pow2(0) == 1 && Pow2(1) == 2 && Pow2(2) == 4 && Pow2(3) == 8 && Pow2(4) == 16;
  }

  /** What `b2a` produces fits the pattern for any number of bytes. */
  lemma EncodedPattern(x: Bytes)
    ensures IsAnyBytes(B2a(x))
  {
    hide Flatten, Chunks, Pow2, IsAnyBytes, EndsClear, QuintetCount, Leftover, Padded;
    var n, s := QuintetCount(|x|), B2a(x);
    var low := n * 5 - |x| * 8;
    LeftoverCounts(|x|);
    LeftoverSmall(n);
    Width();
    FlattenInverse(PaddedBits(x), 5, n);
    assert Flatten(Quintets(s), 5) == PaddedBits(x);
    PaddedTail(Flatten(Values(x), 8), n * 5);
    AnyBytesIff(s);
    if s != "" {
      TailClear(s, low);
    }
  }

  lemma LeftoverSmall(n: nat)
    ensures Leftover(n).Some? ==> Leftover(n).value < 5
  {
  }

  lemma PaddedTail(b: seq<bool>, n: nat)
    requires |b| <= n
    ensures Padded(b, n)[|b|..] == Zeros(n - |b|)
  {
  }

  /** Encoding what was decoded gives the same string. */
  lemma EncodeInverse(s: Bytes)
    requires IsAnyBytes(s)
    ensures B2a(A2b(s)) == s
  {
    hide Flatten, Chunks, Pow2, IsAnyBytes, EndsClear, QuintetCount, Leftover, ByteCount;
    AnyBytesIsBase32(s);
    var x, m := A2b(s), ByteCount(|s|);
    var bits, low := Flatten(Quintets(s), 5), |s| * 5 - m * 8;
    AnyBytesIff(s);
    LeftoverCounts(|s|);
    LeftoverSmall(|s|);
    Width();
    FlattenInverse(WholeBytes(s), 8, m);
    assert Values(x) == Chunks(WholeBytes(s), 8, m);
    if s != "" {
      TailClear(s, low);
      assert bits == bits[..m * 8] + bits[m * 8..];
    }
    assert PaddedBits(x) == bits;
    QuintetsInverse(s);
    ChunksInverse(Quintets(s), 5);
  }

  lemma AnyBytesIsBase32(s: Bytes)
    ensures IsAnyBytes(s) ==> IsBase32(s)
  {
  }

  lemma KeyLengths(s: Bytes)
    requires IsAnyBytes(s)
    ensures |s| == 26 ==> Is128(s)
    ensures |s| == 52 ==> Is256(s)
    ensures QuintetCount(16) == 26 && QuintetCount(32) == 52 && ByteCount(26) == 16 && ByteCount(52) == 32
    ensures ByteCount(|s|) <= |s|
  {
  }

  /** With this base32 and any hashes of 16 bytes, everything the capability code relies on holds. */
  lemma LawsHold(storageIndexHash: Bytes -> Bytes, readkeyHash: Bytes -> Bytes, sskStorageIndexHash: Bytes -> Bytes)
    requires forall k: Bytes :: IsKey(storageIndexHash(k)) && IsKey(readkeyHash(k)) && IsKey(sskStorageIndexHash(k))
    ensures Laws(Primitives(B2a, A2b, storageIndexHash, readkeyHash, sskStorageIndexHash))
  {
    hide B2a, A2b, IsAnyBytes, Is128, Is256, IsByteString, ByteCount, QuintetCount;
    forall x: Bytes | IsByteString(x)
      ensures IsAnyBytes(B2a(x)) && A2b(B2a(x)) == x
      ensures |x| == 16 ==> Is128(B2a(x))
      ensures |x| == 32 ==> Is256(B2a(x))
    {
      EncodedPattern(x);
      DecodeInverse(x);
      KeyLengths(B2a(x));
    }
    forall s: Bytes | IsAnyBytes(s)
      ensures B2a(A2b(s)) == s && IsByteString(A2b(s)) && |A2b(s)| <= |s|
      ensures |s| == 26 ==> |A2b(s)| == 16
      ensures |s| == 52 ==> |A2b(s)| == 32
    {
      EncodeInverse(s);
      AnyBytesIsBase32(s);
      KeyLengths(s);
    }
    forall s: Bytes
      ensures Is128(s) || Is256(s) ==> IsAnyBytes(s)
      ensures (Is128(s) ==> |s| == 26) && (Is256(s) ==> |s| == 52)
    {
      KeyPatterns(s);
      KeyStringLengths(s);
    }
  }

  lemma KeyStringLengths(s: Bytes)
    ensures (Is128(s) ==> |s| == 26) && (Is256(s) ==> |s| == 52)
  {
  }
}
