/** Parsing is not one-to-one: exactly which strings parse to a given cap. */
module CapStrings {
  import opened Basics
  import opened NetstringCodec
  import opened Caps
  import opened CapProofs

  // ---- Numbers with leading zeros -----------------------------------------

  function ZeroDigits(z: nat): Bytes {
    seq(z, _ => '0')
  }

  /** A number in decimal behind some zeros. */
  function Padded(z: nat, v: nat): Bytes {
    ZeroDigits(z) + Decimal(v)
  }

  predicate AllDigits(s: Bytes) {
    forall i :: 0 <= i < |s| ==> IsDigit(s[i])
  }

  predicate NoDigitFirst(s: Bytes) {
    s != "" ==> !IsDigit(s[0])
  }

  /** One more digit. */
  lemma OneMoreDigit(front: Bytes, q: nat, c: char)
    requires front != "" && AllDigits(front) && ParseDigits(front) == Some(q) && IsDigit(c)
    ensures AllDigits(front + [c]) && ParseDigits(front + [c]) == Some(10 * q + DigitValue(c))
  {
    var s := front + [c];
    assert s[..|s| - 1] == front;
    assert s[|s| - 2] == front[|front| - 1] && IsDigit(front[|front| - 1]);
  }

  lemma PaddedIsDigits(z: nat, v: nat)
    ensures Padded(z, v) != "" && AllDigits(Padded(z, v))
  {
  }

  lemma {:induction false} PaddedParses(z: nat, v: nat)
    ensures ParseDigits(Padded(z, v)) == Some(v)
    decreases v, z
  {
    hide ParseDigits, AllDigits;
    if v >= 10 {
      PaddedParses(z, v / 10);
      PaddedIsDigits(z, v / 10);
      OneMoreDigit(Padded(z, v / 10), v / 10, DigitChar(v % 10));
      assert Padded(z, v) == Padded(z, v / 10) + [DigitChar(v % 10)];
    } else if z > 0 {
      PaddedParses(z - 1, 0);
      PaddedIsDigits(z - 1, 0);
      OneMoreDigit(Padded(z - 1, 0), 0, DigitChar(v));
      assert Decimal(0) == "0" && Padded(z - 1, 0) == ZeroDigits(z);
      assert Padded(z, v) == Padded(z - 1, 0) + [DigitChar(v)];
    } else {
      assert Padded(0, v) == Decimal(v);
      ParseDigitsDecimal(v);
    }
  }

  /** Digits of value v are v in decimal behind some zeros. */
  lemma {:induction false} DigitsArePadded(s: Bytes, v: nat) returns (z: nat)
    requires AllDigits(s) && ParseDigits(s) == Some(v)
    ensures s == Padded(z, v)
    decreases |s|
  {
    var d := DigitValue(s[|s| - 1]);
    assert DigitChar(d) == s[|s| - 1];
    if |s| == 1 {
      z := 0;
      assert s == ZeroDigits(0) + [DigitChar(d)];
    } else {
      assert IsDigit(s[|s| - 2]);
      var front := s[..|s| - 1];
      var q := ParseDigits(front).value;
      var z0 := DigitsArePadded(front, q);
      assert s == front + [s[|s| - 1]] && v == 10 * q + d;
      if q == 0 {
        z := z0 + 1;
        assert Decimal(0) == "0" && Decimal(v) == [DigitChar(d)];
        assert front == ZeroDigits(z);
      } else {
        z := z0;
        assert v / 10 == q && v % 10 == d;
        assert Decimal(v) == Decimal(q) + [DigitChar(d)];
      }
    }
  }

  lemma MatchDigits(digits: Bytes, v: nat, rest: Bytes)
    requires AllDigits(digits) && ParseDigits(digits) == Some(v) && NoDigitFirst(rest)
    ensures MatchNumber(":" + digits + rest) == Some((v, rest))
  {
    hide ParseDigits, DigitRun;
    var s := ":" + digits + rest;
    assert s[1..] == digits + rest;
    DigitRunIs(digits, rest);
    assert s[1..][..|digits|] == digits && s[1..][|digits|..] == rest;
  }

  lemma MatchPadded(z: nat, v: nat, rest: Bytes)
    requires NoDigitFirst(rest)
    ensures MatchNumber(":" + Padded(z, v) + rest) == Some((v, rest))
  {
    hide ParseDigits, MatchNumber;
    PaddedParses(z, v);
    PaddedIsDigits(z, v);
    MatchDigits(Padded(z, v), v, rest);
  }

  lemma MatchedIsPadded(s: Bytes) returns (z: nat)
    requires MatchNumber(s).Some?
    ensures var (v, rest) := MatchNumber(s).value; NoDigitFirst(rest) && s == ":" + Padded(z, v) + rest
  {
    var n := DigitRun(s[1..]);
    var digits, rest := s[1..][..n], s[1..][n..];
    z := DigitsArePadded(digits, MatchNumber(s).value.0);
    assert s == ":" + digits + rest;
  }

  /** Three numbers, each behind a colon and some zeros. */
  function PaddedNumbers(z0: nat, needed: nat, z1: nat, total: nat, z2: nat, size: nat): Bytes {
    ":" + Padded(z0, needed) + (":" + Padded(z1, total) + (":" + Padded(z2, size)))
  }

  ghost predicate AreNumbers(s: Bytes, needed: nat, total: nat, size: nat, rest: Bytes, z0: nat, z1: nat, z2: nat) {
    s == PaddedNumbers(z0, needed, z1, total, z2, size) + rest
  }

  lemma MatchNumbersIff(s: Bytes, needed: nat, total: nat, size: nat, rest: Bytes)
    ensures MatchNumbers(s) == Some(NumberMatch(needed, total, size, rest)) <==>
      NoDigitFirst(rest) && exists z0: nat, z1: nat, z2: nat :: AreNumbers(s, needed, total, size, rest, z0, z1, z2)
  {
    hide MatchNumber, Padded;
    if MatchNumbers(s) == Some(NumberMatch(needed, total, size, rest)) {
      var z0 := MatchedIsPadded(s);
      var s1 := MatchNumber(s).value.1;
      var z1 := MatchedIsPadded(s1);
      var s2 := MatchNumber(s1).value.1;
      var z2 := MatchedIsPadded(s2);
      assert s == PaddedNumbers(z0, needed, z1, total, z2, size) + rest;
      assert AreNumbers(s, needed, total, size, rest, z0, z1, z2);
    }
    if NoDigitFirst(rest) && exists z0: nat, z1: nat, z2: nat :: AreNumbers(s, needed, total, size, rest, z0, z1, z2) {
      var z0: nat, z1: nat, z2: nat :| AreNumbers(s, needed, total, size, rest, z0, z1, z2);
      NumbersMatch(s, needed, total, size, rest, z0, z1, z2);
    }
  }

  lemma NumbersMatch(s: Bytes, needed: nat, total: nat, size: nat, rest: Bytes, z0: nat, z1: nat, z2: nat)
    requires AreNumbers(s, needed, total, size, rest, z0, z1, z2) && NoDigitFirst(rest)
    ensures MatchNumbers(s) == Some(NumberMatch(needed, total, size, rest))
  {
    hide MatchNumber, Padded;
    var s2 := ":" + Padded(z2, size) + rest;
    var s1 := ":" + Padded(z1, total) + s2;
    MatchPadded(z2, size, rest);
    MatchPadded(z1, total, s2);
    MatchPadded(z0, needed, s1);
    assert s == ":" + Padded(z0, needed) + s1;
  }

  // ---- What may stand behind the keys -------------------------------------

  /** What may stand at the very end. */
  predicate TailAccepted(k: Kind, suffix: Bytes) {
    match k
    case ChkVerifierKind => true
    case MdmfKind => EndsOrColon(suffix)
    case MdmfRoKind => EndsOrColon(suffix)
    case MdmfVerifierKind => EndsOrColon(suffix)
    case _ => AtEnd(suffix)
  }

  /** Behind the keys: the numbers, each with any leading zeros, if the class has them, and what may stand at the end. */
  ghost predicate TailFits(f: FileCap, tail: Bytes) {
    if f.CHK? || f.CHKVerifier? then
      exists z0: nat, z1: nat, z2: nat, rest: Bytes ::
        AreNumbers(tail, f.needed, f.total, f.size, rest, z0, z1, z2) && NoDigitFirst(rest) && TailAccepted(KindOf(f), rest)
    else TailAccepted(KindOf(f), tail)
  }

  lemma EndsWithoutDigit(s: Bytes)
    requires AtEnd(s)
    ensures NoDigitFirst(s)
  {
  }

  lemma NumbersFit(f: FileCap, tail: Bytes)
    requires f.CHK? || f.CHKVerifier?
    ensures TailFits(f, tail) <==>
      var m := MatchNumbers(tail);
      m.Some? && (m.value.needed, m.value.total, m.value.size) == (f.needed, f.total, f.size) && TailAccepted(KindOf(f), m.value.rest)
  {
    hide MatchNumbers, AreNumbers, TailAccepted;
    var m := MatchNumbers(tail);
    if m.Some? && (m.value.needed, m.value.total, m.value.size) == (f.needed, f.total, f.size) && TailAccepted(KindOf(f), m.value.rest) {
      MatchNumbersIff(tail, f.needed, f.total, f.size, m.value.rest);
    }
    if TailFits(f, tail) {
      var z0: nat, z1: nat, z2: nat, rest: Bytes :|
        AreNumbers(tail, f.needed, f.total, f.size, rest, z0, z1, z2) && NoDigitFirst(rest) && TailAccepted(KindOf(f), rest);
      MatchNumbersIff(tail, f.needed, f.total, f.size, rest);
    }
  }

  lemma FinishIff(f: FileCap, tail: Bytes)
    requires !f.LIT?
    ensures Finish(KindOf(f), Fields(f).0, Fields(f).1, tail) == Some(f) <==> TailFits(f, tail)
  {
    hide MatchNumbers;
    if f.CHK? || f.CHKVerifier? {
      hide TailFits;
      NumbersFit(f, tail);
    }
  }

  /** What may stand behind the prefix of the class. */
  ghost predicate BitsFit(p: Primitives, f: FileCap, bits: Bytes) {
    if f.LIT? then bits == p.b2a(f.data) || bits == p.b2a(f.data) + "\n"
    else Keys(p, f) <= bits && TailFits(f, bits[|Keys(p, f)|..])
  }

  lemma LineFeedIsNoBase32(s: Bytes)
    requires s != "" && s[|s| - 1] == '\n'
    ensures !IsAnyBytes(s)
  {
  }

  lemma LiteralIff(p: Primitives, data: Bytes, bits: Bytes)
    requires Laws(p) && IsByteString(data)
    ensures ParseBits(p, LitKind, bits) == Some(LIT(data)) <==> bits == p.b2a(data) || bits == p.b2a(data) + "\n"
  {
    hide IsAnyBytes;
    var b := p.b2a(data);
    if bits == b + "\n" {
      LineFeedIsNoBase32(bits);
      assert bits[..|bits| - 1] == b;
    }
    if MatchLiteral(bits).Some? && p.a2b(MatchLiteral(bits).value) == data {
      assert MatchLiteral(bits).value == b;
      assert bits == b || bits == bits[..|bits| - 1] + "\n";
    }
  }

  /** Two strings of the right form decode to the keys of a cap only if they are its printed keys. */
  lemma KeysIff(p: Primitives, f: FileCap, bits: Bytes)
    requires Laws(p) && WellFormed(f) && !f.LIT?
    ensures (MatchKeys(bits).Some? && (p.a2b(MatchKeys(bits).value.first), p.a2b(MatchKeys(bits).value.second)) == Fields(f)) <==> Keys(p, f) <= bits
    ensures Keys(p, f) <= bits ==> MatchKeys(bits).value.rest == bits[|Keys(p, f)|..]
  {
    hide IsByteString, IsAnyBytes, Is128, Is256;
    var first, second := p.b2a(Fields(f).0), p.b2a(Fields(f).1);
    KeyWidths(p, f);
    if Keys(p, f) <= bits {
      var rest := bits[|Keys(p, f)|..];
      assert bits == first + ":" + second + rest;
      MatchPrintedKeys(first, second, rest);
    }
    if MatchKeys(bits).Some? {
      var m := MatchKeys(bits).value;
      KeyPatterns(m.first);
      KeyPatterns(m.second);
      assert bits == m.first + ":" + m.second + m.rest;
    }
  }

  lemma KeyWidths(p: Primitives, f: FileCap)
    requires Laws(p) && WellFormed(f) && !f.LIT?
    ensures Is128(p.b2a(Fields(f).0)) && Is256(p.b2a(Fields(f).1))
    ensures p.a2b(p.b2a(Fields(f).0)) == Fields(f).0 && p.a2b(p.b2a(Fields(f).1)) == Fields(f).1
  {
    hide IsAnyBytes;
  }

  lemma BitsFitIff(p: Primitives, f: FileCap, bits: Bytes)
    requires Laws(p) && WellFormed(f)
    ensures ParseBits(p, KindOf(f), bits) == Some(f) <==> BitsFit(p, f, bits)
  {
    hide Laws, MatchKeys, MatchLiteral, Finish, Keys, TailFits, WellFormed;
    if f.LIT? {
      assert IsByteString(f.data) by { LiteralBytes(f); }
      LiteralIff(p, f.data, bits);
    } else {
      KeysIff(p, f, bits);
      if MatchKeys(bits).Some? {
        var m := MatchKeys(bits).value;
        FinishIff(f, m.rest);
        if Finish(KindOf(f), p.a2b(m.first), p.a2b(m.second), m.rest).Some? {
          FinishKeepsFields(KindOf(f), p.a2b(m.first), p.a2b(m.second), m.rest);
        }
      }
    }
  }

  lemma LiteralBytes(f: FileCap)
    requires f.LIT? && WellFormed(f)
    ensures IsByteString(f.data)
  {
  }

  // ---- Whole strings ------------------------------------------------------

  /** `u` is an alleged prefix, the prefix of the class of `c`, and bits that fit `c`. */
  ghost predicate Spells(p: Primitives, c: Cap, alleged: Bytes, u: Bytes) {
    var pre := alleged + Prefix(c.Dir?, KindOf(c.f));
    pre <= u && BitsFit(p, c.f, u[|pre|..])
  }

  lemma UnprefixedIff(p: Primitives, c: Cap, u: Bytes, s: Bytes, canBeMutable: bool, canBeWriteable: bool)
    requires Laws(p) && WellFormed(c.f)
    ensures
      var pre, k := Prefix(c.Dir?, KindOf(c.f)), KindOf(c.f);
      FromUnprefixed(p, u, s, canBeMutable, canBeWriteable) == KnownUri(c) <==>
        && pre <= s && BitsFit(p, c.f, s[|pre|..])
        && (IsWriteKind(k) ==> canBeWriteable) && (IsMutableKind(k) && !IsWriteKind(k) ==> canBeMutable)
  {
    hide Laws, WellFormed, Dispatch, Prefix, ParseBits, BitsFit;
    var pre := Prefix(c.Dir?, KindOf(c.f));
    DispatchFinds(s, c.Dir?, KindOf(c.f));
    if pre <= s {
      BitsFitIff(p, c.f, s[|pre|..]);
    }
    if Dispatch(s).Some? && ParseBits(p, Dispatch(s).value.1, s[|Prefix(Dispatch(s).value.0, Dispatch(s).value.1)|..]).Some? {
      ParsedWellFormed(p, Dispatch(s).value.1, s[|Prefix(Dispatch(s).value.0, Dispatch(s).value.1)|..]);
    }
  }

  lemma StartsWithU(dir: bool, k: Kind, s: Bytes)
    ensures Prefix(dir, k) <= s ==> !(IMM <= s) && !(RO <= s)
    ensures IMM + Prefix(dir, k) <= s ==> IMM <= s
    ensures RO + Prefix(dir, k) <= s ==> RO <= s && !(IMM <= s)
  {
    assert Prefix(dir, k)[0] == 'U';
    if RO + Prefix(dir, k) <= s {
      assert s[0] == 'r';
    }
  }

  lemma SpellsAfter(p: Primitives, c: Cap, alleged: Bytes, u: Bytes)
    requires alleged <= u
    ensures var pre, s := Prefix(c.Dir?, KindOf(c.f)), u[|alleged|..];
      Spells(p, c, alleged, u) <==> pre <= s && BitsFit(p, c.f, s[|pre|..])
  {
    hide BitsFit, Prefix;
    var pre, s := Prefix(c.Dir?, KindOf(c.f)), u[|alleged|..];
    assert u == alleged + s;
    if pre <= s {
      assert alleged + pre <= u && u[|alleged + pre|..] == s[|pre|..];
    }
    if alleged + pre <= u {
      assert pre == (alleged + pre)[|alleged|..] && s[..|pre|] == u[..|alleged + pre|][|alleged|..];
    }
  }

  /** The alleged prefix that parsing takes off. */
  function AllegedOf(u: Bytes): Bytes {
    if IMM <= u then IMM else if RO <= u then RO else ""
  }

  /**
   * For every string, in any context: it parses to `c` if and only if it is a
   * prefix that allows caps of that kind, the class prefix, and then the printed
   * keys or data, the numbers with any leading zeros, and what the end of the
   * class's pattern lets through.
   */
  lemma ParsedStrings(p: Primitives, c: Cap, u: Bytes, deepImmutable: bool)
    requires Laws(p) && WellFormed(c.f)
    ensures FromString(p, u, deepImmutable) == KnownUri(c) <==>
      exists alleged: Bytes :: IsAllegedPrefix(alleged) && Allows(alleged, deepImmutable, KindOf(c.f)) && Spells(p, c, alleged, u)
  {
    hide Laws, WellFormed, FromUnprefixed, Prefix, BitsFit, Spells;
    var alleged := AllegedOf(u);
    UnprefixedIff(p, c, u, u[|alleged|..], alleged != IMM && !deepImmutable, alleged == "" && !deepImmutable);
    SpellsAfter(p, c, alleged, u);
    OnlyAlleged(p, c, u);
    assert u[|""|..] == u;
    assert FromString(p, u, deepImmutable) ==
      FromUnprefixed(p, u, u[|alleged|..], alleged != IMM && !deepImmutable, alleged == "" && !deepImmutable);
  }

  /** A string spells a cap only behind the prefix that parsing takes off. */
  lemma OnlyAlleged(p: Primitives, c: Cap, u: Bytes)
    ensures forall alleged: Bytes :: IsAllegedPrefix(alleged) && Spells(p, c, alleged, u) ==> alleged == AllegedOf(u)
  {
    hide BitsFit, Prefix;
    StartsWithU(c.Dir?, KindOf(c.f), u);
    assert "" + Prefix(c.Dir?, KindOf(c.f)) == Prefix(c.Dir?, KindOf(c.f));
  }

  // ---- What may follow a printed cap --------------------------------------

  /** More digits leave a value as it is only if both are zero. */
  lemma {:induction false} AppendDigits(s: Bytes, v: nat, more: Bytes)
    requires AllDigits(s) && ParseDigits(s) == Some(v) && AllDigits(more)
    ensures AllDigits(s + more) && ParseDigits(s + more).Some? && ParseDigits(s + more).value >= v
    ensures ParseDigits(s + more) == Some(v) <==> more == "" || (v == 0 && AllZeros(more))
    decreases |more|
  {
    if more == "" {
      assert s + more == s;
    } else {
      hide ParseDigits;
      var front, c := more[..|more| - 1], more[|more| - 1];
      assert more == front + [c] && s + more == s + front + [c];
      AppendDigits(s, v, front);
      assert s != "" by { NothingParses(); }
      OneMoreDigit(s + front, ParseDigits(s + front).value, c);
      ZeroIsZero(c);
    }
  }

  lemma NothingParses()
    ensures ParseDigits("").None?
  {
  }

  lemma ZeroIsZero(c: char)
    requires IsDigit(c)
    ensures DigitValue(c) == 0 <==> c == '0'
  {
  }

  /** What may follow a printed cap: for the classes with a size, zeros after a size of zero first. */
  predicate Continues(f: FileCap, suffix: Bytes) {
    if f.CHK? || f.CHKVerifier? then
      var d := DigitRun(suffix);
      (d == 0 || (f.size == 0 && AllZeros(suffix[..d]))) && TailAccepted(KindOf(f), suffix[d..])
    else TailAccepted(KindOf(f), suffix)
  }

  predicate AllZeros(s: Bytes) {
    forall i :: 0 <= i < |s| ==> s[i] == '0'
  }

  lemma SizeContinued(size: nat, suffix: Bytes)
    ensures var d := DigitRun(suffix); var m := MatchNumber(":" + Decimal(size) + suffix);
      && m.Some? && m.value.1 == suffix[d..]
      && (m.value.0 == size <==> d == 0 || (size == 0 && AllZeros(suffix[..d])))
  {
    hide Decimal, ParseDigits, DigitRun, MatchNumber;
    var d := DigitRun(suffix);
    var more, rest := suffix[..d], suffix[d..];
    ParseDigitsDecimal(size);
    AppendDigits(Decimal(size), size, more);
    assert suffix == more + rest;
    assert ":" + Decimal(size) + suffix == ":" + (Decimal(size) + more) + rest;
    MatchDigits(Decimal(size) + more, ParseDigits(Decimal(size) + more).value, rest);
  }

  lemma MatchContinued(needed: nat, total: nat, size: nat, suffix: Bytes)
    ensures var m := MatchNumbers(Numbers(needed, total, size) + suffix); var d := DigitRun(suffix);
      && m.Some? && m.value.needed == needed && m.value.total == total && m.value.rest == suffix[d..]
      && (m.value.size == size <==> d == 0 || (size == 0 && AllZeros(suffix[..d])))
  {
    hide Decimal, MatchNumber, DigitRun, AllZeros;
    var s2 := ":" + Decimal(size) + suffix;
    var s1 := ":" + Decimal(total) + s2;
    SizeContinued(size, suffix);
    MatchPrintedNumber(total, s2);
    MatchPrintedNumber(needed, s1);
    assert Numbers(needed, total, size) + suffix == ":" + Decimal(needed) + s1;
  }

  lemma NumbersContinued(f: FileCap, suffix: Bytes)
    requires f.CHK? || f.CHKVerifier?
    ensures Finish(KindOf(f), Fields(f).0, Fields(f).1, Tail(f) + suffix) == Some(f) <==> Continues(f, suffix)
  {
    hide Numbers, MatchNumbers, DigitRun, AllZeros, AtEnd;
    MatchContinued(f.needed, f.total, f.size, suffix);
  }

  lemma BitsContinued(p: Primitives, f: FileCap, suffix: Bytes)
    requires Laws(p) && WellFormed(f)
    ensures ParseBits(p, KindOf(f), Bits(p, f) + suffix) == Some(f) <==> Continues(f, suffix)
  {
    hide Laws, MatchKeys, MatchLiteral, Finish, Tail, WellFormed;
    if f.LIT? {
      assert IsByteString(f.data) by { LiteralBytes(f); }
      LiteralIff(p, f.data, Bits(p, f) + suffix);
      LiteralContinued(p.b2a(f.data), suffix);
    } else {
      var keys := Keys(p, f);
      assert Bits(p, f) + suffix == keys + (Tail(f) + suffix);
      KeysIff(p, f, Bits(p, f) + suffix);
      assert (Bits(p, f) + suffix)[|keys|..] == Tail(f) + suffix;
      if f.CHK? || f.CHKVerifier? {
        NumbersContinued(f, suffix);
      } else {
        FinishIff(f, Tail(f) + suffix);
        assert Tail(f) + suffix == suffix by { NoTail(f, suffix); }
      }
    }
  }

  lemma LiteralContinued(b: Bytes, suffix: Bytes)
    ensures (b + suffix == b || b + suffix == b + "\n") <==> AtEnd(suffix)
  {
    assert (b + suffix)[|b|..] == suffix && (b + "\n")[|b|..] == "\n";
  }

  lemma NoTail(f: FileCap, suffix: Bytes)
    requires !f.CHK? && !f.CHKVerifier?
    ensures Tail(f) + suffix == suffix
  {
  }

  /** Exactly which strings that continue a printed cap parse to that cap. */
  lemma ParseContinued(p: Primitives, c: Cap, suffix: Bytes)
    requires Laws(p) && WellFormed(c.f)
    ensures FromString(p, ToString(p, c) + suffix, false) == KnownUri(c) <==> Continues(c.f, suffix)
  {
    hide Laws, WellFormed, Bits, Dispatch, Prefix, Continues, ParseBits;
    var pre := Prefix(c.Dir?, KindOf(c.f));
    var s := ToString(p, c) + suffix;
    SplitPrinted(p, c);
    assert pre <= s && s[|pre|..] == Bits(p, c.f) + suffix;
    StartsWithU(c.Dir?, KindOf(c.f), s);
    DispatchFinds(s, c.Dir?, KindOf(c.f));
    BitsContinued(p, c.f, suffix);
  }
}
