/** Printing and parsing are inverse, and attenuation never changes what a cap points at. */
module CapProofs {
  import opened Basics
  import opened NetstringCodec
  import opened Caps

  // ---- Which class a string belongs to ------------------------------------

  lemma TagHasNoColon(dir: bool, k: Kind)
    ensures ':' !in Tag(dir, k)
  {
  }

  lemma TagInjective(d1: bool, k1: Kind, d2: bool, k2: Kind)
    requires Tag(d1, k1) == Tag(d2, k2)
    ensures d1 == d2 && k1 == k2
  {
  }

  lemma PrefixTag(s: Bytes, tag: string)
    requires ':' !in tag && "URI:" + tag + ":" <= s
    ensures |s| >= 4 && IndexOf(s[4..], ':') == Some(|tag|) && s[4..][..|tag|] == tag
  {
    var rest := s[4 + |tag| + 1..];
    assert s == "URI:" + tag + ":" + rest;
    assert s[4..] == tag + [':'] + rest;
    IndexOfAfter(tag, ':', rest);
  }

  /** A string has the prefix of at most one class. */
  lemma PrefixUnique(s: Bytes, d1: bool, k1: Kind, d2: bool, k2: Kind)
    requires Prefix(d1, k1) <= s && Prefix(d2, k2) <= s
    ensures d1 == d2 && k1 == k2
  {
    TagHasNoColon(d1, k1);
    TagHasNoColon(d2, k2);
    PrefixTag(s, Tag(d1, k1));
    PrefixTag(s, Tag(d2, k2));
    TagInjective(d1, k1, d2, k2);
  }

  /** The order in which the classes are tried does not matter. */
  lemma DispatchFinds(s: Bytes, d: bool, k: Kind)
    ensures Dispatch(s) == Some((d, k)) <==> Prefix(d, k) <= s
  {
    if Prefix(d, k) <= s {
      DispatchTotal(s, d, k);
      PrefixUnique(s, d, k, Dispatch(s).value.0, Dispatch(s).value.1);
    }
  }

  lemma {:induction false} FirstMatchFinds(s: Bytes, classes: seq<(bool, Kind)>, d: bool, k: Kind)
    requires (d, k) in classes && Prefix(d, k) <= s
    ensures FirstMatch(s, classes).Some?
  {
    if !(Prefix(classes[0].0, classes[0].1) <= s) {
      FirstMatchFinds(s, classes[1..], d, k);
    }
  }

  lemma ClassOrderComplete(d: bool, k: Kind)
    ensures (d, k) in CLASS_ORDER
  {
    var n := match k
      case ChkKind => if d then 12 else 0
      case ChkVerifierKind => if d then 13 else 1
      case LitKind => if d then 14 else 2
      case SskKind => if d then 9 else 3
      case SskRoKind => if d then 10 else 4
      case SskVerifierKind => if d then 11 else 5
      case MdmfKind => if d then 15 else 6
      case MdmfRoKind => if d then 16 else 7
      case MdmfVerifierKind => if d then 17 else 8;
    assert CLASS_ORDER[n] == (d, k);
  }

  lemma DispatchTotal(s: Bytes, d: bool, k: Kind)
    requires Prefix(d, k) <= s
    ensures Dispatch(s).Some?
  {
    ClassOrderComplete(d, k);
    FirstMatchFinds(s, CLASS_ORDER, d, k);
  }

  // ---- Printing, then parsing ---------------------------------------------

  lemma {:induction false} DigitRunIs(digits: Bytes, rest: Bytes)
    requires forall i :: 0 <= i < |digits| ==> IsDigit(digits[i])
    requires rest != "" ==> !IsDigit(rest[0])
    ensures DigitRun(digits + rest) == |digits|
  {
    var s := digits + rest;
    if digits != "" {
      assert s[0] == digits[0];
      assert s[1..] == digits[1..] + rest;
      DigitRunIs(digits[1..], rest);
    } else {
      assert s == rest;
    }
  }

  lemma MatchPrintedNumber(n: nat, rest: Bytes)
    requires rest != "" ==> !IsDigit(rest[0])
    ensures MatchNumber(":" + Decimal(n) + rest) == Some((n, rest))
  {
    hide Decimal, ParseDigits, DigitRun;
    var s := ":" + Decimal(n) + rest;
    assert s[1..] == Decimal(n) + rest;
    DigitRunIs(Decimal(n), rest);
    assert s[1..][..|Decimal(n)|] == Decimal(n) && s[1..][|Decimal(n)|..] == rest;
    ParseDigitsDecimal(n);
  }

  lemma MatchPrintedNumbers(needed: nat, total: nat, size: nat)
    ensures MatchNumbers(Numbers(needed, total, size)) == Some(NumberMatch(needed, total, size, ""))
  {
    var s2 := ":" + Decimal(size);
    var s1 := ":" + Decimal(total) + s2;
    assert s2 + "" == s2;
    MatchPrintedNumber(size, "");
    MatchPrintedNumber(total, s2);
    MatchPrintedNumber(needed, s1);
  }

  lemma MatchPrintedKeys(first: Bytes, second: Bytes, rest: Bytes)
    requires Is128(first) && Is256(second)
    ensures MatchKeys(first + ":" + second + rest) == Some(KeyMatch(first, second, rest))
  {
    var s := first + ":" + second + rest;
    assert s[..26] == first && s[27..79] == second && s[79..] == rest;
  }

  lemma FinishPrinted(f: FileCap)
    requires !f.LIT?
    ensures Finish(KindOf(f), Fields(f).0, Fields(f).1, Tail(f)) == Some(f)
  {
    if f.CHK? || f.CHKVerifier? {
      MatchPrintedNumbers(f.needed, f.total, f.size);
    }
  }

  lemma ParsePrintedBits(p: Primitives, f: FileCap)
    requires Laws(p) && WellFormed(f)
    ensures ParseBits(p, KindOf(f), Bits(p, f)) == Some(f)
  {
    if !f.LIT? {
      MatchPrintedKeys(p.b2a(Fields(f).0), p.b2a(Fields(f).1), Tail(f));
      FinishPrinted(f);
    }
  }

  lemma FinishKeepsFields(k: Kind, a: Bytes, b: Bytes, rest: Bytes)
    requires !k.LitKind? && Finish(k, a, b, rest).Some?
    ensures var f := Finish(k, a, b, rest).value; KindOf(f) == k && !f.LIT? && Fields(f) == (a, b)
  {
  }

  lemma FieldsDecode(p: Primitives, first: Bytes, second: Bytes)
    requires Laws(p) && Is128(first) && Is256(second)
    ensures IsKey(p.a2b(first)) && |p.a2b(second)| == 32 && IsByteString(p.a2b(second))
  {
    hide IsAnyBytes, Is128, Is256, IsByteString;
    KeyPatterns(first);
    KeyPatterns(second);
  }

  lemma KeyPatterns(s: Bytes)
    ensures Is128(s) || Is256(s) ==> IsAnyBytes(s)
  {
    hide IsBase32, EndsClear;
  }

  lemma LiteralDecodes(p: Primitives, s: Bytes)
    requires Laws(p) && IsAnyBytes(s)
    ensures IsByteString(p.a2b(s)) && |p.a2b(s)| <= |s|
  {
  }

  /** Everything parsing accepts is well formed. */
  lemma ParsedWellFormed(p: Primitives, k: Kind, s: Bytes)
    requires Laws(p) && ParseBits(p, k, s).Some?
    ensures WellFormed(ParseBits(p, k, s).value) && KindOf(ParseBits(p, k, s).value) == k
  {
    hide Laws, Finish, IsAnyBytes, Is128, Is256, IsByteString;
    if k.LitKind? {
      LiteralDecodes(p, MatchLiteral(s).value);
    } else {
      var m := MatchKeys(s).value;
      FieldsDecode(p, m.first, m.second);
      FinishKeepsFields(k, p.a2b(m.first), p.a2b(m.second), m.rest);
    }
  }

  predicate IsAllegedPrefix(alleged: Bytes) {
    alleged == "" || alleged == RO || alleged == IMM
  }

  /** What constraints a prefix and a context put on the cap that follows. */
  predicate Allows(alleged: Bytes, deepImmutable: bool, k: Kind) {
    && (IsWriteKind(k) ==> alleged == "" && !deepImmutable)
    && (IsMutableKind(k) ==> alleged != IMM && !deepImmutable)
  }

  lemma SplitPrinted(p: Primitives, c: Cap)
    ensures var s := ToString(p, c); var pre := Prefix(c.Dir?, KindOf(c.f));
      pre <= s && s[|pre|..] == Bits(p, c.f) && !(IMM <= s) && !(RO <= s)
  {
    var s := ToString(p, c);
    assert s[0] == 'U';
  }

  lemma TakeOffPrefix(p: Primitives, alleged: Bytes, s: Bytes, deepImmutable: bool)
    requires IsAllegedPrefix(alleged)
    requires alleged == "" ==> !(IMM <= s) && !(RO <= s)
    ensures FromString(p, alleged + s, deepImmutable) ==
      FromUnprefixed(p, alleged + s, s, alleged != IMM && !deepImmutable, alleged == "" && !deepImmutable)
  {
    var u := alleged + s;
    if alleged == IMM {
      assert IMM <= u && u[|IMM|..] == s;
    } else if alleged == RO {
      assert u[0] == 'r';
      assert RO <= u && u[|RO|..] == s;
    } else {
      assert u == s;
    }
  }

  /**
   * Printing then parsing: under any alleged prefix and in any context a
   * well-formed cap parses back to itself, unless the prefix or the context
   * forbids its kind, and then the stronger constraint is the one reported.
   */
  lemma ParsePrinted(p: Primitives, alleged: Bytes, c: Cap, deepImmutable: bool)
    requires Laws(p) && WellFormed(c.f) && IsAllegedPrefix(alleged)
    ensures FromString(p, alleged + ToString(p, c), deepImmutable) ==
      if Allows(alleged, deepImmutable, KindOf(c.f)) then KnownUri(c)
      else UnknownUri(alleged + ToString(p, c),
                      Some(if alleged == IMM || deepImmutable then MustBeDeepImmutable else MustBeReadonly))
  {
    var s := ToString(p, c);
    SplitPrinted(p, c);
    TakeOffPrefix(p, alleged, s, deepImmutable);
    DispatchFinds(s, c.Dir?, KindOf(c.f));
    ParsePrintedBits(p, c.f);
  }

  lemma ParsePlain(p: Primitives, c: Cap, deepImmutable: bool)
    requires Laws(p) && WellFormed(c.f)
    ensures FromString(p, ToString(p, c), deepImmutable) ==
      if deepImmutable && IsMutable(c) then UnknownUri(ToString(p, c), Some(MustBeDeepImmutable)) else KnownUri(c)
  {
    ParsePrinted(p, "", c, deepImmutable);
    assert "" + ToString(p, c) == ToString(p, c);
  }

  /** What parsing promises of the cap it returns, given the constraints it was called with. */
  lemma UnprefixedKind(p: Primitives, u: Bytes, s: Bytes, canBeMutable: bool, canBeWriteable: bool)
    requires Laws(p) && (canBeWriteable ==> canBeMutable)
    requires FromUnprefixed(p, u, s, canBeMutable, canBeWriteable).KnownUri?
    ensures var c := FromUnprefixed(p, u, s, canBeMutable, canBeWriteable).cap;
      WellFormed(c.f) && (IsMutable(c) ==> canBeMutable) && (!IsReadonly(c) ==> canBeWriteable)
  {
    var (dir, k) := Dispatch(s).value;
    ParsedWellFormed(p, k, s[|Prefix(dir, k)|..]);
  }

  lemma ParsedKind(p: Primitives, u: Bytes, deepImmutable: bool)
    requires Laws(p) && FromString(p, u, deepImmutable).KnownUri?
    ensures var c := FromString(p, u, deepImmutable).cap;
      && WellFormed(c.f)
      && (deepImmutable || IMM <= u ==> !IsMutable(c))
      && (RO <= u ==> IsReadonly(c))
  {
    if IMM <= u {
      assert u[0] == 'i';
      UnprefixedKind(p, u, u[|IMM|..], false, false);
    } else if RO <= u {
      UnprefixedKind(p, u, u[|RO|..], !deepImmutable, false);
    } else {
      UnprefixedKind(p, u, u, !deepImmutable, !deepImmutable);
    }
  }

  /** Caps are compared by their printed form; well-formed caps that print alike are the same cap. */
  lemma ToStringInjective(p: Primitives, c1: Cap, c2: Cap)
    requires Laws(p) && WellFormed(c1.f) && WellFormed(c2.f)
    requires ToString(p, c1) == ToString(p, c2)
    ensures c1 == c2
  {
    SplitPrinted(p, c1);
    SplitPrinted(p, c2);
    var s := ToString(p, c1);
    PrefixUnique(s, c1.Dir?, KindOf(c1.f), c2.Dir?, KindOf(c2.f));
    ParsePrintedBits(p, c1.f);
    ParsePrintedBits(p, c2.f);
  }

  /** How each kind of cap string begins. */
  lemma PrefixesOfFiles()
    ensures Prefix(false, ChkKind) == "URI:CHK:" && Prefix(false, ChkVerifierKind) == "URI:CHK-Verifier:"
    ensures Prefix(false, LitKind) == "URI:LIT:"
    ensures Prefix(false, SskKind) == "URI:SSK:" && Prefix(false, SskRoKind) == "URI:SSK-RO:"
    ensures Prefix(false, SskVerifierKind) == "URI:SSK-Verifier:"
    ensures Prefix(false, MdmfKind) == "URI:MDMF:" && Prefix(false, MdmfRoKind) == "URI:MDMF-RO:"
    ensures Prefix(false, MdmfVerifierKind) == "URI:MDMF-Verifier:"
  {
  }

  /** The caps of directories have prefixes of their own. */
  lemma PrefixesOfDirectories()
    ensures Prefix(true, SskKind) == "URI:DIR2:" && Prefix(true, SskRoKind) == "URI:DIR2-RO:"
    ensures Prefix(true, SskVerifierKind) == "URI:DIR2-Verifier:"
    ensures Prefix(true, ChkKind) == "URI:DIR2-CHK:" && Prefix(true, ChkVerifierKind) == "URI:DIR2-CHK-Verifier:"
    ensures Prefix(true, LitKind) == "URI:DIR2-LIT:"
    ensures Prefix(true, MdmfKind) == "URI:DIR2-MDMF:" && Prefix(true, MdmfRoKind) == "URI:DIR2-MDMF-RO:"
    ensures Prefix(true, MdmfVerifierKind) == "URI:DIR2-MDMF-Verifier:"
  {
  }

  // ---- Attenuation --------------------------------------------------------

  datatype Format = ChkFormat | LitFormat | SdmfFormat | MdmfFormat

  function FormatOf(f: FileCap): Format {
    if f.CHK? || f.CHKVerifier? then ChkFormat
    else if f.LIT? then LitFormat
    else if f.SSK? || f.SSKRo? || f.SSKVerifier? then SdmfFormat
    else MdmfFormat
  }

  /** Caps of one format with the same hash or fingerprint and the same numbers. */
  predicate SameFamily(f: FileCap, g: FileCap) {
    && FormatOf(f) == FormatOf(g)
    && if f.LIT? then f == g else Fields(f).1 == Fields(g).1 && Tail(f) == Tail(g)
  }

  lemma ReadonlyFileFacts(p: Primitives, f: FileCap)
    requires Laws(p) && WellFormed(f)
    ensures var ro := ReadonlyFile(p, f);
      && WellFormed(ro) && !IsWriteKind(KindOf(ro))
      && IsMutableKind(KindOf(ro)) == IsMutableKind(KindOf(f)) && IsVerifierKind(KindOf(ro)) == IsVerifierKind(KindOf(f))
      && ReadonlyFile(p, ro) == ro && SameFamily(ro, f)
  {
    hide IsByteString, IsAnyBytes, Is128, Is256;
    assert f.SSK? || f.MDMF? ==> IsKey(p.readkeyHash(f.writekey));
  }

  lemma VerifyFileFacts(p: Primitives, f: FileCap)
    requires Laws(p) && WellFormed(f)
    ensures match FileVerifyCap(p, f)
      case None => f.LIT?
      case Some(v) =>
        && WellFormed(v) && IsVerifierKind(KindOf(v)) && FileStorageIndex(p, v) == FileStorageIndex(p, f)
        && SameFamily(v, f)
  {
    hide IsByteString, IsAnyBytes, Is128, Is256;
    match f
    case CHK(key, _, _, _, _) => assert IsKey(p.storageIndexHash(key));
    case SSK(w, _) => assert IsKey(p.sskStorageIndexHash(p.readkeyHash(w)));
    case MDMF(w, _) => assert IsKey(p.sskStorageIndexHash(p.readkeyHash(w)));
    case SSKRo(r, _) => assert IsKey(p.sskStorageIndexHash(r));
    case MDMFRo(r, _) => assert IsKey(p.sskStorageIndexHash(r));
    case _ =>
  }

  /**
   * Diminishing a cap to a read cap is final, keeps the object it points at
   * (same verify cap, same storage index), and the verify cap points there too.
   * All three are of one format, with the same hash or fingerprint and numbers.
   */
  lemma Attenuation(p: Primitives, c: Cap)
    requires Laws(p) && WellFormed(c.f) && !IsVerifier(c)
    ensures var ro := Readonly(p, c);
      && WellFormed(ro.f) && IsReadonly(ro) && !IsVerifier(ro) && IsMutable(ro) == IsMutable(c)
      && Readonly(p, ro) == ro && SameFamily(ro.f, c.f)
      && VerifyCap(p, ro) == VerifyCap(p, c)
      && StorageIndex(p, ro) == StorageIndex(p, c)
    ensures match VerifyCap(p, c)
      case None => c.f.LIT?
      case Some(v) =>
        && WellFormed(v.f) && IsVerifier(v) && v.Dir? == c.Dir? && StorageIndex(p, v) == StorageIndex(p, c)
        && SameFamily(v.f, c.f)
  {
    ReadonlyFileFacts(p, c.f);
    VerifyFileFacts(p, c.f);
  }

  /** Attenuation commutes with printing: the strings of the attenuated caps parse to them. */
  lemma AttenuatedStrings(p: Primitives, c: Cap)
    requires Laws(p) && WellFormed(c.f) && !IsVerifier(c)
    ensures FromString(p, ToString(p, c), false) == KnownUri(c)
    ensures FromString(p, RO + ToString(p, Readonly(p, c)), false) == KnownUri(Readonly(p, c))
    ensures FromString(p, ToString(p, Readonly(p, c)), false) == KnownUri(Readonly(p, c))
    ensures VerifyCap(p, c).Some? ==>
      FromString(p, IMM + ToString(p, VerifyCap(p, c).value), true) == KnownUri(VerifyCap(p, c).value)
  {
    hide FromString, ToString;
    Attenuation(p, c);
    ParsePlain(p, c, false);
    ParsePrinted(p, RO, Readonly(p, c), false);
    ParsePlain(p, Readonly(p, c), false);
    if VerifyCap(p, c).Some? {
      VerifierString(p, VerifyCap(p, c).value);
    }
  }

  /** A verify cap is accepted under the strictest prefix in the strictest context. */
  lemma VerifierString(p: Primitives, v: Cap)
    requires Laws(p) && WellFormed(v.f) && IsVerifier(v)
    ensures FromString(p, IMM + ToString(p, v), true) == KnownUri(v)
  {
    hide FromString, ToString;
    ParsePrinted(p, IMM, v, true);
  }
}
