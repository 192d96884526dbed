/** Capabilities: printing, parsing and attenuation (write to read to verify). */
module Caps {
  import opened Basics
  import opened NetstringCodec

  // ---- Base32 fields ------------------------------------------------------

  predicate IsBase32(s: Bytes) {
    forall i :: 0 <= i < |s| ==> IsBase32Char(s[i])
  }

  predicate IsBase32Char(c: char) {
    'a' <= c <= 'z' || '2' <= c <= '7'
  }

  /** The value 0..31 of a base32 character. */
  function Quintet(c: char): nat
    requires IsBase32Char(c)
  {
    if 'a' <= c <= 'z' then c as int - 'a' as int else c as int - '2' as int + 26
  }

  /** The last character leaves its lowest `n` bits clear; 2^n is `step`. */
  predicate EndsClear(s: Bytes, step: nat)
    requires step > 0
  {
    s != "" && IsBase32Char(s[|s| - 1]) && Quintet(s[|s| - 1]) % step == 0
  }

  /** 16 bytes in base32. */
  predicate Is128(s: Bytes) {
    |s| == 26 && IsBase32(s) && EndsClear(s, 4)
  }

  /** 32 bytes in base32. */
  predicate Is256(s: Bytes) {
    |s| == 52 && IsBase32(s) && EndsClear(s, 16)
  }

  /** Any number of bytes in base32. */
  predicate IsAnyBytes(s: Bytes) {
    IsBase32(s) &&
    match |s| % 8
    case 0 => true
    case 2 => EndsClear(s, 4)
    case 4 => EndsClear(s, 16)
    case 5 => EndsClear(s, 2)
    case 7 => EndsClear(s, 8)
    case _ => false
  }

  /** The functions the capability code takes from elsewhere. */
  datatype Primitives = Primitives(
    b2a: Bytes -> Bytes,
    a2b: Bytes -> Bytes,
    storageIndexHash: Bytes -> Bytes,
    readkeyHash: Bytes -> Bytes,
    sskStorageIndexHash: Bytes -> Bytes)

  /** What is known of them: base32 is a bijection onto its patterns, and the hashes are 16 bytes long. */
  ghost predicate Laws(p: Primitives) {
    && (forall x: Bytes :: IsByteString(x) ==> IsAnyBytes(p.b2a(x)) && p.a2b(p.b2a(x)) == x)
    && (forall x: Bytes :: IsByteString(x) && |x| == 16 ==> Is128(p.b2a(x)))
    && (forall x: Bytes :: IsByteString(x) && |x| == 32 ==> Is256(p.b2a(x)))
    && (forall s: Bytes :: IsAnyBytes(s) ==> p.b2a(p.a2b(s)) == s && IsByteString(p.a2b(s)) && |p.a2b(s)| <= |s|)
    && (forall s: Bytes :: Is128(s) ==> |p.a2b(s)| == 16)
    && (forall s: Bytes :: Is256(s) ==> |p.a2b(s)| == 32)
    && (forall k: Bytes :: IsKey(p.storageIndexHash(k)))
    && (forall k: Bytes :: IsKey(p.readkeyHash(k)))
    && (forall k: Bytes :: IsKey(p.sskStorageIndexHash(k)))
  }

  predicate IsKey(k: Bytes) {
    |k| == 16 && IsByteString(k)
  }

  // ---- Capabilities -------------------------------------------------------

  datatype Kind = ChkKind | ChkVerifierKind | LitKind
                | SskKind | SskRoKind | SskVerifierKind
                | MdmfKind | MdmfRoKind | MdmfVerifierKind

  datatype FileCap =
    | CHK(key: Bytes, ueHash: Bytes, needed: nat, total: nat, size: nat)
    | CHKVerifier(storageIndex: Bytes, ueHash: Bytes, needed: nat, total: nat, size: nat)
    | LIT(data: Bytes)
    | SSK(writekey: Bytes, fingerprint: Bytes)
    | SSKRo(readkey: Bytes, fingerprint: Bytes)
    | SSKVerifier(storageIndex: Bytes, fingerprint: Bytes)
    | MDMF(writekey: Bytes, fingerprint: Bytes)
    | MDMFRo(readkey: Bytes, fingerprint: Bytes)
    | MDMFVerifier(storageIndex: Bytes, fingerprint: Bytes)

  /** A file cap, or a directory cap around one: each kind of file cap has one directory class. */
  datatype Cap = File(f: FileCap) | Dir(f: FileCap)

  function KindOf(f: FileCap): Kind {
    match f
    case CHK(_, _, _, _, _) => ChkKind
    case CHKVerifier(_, _, _, _, _) => ChkVerifierKind
    case LIT(_) => LitKind
    case SSK(_, _) => SskKind
    case SSKRo(_, _) => SskRoKind
    case SSKVerifier(_, _) => SskVerifierKind
    case MDMF(_, _) => MdmfKind
    case MDMFRo(_, _) => MdmfRoKind
    case MDMFVerifier(_, _) => MdmfVerifierKind
  }

  predicate IsWriteKind(k: Kind) {
    k.SskKind? || k.MdmfKind?
  }

  predicate IsMutableKind(k: Kind) {
    k.SskKind? || k.SskRoKind? || k.MdmfKind? || k.MdmfRoKind?
  }

  predicate IsVerifierKind(k: Kind) {
    k.ChkVerifierKind? || k.SskVerifierKind? || k.MdmfVerifierKind?
  }

  /** The two binary fields of a cap other than LIT. */
  function Fields(f: FileCap): (Bytes, Bytes)
    requires !f.LIT?
  {
    match f
    case CHK(k, u, _, _, _) => (k, u)
    case CHKVerifier(k, u, _, _, _) => (k, u)
    case SSK(k, u) => (k, u)
    case SSKRo(k, u) => (k, u)
    case SSKVerifier(k, u) => (k, u)
    case MDMF(k, u) => (k, u)
    case MDMFRo(k, u) => (k, u)
    case MDMFVerifier(k, u) => (k, u)
  }

  predicate WellFormed(f: FileCap) {
    if f.LIT? then IsByteString(f.data)
    else IsKey(Fields(f).0) && |Fields(f).1| == 32 && IsByteString(Fields(f).1)
  }

  // ---- Printing -----------------------------------------------------------

  function Tag(dir: bool, k: Kind): string {
    match k
    case ChkKind => if dir then "DIR2-CHK" else "CHK"
    case ChkVerifierKind => if dir then "DIR2-CHK-Verifier" else "CHK-Verifier"
    case LitKind => if dir then "DIR2-LIT" else "LIT"
    case SskKind => if dir then "DIR2" else "SSK"
    case SskRoKind => if dir then "DIR2-RO" else "SSK-RO"
    case SskVerifierKind => if dir then "DIR2-Verifier" else "SSK-Verifier"
    case MdmfKind => if dir then "DIR2-MDMF" else "MDMF"
    case MdmfRoKind => if dir then "DIR2-MDMF-RO" else "MDMF-RO"
    case MdmfVerifierKind => if dir then "DIR2-MDMF-Verifier" else "MDMF-Verifier"
  }

  /** BASE_STRING of a class. */
  function Prefix(dir: bool, k: Kind): Bytes {
    "URI:" + Tag(dir, k) + ":"
  }

  function Keys(p: Primitives, f: FileCap): Bytes
    requires !f.LIT?
  {
    p.b2a(Fields(f).0) + ":" + p.b2a(Fields(f).1)
  }

  function Numbers(needed: nat, total: nat, size: nat): Bytes {
    ":" + Decimal(needed) + (":" + Decimal(total) + (":" + Decimal(size)))
  }

  /** What follows the two binary fields. */
  function Tail(f: FileCap): Bytes {
    match f
    case CHK(_, _, k, n, size) => Numbers(k, n, size)
    case CHKVerifier(_, _, k, n, size) => Numbers(k, n, size)
    case _ => ""
  }

  /** What follows the prefix. */
  function Bits(p: Primitives, f: FileCap): Bytes {
    if f.LIT? then p.b2a(f.data) else Keys(p, f) + Tail(f)
  }

  function ToString(p: Primitives, c: Cap): Bytes {
    Prefix(c.Dir?, KindOf(c.f)) + Bits(p, c.f)
  }

  // ---- Parsing ------------------------------------------------------------

  /** The end anchor of a pattern: the end, or one final line feed. */
  predicate AtEnd(s: Bytes) {
    s == "" || s == "\n"
  }

  datatype KeyMatch = KeyMatch(first: Bytes, second: Bytes, rest: Bytes)

  function MatchKeys(s: Bytes): Option<KeyMatch> {
    if |s| >= 79 && Is128(s[..26]) && s[26] == ':' && Is256(s[27..79]) then
      Some(KeyMatch(s[..26], s[27..79], s[79..]))
    else None
  }

  /** How many digits `s` starts with. */
  function DigitRun(s: Bytes): (n: nat)
    ensures n <= |s|
    ensures forall i :: 0 <= i < n ==> IsDigit(s[i])
    ensures n < |s| ==> !IsDigit(s[n])
  {
    if s != "" && IsDigit(s[0]) then 1 + DigitRun(s[1..]) else 0
  }

  /** ":" and a number: its value and what follows. */
  function MatchNumber(s: Bytes): Option<(nat, Bytes)> {
    if s == "" || s[0] != ':' then None
    else
      var n := DigitRun(s[1..]);
      match ParseDigits(s[1..][..n])
      case None => None
      case Some(v) => Some((v, s[1..][n..]))
  }

  datatype NumberMatch = NumberMatch(needed: nat, total: nat, size: nat, rest: Bytes)

  function MatchNumbers(s: Bytes): Option<NumberMatch> {
    match MatchNumber(s)
    case None => None
    case Some((k, s1)) =>
      match MatchNumber(s1)
      case None => None
      case Some((n, s2)) =>
        match MatchNumber(s2)
        case None => None
        case Some((size, rest)) => Some(NumberMatch(k, n, size, rest))
  }

  function MatchLiteral(s: Bytes): Option<Bytes> {
    if IsAnyBytes(s) then Some(s)
    else if s != "" && s[|s| - 1] == '\n' && IsAnyBytes(s[..|s| - 1]) then Some(s[..|s| - 1])
    else None
  }

  /** The cap of kind `k` with the given binary fields, if what follows them fits the pattern. */
  function Finish(k: Kind, a: Bytes, b: Bytes, rest: Bytes): Option<FileCap>
    requires !k.LitKind?
  {
    match k
    case ChkKind =>
      (match MatchNumbers(rest)
       case None => None
       case Some(v) => if AtEnd(v.rest) then Some(CHK(a, b, v.needed, v.total, v.size)) else None)
    case ChkVerifierKind =>
      (match MatchNumbers(rest)
       case None => None
       case Some(v) => Some(CHKVerifier(a, b, v.needed, v.total, v.size)))
    case SskKind => if AtEnd(rest) then Some(SSK(a, b)) else None
    case SskRoKind => if AtEnd(rest) then Some(SSKRo(a, b)) else None
    case SskVerifierKind => if AtEnd(rest) then Some(SSKVerifier(a, b)) else None
    case MdmfKind => if EndsOrColon(rest) then Some(MDMF(a, b)) else None
    case MdmfRoKind => if EndsOrColon(rest) then Some(MDMFRo(a, b)) else None
    case MdmfVerifierKind => if EndsOrColon(rest) then Some(MDMFVerifier(a, b)) else None
  }

  /** `init_from_string` of the class of kind `k`, given what follows its prefix; None is BadURIError. */
  function ParseBits(p: Primitives, k: Kind, s: Bytes): Option<FileCap> {
    if k.LitKind? then
      match MatchLiteral(s) { case None => None case Some(m) => Some(LIT(p.a2b(m))) }
    else
      match MatchKeys(s)
      case None => None
      case Some(m) => Finish(k, p.a2b(m.first), p.a2b(m.second), m.rest)
  }

  predicate EndsOrColon(s: Bytes) {
    AtEnd(s) || s[0] == ':'
  }

  /** The classes in the order in which `from_string` tries their prefixes. */
  const CLASS_ORDER: seq<(bool, Kind)> := [
    (false, ChkKind), (false, ChkVerifierKind), (false, LitKind),
    (false, SskKind), (false, SskRoKind), (false, SskVerifierKind),
    (false, MdmfKind), (false, MdmfRoKind), (false, MdmfVerifierKind),
    (true, SskKind), (true, SskRoKind), (true, SskVerifierKind),
    (true, ChkKind), (true, ChkVerifierKind), (true, LitKind),
    (true, MdmfKind), (true, MdmfRoKind), (true, MdmfVerifierKind)]

  /** The first of some classes whose prefix `s` has. */
  function FirstMatch(s: Bytes, classes: seq<(bool, Kind)>): (r: Option<(bool, Kind)>)
    ensures r.Some? ==> Prefix(r.value.0, r.value.1) <= s
  {
    if classes == [] then None
    else if Prefix(classes[0].0, classes[0].1) <= s then Some(classes[0])
    else FirstMatch(s, classes[1..])
  }

  function Dispatch(s: Bytes): (r: Option<(bool, Kind)>)
    ensures r.Some? ==> Prefix(r.value.0, r.value.1) <= s
  {
    FirstMatch(s, CLASS_ORDER)
  }

  datatype CapError = BadURI | MustBeDeepImmutable | MustBeReadonly | MustNotBeUnknownRW

  datatype Uri = KnownUri(cap: Cap) | UnknownUri(uri: Bytes, error: Option<CapError>)

  const RO: Bytes := "ro."
  const IMM: Bytes := "imm."

  const FUTURE_WRITEABLE: Bytes := "x-tahoe-future-test-writeable:"
  const FUTURE_MUTABLE: Bytes := "x-tahoe-future-test-mutable:"

  /** The part of `from_string` after the alleged prefix is taken off `u`, leaving `s`. */
  function FromUnprefixed(p: Primitives, u: Bytes, s: Bytes, canBeMutable: bool, canBeWriteable: bool): Uri {
    var constraint := if canBeMutable then MustBeReadonly else MustBeDeepImmutable;
    match Dispatch(s)
    case Some((dir, k)) =>
      if (IsWriteKind(k) && !canBeWriteable) || (IsMutableKind(k) && !IsWriteKind(k) && !canBeMutable) then
        UnknownUri(u, Some(constraint))
      else
        (match ParseBits(p, k, s[|Prefix(dir, k)|..])
         case None => UnknownUri(u, Some(BadURI))
         case Some(f) => KnownUri(if dir then Dir(f) else File(f)))
    case None =>
      if (FUTURE_WRITEABLE <= s && !canBeWriteable) || (FUTURE_MUTABLE <= s && !canBeMutable) then
        UnknownUri(u, Some(constraint))
      else UnknownUri(u, None)
  }

  function FromString(p: Primitives, u: Bytes, deepImmutable: bool): Uri {
    if IMM <= u then FromUnprefixed(p, u, u[|IMM|..], false, false)
    else if RO <= u then FromUnprefixed(p, u, u[|RO|..], !deepImmutable, false)
    else FromUnprefixed(p, u, u, !deepImmutable, !deepImmutable)
  }

  // ---- Attenuation --------------------------------------------------------

  function ReadonlyFile(p: Primitives, f: FileCap): FileCap {
    match f
    case SSK(writekey, fp) => SSKRo(p.readkeyHash(writekey), fp)
    case MDMF(writekey, fp) => MDMFRo(p.readkeyHash(writekey), fp)
    case _ => f
  }

  function FileStorageIndex(p: Primitives, f: FileCap): Option<Bytes> {
    match f
    case CHK(key, _, _, _, _) => Some(p.storageIndexHash(key))
    case LIT(_) => None
    case SSK(writekey, _) => Some(p.sskStorageIndexHash(p.readkeyHash(writekey)))
    case MDMF(writekey, _) => Some(p.sskStorageIndexHash(p.readkeyHash(writekey)))
    case SSKRo(readkey, _) => Some(p.sskStorageIndexHash(readkey))
    case MDMFRo(readkey, _) => Some(p.sskStorageIndexHash(readkey))
    case CHKVerifier(si, _, _, _, _) => Some(si)
    case SSKVerifier(si, _) => Some(si)
    case MDMFVerifier(si, _) => Some(si)
  }

  function FileVerifyCap(p: Primitives, f: FileCap): Option<FileCap> {
    match f
    case CHK(key, ueh, k, n, size) => Some(CHKVerifier(p.storageIndexHash(key), ueh, k, n, size))
    case LIT(_) => None
    case SSK(writekey, fp) => Some(SSKVerifier(p.sskStorageIndexHash(p.readkeyHash(writekey)), fp))
    case SSKRo(readkey, fp) => Some(SSKVerifier(p.sskStorageIndexHash(readkey), fp))
    case MDMF(writekey, fp) => Some(MDMFVerifier(p.sskStorageIndexHash(p.readkeyHash(writekey)), fp))
    case MDMFRo(readkey, fp) => Some(MDMFVerifier(p.sskStorageIndexHash(readkey), fp))
    case _ => Some(f)
  }

  predicate IsReadonly(c: Cap) {
    !IsWriteKind(KindOf(c.f))
  }

  predicate IsMutable(c: Cap) {
    IsMutableKind(KindOf(c.f))
  }

  predicate IsVerifier(c: Cap) {
    IsVerifierKind(KindOf(c.f))
  }

  function Readonly(p: Primitives, c: Cap): Cap {
    c.(f := ReadonlyFile(p, c.f))
  }

  function StorageIndex(p: Primitives, c: Cap): Option<Bytes> {
    FileStorageIndex(p, c.f)
  }

  /** `get_verify_cap` of file caps and of the directory caps that are not verifiers themselves. */
  function VerifyCap(p: Primitives, c: Cap): Option<Cap>
    requires !(c.Dir? && IsVerifier(c))
  {
    match FileVerifyCap(p, c.f)
    case None => None
    case Some(v) => Some(c.(f := v))
  }
}
