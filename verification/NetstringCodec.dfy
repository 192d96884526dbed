/** Decimal numbers and netstrings: "<length>:<bytes>,". */
module NetstringCodec {
  import opened Basics

  // ---- Numbers ------------------------------------------------------------

  predicate IsDigit(c: char) {
    '0' <= c <= '9'
  }

  function DigitValue(c: char): nat
    requires IsDigit(c)
  {
    c as int - '0' as int
  }

  function DigitChar(d: nat): (c: char)
    requires d < 10
    ensures IsDigit(c) && DigitValue(c) == d
  {
    "0123456789"[d]
  }

  /** `b"%d" % n` for a non-negative n. */
  function Decimal(n: nat): (s: Bytes)
    ensures |s| > 0 && forall i :: 0 <= i < |s| ==> IsDigit(s[i])
  {
    if n < 10 then [DigitChar(n)] else Decimal(n / 10) + [DigitChar(n % 10)]
  }

  function DecimalInt(n: int): Bytes {
    if n < 0 then "-" + Decimal(-n) else Decimal(n)
  }

  /** Digits with single underscores allowed between them. */
  function ParseDigits(s: Bytes): Option<nat> {
    if s == "" || !IsDigit(s[|s| - 1]) then None
    else if |s| == 1 then Some(DigitValue(s[0]))
    else
      var front := if s[|s| - 2] == '_' then s[..|s| - 2] else s[..|s| - 1];
      match ParseDigits(front)
      case None => None
      case Some(v) => Some(10 * v + DigitValue(s[|s| - 1]))
  }

  predicate IsSpace(c: char) {
    c in {' ', '\t', '\n', '\r', '\U{0B}', '\U{0C}'}
  }

  function StripLeft(s: Bytes): Bytes {
    if s != "" && IsSpace(s[0]) then StripLeft(s[1..]) else s
  }

  function StripRight(s: Bytes): Bytes {
    if s != "" && IsSpace(s[|s| - 1]) then StripRight(s[..|s| - 1]) else s
  }

  /** `int(s)` on a byte string: surrounding white space, one sign, digits. */
  function ParseInt(s: Bytes): Option<int> {
    var t := StripRight(StripLeft(s));
    if t != "" && t[0] == '-' then Signed(-1, ParseDigits(t[1..]))
    else if t != "" && t[0] == '+' then Signed(1, ParseDigits(t[1..]))
    else Signed(1, ParseDigits(t))
  }

  function Signed(sign: int, digits: Option<nat>): Option<int> {
    if digits.Some? then Some(sign * digits.value) else None
  }

  lemma {:induction false} ParseDigitsDecimal(n: nat)
    ensures ParseDigits(Decimal(n)) == Some(n)
  {
    if n >= 10 {
      ParseDigitsDecimal(n / 10);
      assert Decimal(n)[..|Decimal(n)| - 1] == Decimal(n / 10);
      assert IsDigit(Decimal(n)[|Decimal(n)| - 2]);
    }
  }

  /** Printing an integer and reading it back gives the integer. */
  lemma ParseIntDecimal(n: int)
    ensures ParseInt(DecimalInt(n)) == Some(n)
  {
    var s := DecimalInt(n);
    ParseDigitsDecimal(if n < 0 then -n else n);
    assert !IsSpace(s[0]) && !IsSpace(s[|s| - 1]);
    if n < 0 {
      assert s[1..] == Decimal(-n);
    }
  }

  // ---- Which byte strings are numbers -------------------------------------

  /** Digits, with an underscore allowed between any two of them. */
  predicate IsNumeral(s: Bytes) {
    && s != "" && IsDigit(s[0]) && IsDigit(s[|s| - 1])
    && forall i :: 0 <= i < |s| ==> FitsNumeral(s, i)
  }

  predicate FitsNumeral(s: Bytes, i: nat)
    requires i < |s|
  {
    IsDigit(s[i]) || (s[i] == '_' && 0 < i && s[i - 1] != '_')
  }

  /** The number a numeral stands for: underscores do not count. */
  function NumeralValue(s: Bytes): nat {
    if s == "" then 0
    else
      var front, last := s[..|s| - 1], s[|s| - 1];
      if IsDigit(last) then 10 * NumeralValue(front) + DigitValue(last) else NumeralValue(front)
  }

  /** The part of a numeral up to any digit in it is a numeral. */
  lemma NumeralUpTo(s: Bytes, k: nat)
    requires 0 < k <= |s| && IsDigit(s[k - 1]) && IsNumeral(s)
    ensures IsNumeral(s[..k])
  {
    forall i | 0 <= i < k
      ensures FitsNumeral(s[..k], i)
    {
      assert FitsNumeral(s, i);
    }
  }

  /** One more digit, after an underscore or not, makes another numeral. */
  lemma NumeralLonger(s: Bytes, k: nat)
    requires 0 < k < |s| <= k + 2 && IsNumeral(s[..k]) && IsDigit(s[|s| - 1]) && (|s| == k + 2 ==> s[k] == '_')
    ensures IsNumeral(s)
  {
    var front := s[..k];
    assert s[k - 1] == front[k - 1];
    forall i | 0 <= i < |s|
      ensures FitsNumeral(s, i)
    {
      if i < k {
        assert FitsNumeral(front, i);
      }
    }
  }

  lemma {:induction false} NumeralIff(s: Bytes)
    ensures ParseDigits(s).Some? <==> IsNumeral(s)
    ensures IsNumeral(s) ==> ParseDigits(s) == Some(NumeralValue(s))
    decreases |s|
  {
    hide IsNumeral;
    if |s| <= 1 || !IsDigit(s[|s| - 1]) {
      ShortNumeral(s);
    } else {
      var k := if s[|s| - 2] == '_' then |s| - 2 else |s| - 1;
      NumeralIff(s[..k]);
      assert s[..|s| - 1][..|s| - 2] == s[..|s| - 2];
      if IsNumeral(s) {
        BeforeLast(s, k);
        NumeralUpTo(s, k);
      }
      if IsNumeral(s[..k]) {
        NumeralNotEmpty(s[..k]);
        NumeralLonger(s, k);
      }
    }
  }

  lemma ShortNumeral(s: Bytes)
    requires |s| <= 1 || !IsDigit(s[|s| - 1])
    ensures IsNumeral(s) <==> |s| == 1 && IsDigit(s[0])
  {
  }

  lemma NumeralNotEmpty(s: Bytes)
    requires IsNumeral(s)
    ensures s != ""
  {
  }

  lemma BeforeLast(s: Bytes, k: nat)
    requires |s| > 1 && IsNumeral(s) && k == if s[|s| - 2] == '_' then |s| - 2 else |s| - 1
    ensures 0 < k && IsDigit(s[k - 1])
  {
    assert FitsNumeral(s, |s| - 2);
    if k > 0 {
      assert FitsNumeral(s, k - 1);
    }
  }

  predicate AllSpace(s: Bytes) {
    forall i :: 0 <= i < |s| ==> IsSpace(s[i])
  }

  lemma {:induction false} StripLeftIs(space: Bytes, t: Bytes)
    requires AllSpace(space) && (t != "" ==> !IsSpace(t[0]))
    ensures StripLeft(space + t) == t
  {
    if space == "" {
      assert space + t == t;
    } else {
      assert (space + t)[1..] == space[1..] + t;
      StripLeftIs(space[1..], t);
    }
  }

  lemma {:induction false} StripRightIs(t: Bytes, space: Bytes)
    requires AllSpace(space) && (t != "" ==> !IsSpace(t[|t| - 1]))
    ensures StripRight(t + space) == t
  {
    if space == "" {
      assert t + space == t;
    } else {
      assert (t + space)[..|t + space| - 1] == t + space[..|space| - 1];
      StripRightIs(t, space[..|space| - 1]);
    }
  }

  lemma {:induction false} StripLeftParts(s: Bytes) returns (space: Bytes)
    ensures AllSpace(space) && s == space + StripLeft(s)
  {
    if s != "" && IsSpace(s[0]) {
      var more := StripLeftParts(s[1..]);
      space := [s[0]] + more;
    } else {
      space := "";
    }
  }

  lemma {:induction false} StripRightParts(s: Bytes) returns (space: Bytes)
    ensures AllSpace(space) && s == StripRight(s) + space
  {
    if s != "" && IsSpace(s[|s| - 1]) {
      var more := StripRightParts(s[..|s| - 1]);
      space := more + [s[|s| - 1]];
      assert s == s[..|s| - 1] + [s[|s| - 1]];
    } else {
      space := "";
    }
  }

  /** An integer as `int` reads it: white space, a sign if there is one, a numeral, white space. */
  ghost predicate IsInteger(s: Bytes, before: Bytes, sign: Bytes, numeral: Bytes, after: Bytes) {
    && s == before + (sign + numeral) + after && AllSpace(before) && AllSpace(after)
    && sign in {"", "+", "-"} && IsNumeral(numeral)
  }

  lemma SignedNumeral(sign: Bytes, numeral: Bytes)
    requires sign in {"", "+", "-"} && IsNumeral(numeral)
    ensures var t := sign + numeral; !IsSpace(t[0]) && !IsSpace(t[|t| - 1])
  {
    var t := sign + numeral;
    assert t[|t| - 1] == numeral[|numeral| - 1];
  }

  lemma IntegerReads(s: Bytes, before: Bytes, sign: Bytes, numeral: Bytes, after: Bytes)
    requires IsInteger(s, before, sign, numeral, after)
    ensures ParseInt(s) == Some((if sign == "-" then -1 else 1) * NumeralValue(numeral))
  {
    hide NumeralValue, ParseDigits, StripLeft, StripRight;
    var t := sign + numeral;
    SignedNumeral(sign, numeral);
    assert s == before + (t + after);
    StripLeftIs(before, t + after);
    StripRightIs(t, after);
    NumeralIff(numeral);
    if sign == "" {
      assert t == numeral;
    } else {
      assert t[1..] == numeral;
    }
  }

  /** Only such byte strings are integers. */
  lemma IntegerHas(s: Bytes) returns (before: Bytes, sign: Bytes, numeral: Bytes, after: Bytes)
    requires ParseInt(s).Some?
    ensures IsInteger(s, before, sign, numeral, after)
  {
    hide NumeralValue, ParseDigits, StripLeft, StripRight, IsNumeral, AllSpace;
    before := StripLeftParts(s);
    after := StripRightParts(StripLeft(s));
    var t := StripRight(StripLeft(s));
    if t != "" && (t[0] == '-' || t[0] == '+') {
      sign, numeral := [t[0]], t[1..];
    } else {
      sign, numeral := "", t;
    }
    assert sign + numeral == t;
    assert s == before + (t + after);
    NumeralIff(numeral);
  }

  // ---- Netstrings ---------------------------------------------------------

  /** The offset of the first `c` in `s`. */
  function IndexOf(s: Bytes, c: char): (r: Option<nat>)
    ensures r.Some? ==> r.value < |s| && s[r.value] == c && forall i :: 0 <= i < r.value ==> s[i] != c
    ensures r.None? ==> c !in s
  {
    if s == "" then None
    else if s[0] == c then Some(0)
    else match IndexOf(s[1..], c) { case None => None case Some(i) => Some(i + 1) }
  }

  function Netstring(s: Bytes): Bytes {
    Decimal(|s|) + ":" + s + ","
  }

  /** The first netstring of `d` and the bytes after it. */
  function TakeNetstring(d: Bytes): (r: Option<(Bytes, Bytes)>)
    ensures r.Some? ==> |r.value.0| + |r.value.1| + 2 <= |d|
  {
    match IndexOf(d, ':')
    case None => None
    case Some(colon) =>
      match ParseInt(d[..colon])
      case None => None
      case Some(length) =>
        var end := colon + 1 + length;
        if length < 0 || end >= |d| || d[end] != ',' then None
        else Some((d[colon + 1..end], d[end + 1..]))
  }

  lemma IndexOfAfter(s: Bytes, c: char, t: Bytes)
    requires c !in s
    ensures IndexOf(s + [c] + t, c) == Some(|s|)
  {
    var all := s + [c] + t;
    assert all[|s|] == c;
    forall i | 0 <= i < |s|
      ensures all[i] != c
    {
      assert all[i] == s[i];
    }
  }

  lemma TakeAtColon(number: Bytes, s: Bytes, rest: Bytes)
    requires ':' !in number && ParseInt(number) == Some(|s|)
    ensures TakeNetstring(number + ":" + s + "," + rest) == Some((s, rest))
  {
    var d := number + ":" + s + "," + rest;
    assert d == number + [':'] + (s + "," + rest);
    IndexOfAfter(number, ':', s + "," + rest);
    assert d[..|number|] == number;
    assert d[|number| + 1..|number| + 1 + |s|] == s;
    assert d[|number| + 1 + |s| + 1..] == rest;
  }

  /** Nothing else is taken: a number, a colon, that many bytes, and a comma. */
  lemma TakenParts(d: Bytes) returns (number: Bytes)
    requires TakeNetstring(d).Some?
    ensures ':' !in number && ParseInt(number) == Some(|TakeNetstring(d).value.0|)
    ensures var (s, rest) := TakeNetstring(d).value; d == number + ":" + s + "," + rest
  {
    hide ParseInt;
    var colon := IndexOf(d, ':').value;
    var (s, rest) := TakeNetstring(d).value;
    number := d[..colon];
    var end := colon + 1 + |s|;
    assert d == d[..colon] + [d[colon]] + d[colon + 1..end] + [d[end]] + d[end + 1..];
  }

  /** A netstring in front of anything is read back exactly, wherever it contains ':' or ','. */
  lemma TakeNetstringInverse(s: Bytes, rest: Bytes)
    ensures TakeNetstring(Netstring(s) + rest) == Some((s, rest))
  {
    ParseIntDecimal(|s|);
    TakeAtColon(Decimal(|s|), s, rest);
  }

  /** What is left of `data` at `position`. */
  function Rest(data: Bytes, position: nat): Bytes {
    if position <= |data| then data[position..] else ""
  }

  /** Netstrings off the front of `d` until there are `want` of them, `got` having been read before. */
  function SplitFrom(d: Bytes, want: nat, got: nat): (r: Option<(seq<Bytes>, Bytes)>)
    ensures r.Some? && got < want ==> |r.value.0| == want - got && |r.value.1| < |d|
    decreases |d|
  {
    if d == "" then if got < want then None else Some(([], ""))
    else
      match TakeNetstring(d)
      case None => None
      case Some((element, rest)) =>
        if got + 1 == want then Some(([element], rest))
        else
          match SplitFrom(rest, want, got + 1)
          case None => None
          case Some((elements, rest')) => Some(([element] + elements, rest'))
  }

  lemma SplitStep(d: Bytes, want: nat, got: nat, element: Bytes, rest: Bytes)
    requires TakeNetstring(d) == Some((element, rest))
    ensures SplitFrom(d, want, got) ==
      if got + 1 == want then Some(([element], rest))
      else if SplitFrom(rest, want, got + 1).None? then None
      else Some(([element] + SplitFrom(rest, want, got + 1).value.0, SplitFrom(rest, want, got + 1).value.1))
  {
  }

  /** One turn of the loop of `split_netstring`: the netstring at `position`. */
  method TakeAt(data: Bytes, position: nat) returns (r: Option<(Bytes, nat)>)
    requires position < |data|
    ensures r.None? <==> TakeNetstring(data[position..]).None?
    ensures r.Some? ==> position < r.value.1 <= |data|
    ensures r.Some? ==> TakeNetstring(data[position..]) == Some((r.value.0, data[r.value.1..]))
  {
    ghost var here := data[position..];
    var offset := IndexOf(data[position..], ':');
    if offset.None? {
      return None;
    }
    var colon := position + offset.value;
    assert data[position..colon] == here[..offset.value];
    var length := ParseInt(data[position..colon]);
    if length.None? || length.value < 0 || colon + 1 + length.value > |data| {
      return None;
    }
    var end := colon + 1 + length.value;
    var element := data[colon + 1..end];
    if end >= |data| || data[end] != ',' {
      return None;
    }
    assert element == here[offset.value + 1..offset.value + 1 + length.value];
    assert data[end + 1..] == here[offset.value + 1 + length.value + 1..];
    return Some((element, end + 1));
  }

  /** `elements` have been read and `rest` is what is left; together they make up `whole`. */
  ghost predicate SplitSoFar(whole: Option<(seq<Bytes>, Bytes)>, elements: seq<Bytes>, rest: Bytes, want: nat) {
    var more := SplitFrom(rest, want, |elements|);
    && (whole.Some? <==> more.Some?)
    && (whole.Some? ==> whole.value == (elements + more.value.0, more.value.1))
  }

  lemma SplitOneMore(whole: Option<(seq<Bytes>, Bytes)>, elements: seq<Bytes>, here: Bytes, want: nat, element: Bytes, rest: Bytes)
    requires SplitSoFar(whole, elements, here, want)
    requires TakeNetstring(here) == Some((element, rest))
    ensures |elements| + 1 == want ==> whole == Some((elements + [element], rest))
    ensures |elements| + 1 != want ==> SplitSoFar(whole, elements + [element], rest, want)
  {
    hide SplitFrom, TakeNetstring;
    SplitStep(here, want, |elements|, element, rest);
    if |elements| + 1 != want {
      var more := SplitFrom(rest, want, |elements| + 1);
      assert more.Some? ==> elements + ([element] + more.value.0) == elements + [element] + more.value.0;
    }
  }

  /** The loop of `split_netstring`. */
  method TakeNetstrings(data: Bytes, numstrings: nat, position: nat) returns (r: Option<(seq<Bytes>, nat)>)
    ensures r.Some? <==> SplitFrom(Rest(data, position), numstrings, 0).Some?
    ensures r.Some? ==> SplitFrom(Rest(data, position), numstrings, 0).value == (r.value.0, Rest(data, r.value.1))
    ensures r.Some? && position <= |data| && numstrings > 0 ==> position < r.value.1
    ensures r.Some? ==> (r.value.1 <= |data| <==> position <= |data|)
  {
    var elements: seq<Bytes> := [];
    var pos := position;
    ghost var whole := SplitFrom(Rest(data, position), numstrings, 0);
    assert whole.Some? ==> [] + whole.value.0 == whole.value.0;
    while pos < |data|
      invariant position <= pos && (pos <= |data| <==> position <= |data|)
      invariant numstrings > 0 ==> |elements| < numstrings
      invariant SplitSoFar(whole, elements, Rest(data, pos), numstrings)
      decreases |data| - pos
    {
      var next := TakeAt(data, pos);
      if next.None? {
        return None;
      }
      SplitOneMore(whole, elements, Rest(data, pos), numstrings, next.value.0, Rest(data, next.value.1));
      elements := elements + [next.value.0];
      pos := next.value.1;
      if |elements| == numstrings {
        return Some((elements, pos));
      }
    }
    if |elements| < numstrings {
      return None;
    }
    assert elements + [] == elements;
    return Some((elements, pos));
  }

  /** `split_netstring`: what is left must be the required trailer, if there is one, and is then consumed too. */
  method SplitNetstring(data: Bytes, numstrings: nat, position: nat, requiredTrailer: Option<Bytes>) returns (r: Option<(seq<Bytes>, nat)>)
    ensures var split := SplitFrom(Rest(data, position), numstrings, 0);
      && (r.Some? <==> split.Some? && (requiredTrailer.Some? ==> position <= |data| && split.value.1 == requiredTrailer.value))
      && (r.Some? ==> split.value.0 == r.value.0 && Rest(data, r.value.1) == if requiredTrailer.Some? then "" else split.value.1)
    ensures r.Some? && position <= |data| && numstrings > 0 ==> position < r.value.1 <= |data|
    ensures r.Some? && requiredTrailer.Some? ==> r.value.1 == |data|
  {
    r := TakeNetstrings(data, numstrings, position);
    if r.Some? && requiredTrailer.Some? {
      var (elements, pos) := r.value;
      var trailer := requiredTrailer.value;
      if |data| - pos != |trailer| || data[pos..] != trailer {
        return None;
      }
      return Some((elements, pos + |trailer|));
    }
  }

  function Netstrings(ss: seq<Bytes>): Bytes {
    if ss == [] then "" else Netstring(ss[0]) + Netstrings(ss[1..])
  }

  /** Splitting off as many netstrings as were joined gives them back, and leaves what follows. */
  lemma {:induction false} SplitInverse(ss: seq<Bytes>, rest: Bytes, want: nat, got: nat)
    requires |ss| > 0 && got + |ss| == want
    ensures SplitFrom(Netstrings(ss) + rest, want, got) == Some((ss, rest))
  {
    var tail := Netstrings(ss[1..]) + rest;
    assert Netstrings(ss) + rest == Netstring(ss[0]) + tail;
    TakeNetstringInverse(ss[0], tail);
    SplitStep(Netstrings(ss) + rest, want, got, ss[0], tail);
    if |ss| > 1 {
      SplitInverse(ss[1..], rest, want, got + 1);
      assert [ss[0]] + ss[1..] == ss;
    } else {
      assert tail == rest && [ss[0]] == ss;
    }
  }
}
