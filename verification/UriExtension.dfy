/** The URI extension block: a serialized dictionary of byte strings and numbers. */
module UriExtension {
  import opened Basics
  import opened NetstringCodec
  import opened Sorting

  datatype Value = Text(bytes: Bytes) | Number(n: int)

  /** Turns the bytes of a key into the key (UTF-8); not every byte string is one. */
  type Decoder = Bytes -> Option<string>

  predicate IsKeyChar(c: char) {
    'a' <= c <= 'z' || 'A' <= c <= 'Z' || c == '_' || c == '-'
  }

  /** The key pattern, whose end anchor also tolerates one final line feed. */
  predicate LegalKey(k: string) {
    Stem(k) != "" && forall i :: 0 <= i < |Stem(k)| ==> IsKeyChar(Stem(k)[i])
  }

  function Stem(k: string): string {
    if k != "" && k[|k| - 1] == '\n' then k[..|k| - 1] else k
  }

  ghost predicate DecodesKeys(decode: Decoder) {
    forall k: string :: LegalKey(k) ==> decode(k) == Some(k)
  }

  function Rendered(v: Value): Bytes {
    match v
    case Text(b) => b
    case Number(n) => DecimalInt(n)
  }

  // ---- Packing ------------------------------------------------------------

  function Piece(k: string, v: Value): Bytes {
    k + ":" + Netstring(Rendered(v))
  }

  function Pieces(d: map<string, Value>, names: seq<string>): Bytes
    requires forall k :: k in names ==> k in d
  {
    if names == [] then "" else Piece(names[0], d[names[0]]) + Pieces(d, names[1..])
  }

  ghost predicate AllLegal(keys: set<string>) {
    forall k :: k in keys ==> LegalKey(k)
  }

  lemma Concat3(a: Bytes, b: Bytes, c: Bytes)
    ensures a + (b + c) == a + b + c
  {
  }

  method PackExtension(d: map<string, Value>) returns (r: Option<Bytes>)
    ensures r.Some? <==> AllLegal(d.Keys)
    ensures r.Some? ==> r.value == Pieces(d, SortedNames(d.Keys))
  {
    hide LegalKey, Piece;
    var names := SortNames(d.Keys);
    var packed := "";
    var i := 0;
    while i < |names|
      invariant 0 <= i <= |names|
      invariant forall j :: 0 <= j < i ==> LegalKey(names[j])
      invariant packed + Pieces(d, names[i..]) == Pieces(d, names)
    {
      var k := names[i];
      if !LegalKey(k) {
        return None;
      }
      assert names[i..][1..] == names[i + 1..];
      Concat3(packed, Piece(k, d[k]), Pieces(d, names[i + 1..]));
      packed := packed + Piece(k, d[k]);
      i := i + 1;
    }
    return Some(packed);
  }

  // ---- Unpacking ----------------------------------------------------------

  datatype Field = Field(key: Bytes, value: Bytes, rest: Bytes)

  function TakeField(data: Bytes): (r: Option<Field>)
    ensures r.Some? ==> |r.value.rest| < |data|
  {
    match IndexOf(data, ':')
    case None => None
    case Some(colon) =>
      var data1 := data[colon + 1..];
      match IndexOf(data1, ':')
      case None => None
      case Some(colon1) =>
        match ParseInt(data1[..colon1])
        case None => None
        case Some(length) =>
          var data2 := data1[colon1 + 1..];
          if Slice(data2, length, length + 1) != "," then None
          else Some(Field(data[..colon], Slice(data2, 0, length), Slice(data2, length + 1, |data2|)))
  }

  function ParseFields(decode: Decoder, data: Bytes, d: map<string, Bytes>): Option<map<string, Bytes>>
    decreases |data|
  {
    if data == "" then Some(d)
    else
      match TakeField(data)
      case None => None
      case Some(f) =>
        match decode(f.key)
        case None => None
        case Some(key) => ParseFields(decode, f.rest, d[key := f.value])
  }

  const INT_KEYS: seq<string> := ["size", "segment_size", "num_segments", "needed_shares", "total_shares"]

  predicate NumbersParse(intKeys: seq<string>, d: map<string, Bytes>) {
    forall k :: k in intKeys && k in d ==> ParseInt(d[k]).Some?
  }

  /** `d` with the values under `intKeys` turned into numbers. */
  function Typed(intKeys: seq<string>, d: map<string, Bytes>): map<string, Value>
    requires NumbersParse(intKeys, d)
  {
    map k | k in d :: if k in intKeys then Number(ParseInt(d[k]).value) else Text(d[k])
  }

  function UnpackedWith(intKeys: seq<string>, decode: Decoder, data: Bytes): Option<map<string, Value>> {
    match ParseFields(decode, data, map[])
    case None => None
    case Some(d) => if NumbersParse(intKeys, d) then Some(Typed(intKeys, d)) else None
  }

  function Unpacked(decode: Decoder, data: Bytes): Option<map<string, Value>> {
    UnpackedWith(INT_KEYS, decode, data)
  }

  method ConvertNumbers(intKeys: seq<string>, d: map<string, Bytes>) returns (r: Option<map<string, Value>>)
    ensures r == if NumbersParse(intKeys, d) then Some(Typed(intKeys, d)) else None
  {
    var typed: map<string, Value> := map k | k in d :: Text(d[k]);
    assert typed == Typed([], d);
    var i := 0;
    while i < |intKeys|
      invariant 0 <= i <= |intKeys|
      invariant NumbersParse(intKeys[..i], d) && typed == Typed(intKeys[..i], d)
    {
      var intkey := intKeys[i];
      assert intKeys[..i + 1] == intKeys[..i] + [intkey];
      if intkey in d {
        var n := ParseInt(d[intkey]);
        if n.None? {
          return None;
        }
        typed := typed[intkey := Number(n.value)];
      }
      i := i + 1;
      assert typed == Typed(intKeys[..i], d);
    }
    assert intKeys[..i] == intKeys;
    return Some(typed);
  }

  method UnpackExtension(decode: Decoder, data0: Bytes) returns (r: Option<map<string, Value>>)
    ensures r == Unpacked(decode, data0)
  {
    var data := data0;
    var d: map<string, Bytes> := map[];
    while data != ""
      invariant ParseFields(decode, data, d) == ParseFields(decode, data0, map[])
      decreases |data|
    {
      var f := TakeField(data);
      if f.None? {
        return None;
      }
      var key := decode(f.value.key);
      if key.None? {
        return None;
      }
      d := d[key.value := f.value.value];
      data := f.value.rest;
    }
    r := ConvertNumbers(INT_KEYS, d);
  }

  // ---- Round trip ---------------------------------------------------------

  function AllRendered(d: map<string, Value>): map<string, Bytes> {
    map k | k in d :: Rendered(d[k])
  }

  /** Keys are made of letters, underscores and hyphens, by their codes. */
  lemma KeyCharacters(c: char)
    ensures IsKeyChar(c) <==> 65 <= c as int <= 90 || 97 <= c as int <= 122 || c as int == 95 || c as int == 45
  {
  }

  lemma LegalKeyNoColon(k: string)
    requires LegalKey(k)
    ensures ':' !in k
  {
    forall i | 0 <= i < |k|
      ensures k[i] != ':'
    {
      if i < |Stem(k)| {
        assert k[i] == Stem(k)[i] && IsKeyChar(Stem(k)[i]);
      }
    }
  }

  lemma TakeFieldParts(key: Bytes, number: Bytes, value: Bytes, rest: Bytes)
    requires ':' !in key && ':' !in number && ParseInt(number) == Some(|value|)
    ensures TakeField(key + ":" + (number + ":" + (value + "," + rest))) == Some(Field(key, value, rest))
  {
    hide ParseInt, Slice;
    var data2 := value + "," + rest;
    var data1 := number + [':'] + data2;
    var data := key + [':'] + data1;
    IndexOfAfter(key, ':', data1);
    assert data[|key| + 1..] == data1 && data[..|key|] == key;
    IndexOfAfter(number, ':', data2);
    assert data1[..|number|] == number && data1[|number| + 1..] == data2;
    SliceParts(value, rest);
  }

  /** Nothing else is taken: a key, a number that is not negative, that many bytes and a comma, with colons between. */
  lemma TakenField(data: Bytes) returns (number: Bytes)
    requires TakeField(data).Some?
    ensures ':' !in TakeField(data).value.key && ':' !in number && ParseInt(number).Some?
    ensures ParseInt(number).value >= 0 ==>
      var f := TakeField(data).value;
      |f.value| == ParseInt(number).value && data == f.key + ":" + (number + ":" + (f.value + "," + f.rest))
  {
    hide ParseInt, Slice;
    CutAtColon(data);
    var colon := IndexOf(data, ':').value;
    var data1 := data[colon + 1..];
    CutAtColon(data1);
    var colon1 := IndexOf(data1, ':').value;
    number := data1[..colon1];
    var data2 := data1[colon1 + 1..];
    if ParseInt(number).value >= 0 {
      SliceFits(data2, ParseInt(number).value);
      JoinField(data[..colon], number, data2);
    }
  }

  lemma CutAtColon(s: Bytes)
    requires IndexOf(s, ':').Some?
    ensures var colon := IndexOf(s, ':').value; ':' !in s[..colon] && s == s[..colon] + (":" + s[colon + 1..])
  {
    hide IndexOf;
    var colon := IndexOf(s, ':').value;
    assert s == s[..colon] + ([s[colon]] + s[colon + 1..]);
  }

  lemma JoinField(key: Bytes, number: Bytes, data2: Bytes)
    ensures key + (":" + (number + (":" + data2))) == key + ":" + (number + ":" + data2)
  {
  }

  lemma SliceFits(s: Bytes, n: nat)
    requires Slice(s, n, n + 1) == ","
    ensures |Slice(s, 0, n)| == n && s == Slice(s, 0, n) + "," + Slice(s, n + 1, |s|)
  {
    assert n < |s| && s[n] == ',';
  }

  lemma Regroup(key: Bytes, number: Bytes, value: Bytes, rest: Bytes)
    ensures key + ":" + (number + ":" + value + ",") + rest == key + ":" + (number + ":" + (value + "," + rest))
  {
  }

  lemma TakePiece(k: string, v: Value, rest: Bytes)
    requires LegalKey(k)
    ensures TakeField(Piece(k, v) + rest) == Some(Field(k, Rendered(v), rest))
  {
    var value := Rendered(v);
    LegalKeyNoColon(k);
    ParseIntDecimal(|value|);
    TakeFieldParts(k, Decimal(|value|), value, rest);
    Regroup(k, Decimal(|value|), value, rest);
  }

  lemma SliceParts(value: Bytes, rest: Bytes)
    ensures
      var s := value + "," + rest;
      && Slice(s, 0, |value|) == value
      && Slice(s, |value|, |value| + 1) == ","
      && Slice(s, |value| + 1, |s|) == rest
  {
  }

  lemma {:induction false} ParsePieces(decode: Decoder, d: map<string, Value>, names: seq<string>, acc: map<string, Bytes>)
    requires DecodesKeys(decode)
    requires forall k :: k in names ==> k in d && LegalKey(k)
    ensures ParseFields(decode, Pieces(d, names), acc) ==
      Some(acc + map k | k in names :: Rendered(d[k]))
    decreases |names|
  {
    if names == [] {
      assert acc + map[] == acc;
    } else {
      var k := names[0];
      var rest := Pieces(d, names[1..]);
      TakePiece(k, d[k], rest);
      ParsePieces(decode, d, names[1..], acc[k := Rendered(d[k])]);
      MergeOne(d, names, acc);
    }
  }

  lemma MergeOne(d: map<string, Value>, names: seq<string>, acc: map<string, Bytes>)
    requires names != [] && forall k :: k in names ==> k in d
    ensures acc[names[0] := Rendered(d[names[0]])] + (map k | k in names[1..] :: Rendered(d[k]))
         == acc + map k | k in names :: Rendered(d[k])
  {
    assert names == [names[0]] + names[1..];
  }

  lemma RoundTripWith(intKeys: seq<string>, decode: Decoder, d: map<string, Value>)
    requires DecodesKeys(decode) && AllLegal(d.Keys)
    ensures UnpackedWith(intKeys, decode, Pieces(d, SortedNames(d.Keys))) ==
      if NumbersParse(intKeys, AllRendered(d)) then Some(Typed(intKeys, AllRendered(d))) else None
  {
    hide Pieces, ParseFields, ParseInt, NumbersParse, Typed, AllRendered, LegalKey;
    var names := SortedNames(d.Keys);
    ParsePieces(decode, d, names, map[]);
    AllPicked(d, names);
  }

  lemma AllPicked(d: map<string, Value>, names: seq<string>)
    requires forall k :: k in names <==> k in d
    ensures map[] + (map k | k in names :: Rendered(d[k])) == AllRendered(d)
  {
    hide Rendered;
  }

  /**
   * Round trip: a dictionary with legal keys packs, and the block unpacks to the
   * same dictionary with numbers rendered in decimal and the five integer keys
   * read back as numbers. It fails to unpack exactly when one of those five keys
   * holds text that is not a number.
   */
  lemma RoundTrip(decode: Decoder, d: map<string, Value>)
    requires DecodesKeys(decode) && AllLegal(d.Keys)
    ensures Unpacked(decode, Pieces(d, SortedNames(d.Keys))) ==
      if NumbersParse(INT_KEYS, AllRendered(d)) then Some(Typed(INT_KEYS, AllRendered(d))) else None
  {
    RoundTripWith(INT_KEYS, decode, d);
  }

  /**
   * A dictionary that has numbers under "size", "segment_size", "num_segments",
   * "needed_shares" and "total_shares", where it has those keys, and byte strings
   * under all others comes back as it was.
   */
  lemma ExtensionComesBack(decode: Decoder, d: map<string, Value>)
    requires DecodesKeys(decode) && AllLegal(d.Keys)
    requires forall k :: k in d ==> (d[k].Number? <==> k in {"size", "segment_size", "num_segments", "needed_shares", "total_shares"})
    ensures Unpacked(decode, Pieces(d, SortedNames(d.Keys))) == Some(d)
  {
    hide Pieces, ParseFields, SortedNames, NumbersParse, Typed, AllRendered, LegalKey;
    RoundTrip(decode, d);
    IntegerKeys();
    NumbersSurvive(INT_KEYS, d);
  }

  lemma IntegerKeys()
    ensures forall k :: k in INT_KEYS <==> k in {"size", "segment_size", "num_segments", "needed_shares", "total_shares"}
  {
    assert INT_KEYS[0] == "size" && INT_KEYS[1] == "segment_size" && INT_KEYS[2] == "num_segments"
        && INT_KEYS[3] == "needed_shares" && INT_KEYS[4] == "total_shares";
  }

  /** A block that packs and cannot be unpacked: a size that is no number. */
  lemma SizeThatIsNoNumber(decode: Decoder)
    requires DecodesKeys(decode)
    ensures var d := map["size" := Text("abc")];
      AllLegal(d.Keys) && Unpacked(decode, Pieces(d, SortedNames(d.Keys))) == None
  {
    hide Pieces, ParseFields, SortedNames;
    var d := map["size" := Text("abc")];
    assert AllRendered(d)["size"] == "abc";
    assert INT_KEYS[0] == "size";
    assert !IsDigit('c');
    RoundTrip(decode, d);
  }

  /** Numbers under the integer keys and text under all others come back unchanged. */
  lemma NumbersSurvive(intKeys: seq<string>, d: map<string, Value>)
    requires forall k :: k in d ==> (d[k].Number? <==> k in intKeys)
    ensures NumbersParse(intKeys, AllRendered(d))
    ensures Typed(intKeys, AllRendered(d)) == d
  {
    forall k | k in d && k in intKeys
      ensures ParseInt(AllRendered(d)[k]) == Some(d[k].n)
    {
      ParseIntDecimal(d[k].n);
    }
  }
}
