/** Base32 of section 6 of RFC 4648 without padding, lower-cased by the writer and read in either case. */
module Base32 {
  import opened Common

  type quintet = q: int | 0 <= q < 32

  function Pad<T>(s: seq<T>, n: nat, zero: T): (r: seq<T>)
    requires |s| <= n
    ensures |r| == n && s <= r
  {
    s + seq(n - |s|, _ => zero)
  }

  // Bits that two neighbouring bytes give to a group, and two or three neighbouring groups to a byte.
  // The shifts of the byte arithmetic drop what does not fit.

  function High(b: byte): quintet { b / 8 }
  function Join3And2(a: byte, b: byte): quintet { var x, y := a % 8, b / 64; x * 4 + y }
  function Middle(b: byte): quintet { b / 2 % 32 }
  function Join1And4(a: byte, b: byte): quintet { var x, y := a % 2, b / 16; x * 16 + y }
  function Join4And1(a: byte, b: byte): quintet { var x, y := a % 16, b / 128; x * 2 + y }
  function LowMiddle(b: byte): quintet { b / 4 % 32 }
  function Join2And3(a: byte, b: byte): quintet { var x, y := a % 4, b / 32; x * 8 + y }
  function Low(b: byte): quintet { b % 32 }

  function Byte0(q0: quintet, q1: quintet): byte { var x: int, y: int := q0, q1 / 4; x * 8 + y }
  function Byte1(q1: quintet, q2: quintet, q3: quintet): byte {
    var x: int, y: int, z: int := q1 % 4, q2, q3 / 16; x * 64 + y * 2 + z
  }
  function Byte2(q3: quintet, q4: quintet): byte { var x: int, y: int := q3 % 16, q4 / 2; x * 16 + y }
  function Byte3(q4: quintet, q5: quintet, q6: quintet): byte {
    var x: int, y: int, z: int := q4 % 2, q5, q6 / 8; x * 128 + y * 4 + z
  }
  function Byte4(q6: quintet, q7: quintet): byte { var x: int, y: int := q6 % 8, q7; x * 32 + y }

  /** Five bytes as eight groups of five bits. */
  function Quintets(b: seq<byte>): (q: seq<quintet>)
    requires |b| == 5
    ensures |q| == 8
  {
    [High(b[0]), Join3And2(b[0], b[1]), Middle(b[1]), Join1And4(b[1], b[2]),
     Join4And1(b[2], b[3]), LowMiddle(b[3]), Join2And3(b[3], b[4]), Low(b[4])]
  }

  /** Eight groups of five bits as five bytes. */
  function Bytes(q: seq<quintet>): (b: seq<byte>)
    requires |q| == 8
    ensures |b| == 5
  {
    [Byte0(q[0], q[1]), Byte1(q[1], q[2], q[3]), Byte2(q[3], q[4]), Byte3(q[4], q[5], q[6]), Byte4(q[6], q[7])]
  }

  lemma FirstByte(b0: byte, b1: byte)
    ensures Byte0(High(b0), Join3And2(b0, b1)) == b0
  {
    assert Join3And2(b0, b1) / 4 == b0 % 8;
  }

  lemma SecondByte(b0: byte, b1: byte, b2: byte)
    ensures Byte1(Join3And2(b0, b1), Middle(b1), Join1And4(b1, b2)) == b1
  {
    assert Join3And2(b0, b1) % 4 == b1 / 64;
    assert Join1And4(b1, b2) / 16 == b1 % 2;
    assert Middle(b1) == b1 / 2 - b1 / 64 * 32;
  }

  lemma ThirdByte(b1: byte, b2: byte, b3: byte)
    ensures Byte2(Join1And4(b1, b2), Join4And1(b2, b3)) == b2
  {
    assert Join1And4(b1, b2) % 16 == b2 / 16;
    assert Join4And1(b2, b3) / 2 == b2 % 16;
  }

  lemma FourthByte(b2: byte, b3: byte, b4: byte)
    ensures Byte3(Join4And1(b2, b3), LowMiddle(b3), Join2And3(b3, b4)) == b3
  {
    assert Join4And1(b2, b3) % 2 == b3 / 128;
    assert Join2And3(b3, b4) / 8 == b3 % 4;
    assert LowMiddle(b3) == b3 / 4 - b3 / 128 * 32;
  }

  lemma FifthByte(b3: byte, b4: byte)
    ensures Byte4(Join2And3(b3, b4), Low(b4)) == b4
  {
    assert Join2And3(b3, b4) % 8 == b4 / 32;
  }

  lemma GroupRoundTrip(b: seq<byte>)
    requires |b| == 5
    ensures Bytes(Quintets(b)) == b
  {
    FirstByte(b[0], b[1]);
    SecondByte(b[0], b[1], b[2]);
    ThirdByte(b[1], b[2], b[3]);
    FourthByte(b[2], b[3], b[4]);
    FifthByte(b[3], b[4]);
  }

  function Letter(q: quintet): char {
    if q < 26 then 'a' + q as char else '2' + (q - 26) as char
  }

  function Value(c: char): Option<quintet> {
    if 'a' <= c <= 'z' then Some((c - 'a') as int)
    else if 'A' <= c <= 'Z' then Some((c - 'A') as int)
    else if '2' <= c <= '7' then Some(26 + (c - '2') as int)
    else None
  }

  function Letters(q: seq<quintet>): (s: string)
    ensures |s| == |q| && forall i :: 0 <= i < |s| ==> s[i] == Letter(q[i])
  {
    seq(|q|, i requires 0 <= i < |q| => Letter(q[i]))
  }

  function Values(s: string): Option<seq<quintet>> {
    if s == [] then Some([])
    else
      match (Value(s[0]), Values(s[1..]))
      case (Some(q), Some(rest)) => Some([q] + rest)
      case _ => None
  }

  /** `base32::encode` followed by `to_lowercase`, as groups of five bits. */
  function EncodeBits(b: seq<byte>): seq<quintet> {
    if |b| >= 5 then Quintets(b[..5]) + EncodeBits(b[5..])
    else Quintets(Pad(b, 5, 0))[..(|b| * 8 + 4) / 5]
  }

  function DecodeBits(q: seq<quintet>): (b: seq<byte>)
    ensures |b| == |q| * 5 / 8
  {
    if |q| >= 8 then Bytes(q[..8]) + DecodeBits(q[8..])
    else Bytes(Pad(q, 8, 0))[..|q| * 5 / 8]
  }

  function Encode(b: seq<byte>): string {
    Letters(EncodeBits(b))
  }

  function Decode(s: string): Option<seq<byte>> {
    match Values(s)
    case None => None
    case Some(q) => Some(DecodeBits(q))
  }

  // ----- the groups are the bits in order -----

  /** A byte cut at a bit. */
  lemma ByteParts(b: byte)
    ensures b == 8 * High(b) + b % 8 && b == 64 * (b / 64) + 2 * Middle(b) + b % 2
    ensures b == 16 * (b / 16) + b % 16 && b == 128 * (b / 128) + 4 * LowMiddle(b) + b % 4
    ensures b == 32 * (b / 32) + Low(b)
  {
    assert b / 2 % 32 == b / 2 - b / 64 * 32;
    assert b / 4 % 32 == b / 4 - b / 128 * 32;
  }

  /** Eight groups, read as one number, are the five bytes. */
  lemma GroupIsNumber(b: seq<byte>)
    requires |b| == 5
    ensures var q: seq<int>, b: seq<int> := Quintets(b), b;
            (((((((q[0] * 32 + q[1]) * 32 + q[2]) * 32 + q[3]) * 32 + q[4]) * 32 + q[5]) * 32 + q[6]) * 32 + q[7])
            == ((((b[0] * 256 + b[1]) * 256 + b[2]) * 256 + b[3]) * 256 + b[4])
  {
    ByteParts(b[0]);
    ByteParts(b[1]);
    ByteParts(b[2]);
    ByteParts(b[3]);
    ByteParts(b[4]);
  }

  /** The alphabet of section 6 of RFC 4648, lower-cased. */
  const ALPHABET := "abcdefghijklmnopqrstuvwxyz234567"

  lemma LettersAreTheAlphabet(q: quintet)
    ensures |ALPHABET| == 32 && Letter(q) == ALPHABET[q]
  {
  }

  /** The groups of a short block beyond its own bits are zero. */
  lemma ShortGroupEndsInZeroes(b: seq<byte>)
    requires |b| < 5
    ensures var q, m := Quintets(Pad(b, 5, 0)), (|b| * 8 + 4) / 5;
            m <= 8 && m * 5 / 8 == |b| && Pad(q[..m], 8, 0) == q
  {
    var q, m := Quintets(Pad(b, 5, 0)), (|b| * 8 + 4) / 5;
    forall i | m <= i < 8 ensures q[i] == 0 {}
  }

  /** A short block loses only zero bits. */
  lemma ShortGroupRoundTrip(b: seq<byte>)
    requires |b| < 5
    ensures DecodeBits(EncodeBits(b)) == b
  {
    ShortGroupEndsInZeroes(b);
    GroupRoundTrip(Pad(b, 5, 0));
  }

  lemma {:induction false} BitsRoundTrip(b: seq<byte>)
    ensures DecodeBits(EncodeBits(b)) == b
  {
    if |b| < 5 {
      ShortGroupRoundTrip(b);
    } else {
      var q, rest := Quintets(b[..5]), EncodeBits(b[5..]);
      assert (q + rest)[..8] == q && (q + rest)[8..] == rest;
      GroupRoundTrip(b[..5]);
      BitsRoundTrip(b[5..]);
      assert b[..5] + b[5..] == b;
    }
  }

  lemma {:induction false} ValuesOfLetters(q: seq<quintet>)
    ensures Values(Letters(q)) == Some(q)
  {
    if q != [] {
      assert Letters(q)[1..] == Letters(q[1..]);
      ValuesOfLetters(q[1..]);
      assert Value(Letter(q[0])) == Some(q[0]);
      assert [q[0]] + q[1..] == q;
    }
  }

  /** Decoding an encoding gives the bytes back, for every length. */
  lemma RoundTrip(b: seq<byte>)
    ensures Decode(Encode(b)) == Some(b)
    ensures forall c <- Encode(b) :: Value(c).Some?
  {
    ValuesOfLetters(EncodeBits(b));
    BitsRoundTrip(b);
  }

  lemma {:induction false} ValuesLength(s: string)
    requires Values(s).Some?
    ensures |Values(s).value| == |s|
  {
    if s != [] { ValuesLength(s[1..]); }
  }

  /** A decoding is shorter than its text. */
  lemma DecodeLength(s: string)
    requires Decode(s).Some?
    ensures |Decode(s).value| == |s| * 5 / 8
  {
    ValuesLength(s);
  }
}

/** The npm cache layout of `crates/npm/cache_dir.rs`: from package ids to folders and back. Paths are
    below the registry folder; names are ASCII. */
module NpmCache {
  import opened Common
  import opened Lexical
  import Base32
  import Decimal

  /** `V` is the type of versions. */
  datatype FolderId<V> = FolderId(name: string, version: V, copyIndex: nat)

  datatype Versions<!V> = Versions(show: V -> string, parse: string -> Option<V>)

  // ----- splitting and joining at slashes -----

  function Join(parts: seq<string>): string {
    if parts == [] then ""
    else if |parts| == 1 then parts[0]
    else parts[0] + "/" + Join(parts[1..])
  }

  lemma {:induction false} JoinIsText(parts: seq<string>)
    requires parts != []
    ensures Join(parts) == parts[0] + PathText(parts[1..])
  {
    if |parts| > 1 {
      var rest := parts[1..];
      JoinIsText(rest);
      assert parts[0] + "/" + (rest[0] + PathText(rest[1..])) == parts[0] + ("/" + rest[0] + PathText(rest[1..]));
    }
  }

  lemma SplitIsSlashFree(s: string)
    ensures Slashless(Split(s)) && Join(Split(s)) == s
  {
    SplitIsSlashless(s);
    SplitText(s);
    JoinIsText(Split(s));
  }

  /** Slash-free parts after a joined text are split off unchanged. */
  lemma SplitOfJoin(first: string, rest: seq<string>)
    requires Slashless(rest)
    ensures Split(Join([first] + rest)) == Split(first) + rest
  {
    JoinIsText([first] + rest);
    assert ([first] + rest)[1..] == rest;
    SplitWithPath(first, rest);
  }

  lemma JoinFirst(first: string, rest: seq<string>)
    ensures Join([first] + rest) == if rest == [] then first else first + "/" + Join(rest)
  {
    assert ([first] + rest)[1..] == rest;
  }

  // ----- names -----

  predicate Ascii(s: string) {
    forall c <- s :: c as int < 128
  }

  function LowerChar(c: char): char {
    if 'A' <= c <= 'Z' then c + 32 as char else c
  }

  function Lower(s: string): (r: string)
    ensures |r| == |s| && forall i :: 0 <= i < |s| ==> r[i] == LowerChar(s[i])
  {
    seq(|s|, i requires 0 <= i < |s| => LowerChar(s[i]))
  }

  function ToBytes(s: string): (b: seq<byte>)
    requires Ascii(s)
    ensures |b| == |s| && forall i :: 0 <= i < |s| ==> b[i] == s[i] as int
  {
    seq(|s|, i requires 0 <= i < |s| => assert s[i] in s; ByteOf(s[i]))
  }

  function ByteOf(c: char): byte
    requires c as int < 128
  {
    c as int
  }

  /** `String::from_utf8`, on ASCII. */
  function FromBytes(b: seq<byte>): (r: Option<string>)
    ensures r.Some? ==> |r.value| == |b|
  {
    if forall i :: 0 <= i < |b| ==> b[i] < 128
    then Some(seq(|b|, i requires 0 <= i < |b| => b[i] as char))
    else None
  }

  /** `mixed_case_package_name_encode` and its inverse. */
  function EncodeName(name: string): string
    requires Ascii(name)
  {
    Base32.Encode(ToBytes(name))
  }

  function DecodeName(s: string): Option<string> {
    match Base32.Decode(s)
    case None => None
    case Some(b) => FromBytes(b)
  }

  lemma BytesRoundTrip(s: string)
    requires Ascii(s)
    ensures FromBytes(ToBytes(s)) == Some(s)
  {
    var b := ToBytes(s);
    forall i | 0 <= i < |b| ensures b[i] < 128 && b[i] as char == s[i] { assert s[i] in s; }
    assert FromBytes(b).value == s;
  }

  lemma {:induction false} NameRoundTrip(name: string)
    requires Ascii(name)
    ensures DecodeName(EncodeName(name)) == Some(name)
    ensures '/' !in EncodeName(name)
  {
    Base32.RoundTrip(ToBytes(name));
    BytesRoundTrip(name);
    assert Base32.Value('/').None?;
  }

  /** A package name: unscoped without slashes, or `@scope/name`; not starting with an underscore or a dot. */
  predicate ValidName(name: string) {
    && name != [] && Ascii(name) && name[0] != '_' && name[0] != '.'
    && (if name[0] == '@' then |Split(name)| == 2 else '/' !in name)
  }

  ghost predicate ValidVersion<V>(vs: Versions<V>, v: V) {
    vs.parse(vs.show(v)) == Some(v) && '_' !in vs.show(v) && '/' !in vs.show(v)
  }

  ghost predicate ValidId<V>(vs: Versions<V>, id: FolderId<V>) {
    ValidName(id.name) && ValidVersion(vs, id.version) && id.copyIndex < 256
  }

  // ----- from ids to folders -----

  /** `package_name_folder`, as path components below the registry folder. */
  function NameFolder(name: string): seq<string>
    requires Ascii(name)
  {
    if Lower(name) != name then ["_" + EncodeName(name)] else Split(name)
  }

  /** The last component of `package_folder_for_id`. */
  function VersionFolder<V>(vs: Versions<V>, id: FolderId<V>): string {
    if id.copyIndex == 0 then vs.show(id.version)
    else vs.show(id.version) + "_" + Decimal.Print(id.copyIndex)
  }

  function PackageFolder<V>(vs: Versions<V>, id: FolderId<V>): seq<string>
    requires Ascii(id.name)
  {
    NameFolder(id.name) + [VersionFolder(vs, id)]
  }

  // ----- and back -----

  /** `u8::from_str`: an optional plus sign, digits, and at most 255. */
  function ParseU8(s: string): Option<nat> {
    var digits := if s != [] && s[0] == '+' then s[1..] else s;
    match Decimal.Parse(digits)
    case None => None
    case Some(n) => if n < 256 then Some(n) else None
  }

  /** `split_once('_')`. */
  function SplitOnce(s: string): Option<(string, string)> {
    if s == [] then None
    else if s[0] == '_' then Some(([], s[1..]))
    else
      match SplitOnce(s[1..])
      case None => None
      case Some((a, b)) => Some(([s[0]] + a, b))
  }

  function ParseVersionPart<V>(vs: Versions<V>, name: string, part: string): Option<FolderId<V>> {
    match SplitOnce(part)
    case None =>
      (match vs.parse(part)
       case None => None
       case Some(v) => Some(FolderId(name, v, 0)))
    case Some((version, copy)) =>
      match (ParseU8(copy), vs.parse(version))
      case (Some(n), Some(v)) => Some(FolderId(name, v, n))
      case _ => None
  }

  /** The relative URL with a base32-encoded first component decoded. */
  function DecodeFirst(relative: string): Option<string> {
    if relative != [] && relative[0] == '_' then
      var parts := Split(relative[1..]);
      match DecodeName(parts[0])
      case None => None
      case Some(name) => Some(Join([name] + parts[1..]))
    else Some(relative)
  }

  function ParseDecoded<V>(vs: Versions<V>, relative: string): Option<FolderId<V>> {
    var wanted := if relative != [] && relative[0] == '@' then 3 else 2;
    var parts := Take(Split(relative), wanted);
    if |parts| < 2 then None
    else ParseVersionPart(vs, Join(parts[..|parts| - 1]), parts[|parts| - 1])
  }

  function Take<T>(s: seq<T>, n: nat): seq<T> {
    if |s| <= n then s else s[..n]
  }

  /** `resolve_package_folder_id_from_specifier`, given the URL relative to the registry folder. */
  function ParseRelative<V>(vs: Versions<V>, relative: string): Option<FolderId<V>> {
    if "../" <= relative then None
    else
      match DecodeFirst(relative)
      case None => None
      case Some(decoded) => ParseDecoded(vs, decoded)
  }

  /** The same, rewriting its local values step by step as the source does. */
  method ResolveFolderId<V>(vs: Versions<V>, specifier: string) returns (r: Option<FolderId<V>>)
    ensures r == ParseRelative(vs, specifier)
  {
    var relativeUrl := specifier;
    if "../" <= relativeUrl { return None; }
    if relativeUrl != [] && relativeUrl[0] == '_' {
      var parts := Split(relativeUrl[1..]);
      var name := DecodeName(parts[0]);
      if name.None? { return None; }
      assert parts[0 := name.value] == [name.value] + parts[1..];
      parts := parts[0 := name.value];
      relativeUrl := Join(parts);
    }
    var isScopedPackage := relativeUrl != [] && relativeUrl[0] == '@';
    var parts := Take(Split(relativeUrl), if isScopedPackage then 3 else 2);
    if |parts| < 2 { return None; }
    var versionPart := parts[|parts| - 1];
    parts := parts[..|parts| - 1];
    return ParseVersionPart(vs, Join(parts), versionPart);
  }

  // ----- the round trip -----

  lemma {:induction false} SplitOnceAfter(a: string, b: string)
    requires '_' !in a
    ensures SplitOnce(a + "_" + b) == Some((a, b))
    ensures SplitOnce(a) == None
  {
    var s := a + "_" + b;
    if a == [] {
      assert s[1..] == b;
    } else {
      assert s[1..] == a[1..] + "_" + b && s[0] == a[0] && a[0] in a;
      SplitOnceAfter(a[1..], b);
      assert [a[0]] + a[1..] == a;
    }
  }

  lemma VersionPartRoundTrip<V>(vs: Versions<V>, id: FolderId<V>)
    requires ValidVersion(vs, id.version) && id.copyIndex < 256
    ensures ParseVersionPart(vs, id.name, VersionFolder(vs, id)) == Some(id)
    ensures '/' !in VersionFolder(vs, id) && ('_' in VersionFolder(vs, id) <==> id.copyIndex != 0)
  {
    var digits := Decimal.Print(id.copyIndex);
    Decimal.ParsePrint(id.copyIndex);
    SplitOnceAfter(vs.show(id.version), digits);
    assert digits[0] in digits;
  }

  /** A name, a version component and anything below it, all in one text, is read as that id. */
  lemma DecodedRoundTrip<V>(vs: Versions<V>, id: FolderId<V>, below: seq<string>)
    requires ValidId(vs, id) && Slashless(below)
    ensures ParseDecoded(vs, Join([id.name] + ([VersionFolder(vs, id)] + below))) == Some(id)
  {
    var rest := [VersionFolder(vs, id)] + below;
    VersionPartRoundTrip(vs, id);
    ComponentsBelow(vs, id, below);
    var text := Join([id.name] + rest);
    SplitOfJoin(id.name, rest);
    JoinFirst(id.name, rest);
    assert text[0] == id.name[0];
    SplitIsSlashFree(id.name);
    var names := Split(id.name);
    assert |names| == if id.name[0] == '@' then 2 else 1;
    var parts := Take(names + rest, |names| + 1);
    assert parts == names + [rest[0]];
    assert parts[..|parts| - 1] == names;
  }

  lemma ComponentsBelow<V>(vs: Versions<V>, id: FolderId<V>, below: seq<string>)
    requires ValidVersion(vs, id.version) && id.copyIndex < 256 && Slashless(below)
    ensures Slashless([VersionFolder(vs, id)] + below)
  {
    VersionPartRoundTrip(vs, id);
  }

  lemma UnderscoreJoin(code: string, rest: seq<string>)
    ensures Join(["_" + code] + rest) == "_" + Join([code] + rest)
  {
    JoinFirst("_" + code, rest);
    JoinFirst(code, rest);
    if rest != [] { assert "_" + code + "/" + Join(rest) == "_" + (code + "/" + Join(rest)); }
  }

  /** A text whose first component starts with an underscore, split after it. */
  lemma {:induction false} UnderscoreText(code: string, rest: seq<string>)
    requires '/' !in code && Slashless(rest)
    ensures var text := Join(["_" + code] + rest);
            text != [] && text[0] == '_' && !("../" <= text) && Split(text[1..]) == [code] + rest
  {
    var text := Join(["_" + code] + rest);
    UnderscoreJoin(code, rest);
    assert text[1..] == Join([code] + rest);
    SplitOfJoin(code, rest);
    SplitPlain(code);
    assert "../"[0] != '_';
  }

  lemma {:induction false} EncodedFolder<V>(vs: Versions<V>, id: FolderId<V>, below: seq<string>)
    requires ValidId(vs, id) && Slashless(below) && Lower(id.name) != id.name
    ensures ParseRelative(vs, Join(PackageFolder(vs, id) + below)) == Some(id)
  {
    var rest := [VersionFolder(vs, id)] + below;
    NameRoundTrip(id.name);
    ComponentsBelow(vs, id, below);
    assert PackageFolder(vs, id) + below == ["_" + EncodeName(id.name)] + rest;
    UnderscoreText(EncodeName(id.name), rest);
    assert ([EncodeName(id.name)] + rest)[1..] == rest;
    DecodedRoundTrip(vs, id, below);
  }

  lemma {:induction false} JoinConcat(a: seq<string>, b: seq<string>)
    requires a != [] && b != []
    ensures Join(a + b) == Join(a) + "/" + Join(b)
  {
    if |a| == 1 {
      assert a + b == [a[0]] + b;
      JoinFirst(a[0], b);
    } else {
      assert (a + b)[1..] == a[1..] + b && (a + b)[0] == a[0];
      JoinConcat(a[1..], b);
      assert Join(a + b) == a[0] + "/" + (Join(a[1..]) + "/" + Join(b));
      assert Join(a) + "/" + Join(b) == a[0] + "/" + Join(a[1..]) + "/" + Join(b);
    }
  }

  lemma PlainFolder<V>(vs: Versions<V>, id: FolderId<V>, below: seq<string>)
    requires ValidId(vs, id) && Slashless(below) && Lower(id.name) == id.name
    ensures ParseRelative(vs, Join(PackageFolder(vs, id) + below)) == Some(id)
  {
    var rest := [VersionFolder(vs, id)] + below;
    SplitIsSlashFree(id.name);
    assert PackageFolder(vs, id) + below == Split(id.name) + rest;
    JoinConcat(Split(id.name), rest);
    JoinFirst(id.name, rest);
    var text := Join(PackageFolder(vs, id) + below);
    assert text == Join([id.name] + rest) && text[0] == id.name[0];
    assert "../"[0] == '.';
    DecodedRoundTrip(vs, id, below);
  }

  /** Any URL at or below the folder of a package id is read back as that id: scoped or not, lower-case
      or mixed-case, with any copy index. */
  lemma FolderRoundTrip<V>(vs: Versions<V>, id: FolderId<V>, below: seq<string>)
    requires ValidId(vs, id) && Slashless(below)
    ensures ParseRelative(vs, Join(PackageFolder(vs, id) + below)) == Some(id)
  {
    if Lower(id.name) == id.name { PlainFolder(vs, id, below); } else { EncodedFolder(vs, id, below); }
  }

  /** Distinct ids have distinct folders, and neither folder lies in the other. */
  lemma FoldersAreDistinct<V>(vs: Versions<V>, id: FolderId<V>, id': FolderId<V>)
    requires ValidId(vs, id) && ValidId(vs, id') && id != id'
    ensures !(PackageFolder(vs, id) <= PackageFolder(vs, id'))
  {
    if PackageFolder(vs, id) <= PackageFolder(vs, id') {
      var below := PackageFolder(vs, id')[|PackageFolder(vs, id)|..];
      assert PackageFolder(vs, id) + below == PackageFolder(vs, id') + [];
      FolderIsSlashFree(vs, id');
      FolderRoundTrip(vs, id, below);
      FolderRoundTrip(vs, id', []);
    }
  }

  lemma FolderIsSlashFree<V>(vs: Versions<V>, id: FolderId<V>)
    requires ValidId(vs, id)
    ensures Slashless(PackageFolder(vs, id))
  {
    VersionPartRoundTrip(vs, id);
    if Lower(id.name) == id.name { SplitIsSlashFree(id.name); } else { NameRoundTrip(id.name); }
  }

  /** For a lower-case name without slashes, the folder is read back exactly when the name does not
      start with an underscore. */
  lemma UnderscoreIff<V>(vs: Versions<V>, id: FolderId<V>, below: seq<string>)
    requires id.name != [] && Ascii(id.name) && '/' !in id.name && id.name[0] != '.' && id.name[0] != '@'
    requires Lower(id.name) == id.name && ValidVersion(vs, id.version) && id.copyIndex < 256 && Slashless(below)
    ensures ParseRelative(vs, Join(PackageFolder(vs, id) + below)) == Some(id) <==> id.name[0] != '_'
  {
    if id.name[0] != '_' {
      FolderRoundTrip(vs, id, below);
    } else {
      var code, rest := id.name[1..], [VersionFolder(vs, id)] + below;
      ComponentsBelow(vs, id, below);
      SplitPlain(id.name);
      assert "_" + code == id.name;
      assert PackageFolder(vs, id) + below == ["_" + code] + rest;
      UnderscoreText(code, rest);
      assert ([code] + rest)[1..] == rest;
      if DecodeName(code).Some? {
        Base32.DecodeLength(code);
        ReadNameIsShort(vs, DecodeName(code).value, rest);
      }
    }
  }

  /** What is read from a text that starts with `name` is `name` or shorter, unless it is scoped. */
  lemma ReadNameIsShort<V>(vs: Versions<V>, name: string, rest: seq<string>)
    requires rest != [] && Slashless(rest)
    ensures var r := ParseDecoded(vs, Join([name] + rest));
            r.Some? ==> |r.value.name| <= |name| || (r.value.name != [] && r.value.name[0] == '@')
  {
    var text := Join([name] + rest);
    SplitOfJoin(name, rest);
    JoinFirst(name, rest);
    SplitIsSlashFree(name);
    SplitIsSlashFree(text);
    var parts := Split(text);
    assert parts[0] == Split(name)[0] && |parts[0]| <= |name|;
    if text != [] && text[0] == '@' {
      assert parts[0] != [] && parts[0][0] == '@';
    }
  }

  // ----- file systems that ignore case -----

  lemma EncodedIsLower(b: seq<byte>)
    ensures Lower(Base32.Encode(b)) == Base32.Encode(b)
  {
  }

  /** Name folders are lower-case, and that of a lower-case name is the name itself. */
  lemma NameFolderIsLower(name: string)
    requires Ascii(name)
    ensures forall seg <- NameFolder(name) :: Lower(seg) == seg
    ensures Lower(name) == name ==> Join(NameFolder(name)) == name
    ensures Lower(name) != name ==> NameFolder(name) == ["_" + EncodeName(name)]
  {
    if Lower(name) == name {
      SplitIsSlashFree(name);
      SplitIsLower(name);
    } else {
      EncodedIsLower(ToBytes(name));
      assert forall i | 0 <= i < |"_" + EncodeName(name)| - 1 :: ("_" + EncodeName(name))[i + 1] == EncodeName(name)[i];
    }
  }

  lemma {:induction false} SplitIsLower(s: string)
    requires Lower(s) == s
    ensures forall seg <- Split(s) :: Lower(seg) == seg
  {
    if s != [] {
      assert Lower(s[1..]) == s[1..];
      SplitIsLower(s[1..]);
      var r := Split(s[1..]);
      assert r[0] in r && LowerChar(s[0]) == s[0];
      assert Lower([s[0]] + r[0]) == [s[0]] + r[0];
    }
  }

  ghost predicate SameIgnoringCase(a: seq<string>, b: seq<string>) {
    |a| == |b| && forall i | 0 <= i < |a| :: Lower(a[i]) == Lower(b[i])
  }

  /** Why names are encoded: different names have different folders even where case is ignored. */
  lemma DistinctIgnoringCase(a: string, b: string)
    requires ValidName(a) && ValidName(b) && a != b
    ensures !SameIgnoringCase(NameFolder(a), NameFolder(b))
  {
    NameFolderIsLower(a);
    NameFolderIsLower(b);
    if SameIgnoringCase(NameFolder(a), NameFolder(b)) {
      assert NameFolder(a) == NameFolder(b);
      if Lower(a) != a && Lower(b) != b {
        assert EncodeName(a) == ("_" + EncodeName(a))[1..] == ("_" + EncodeName(b))[1..] == EncodeName(b);
        NameRoundTrip(a);
        NameRoundTrip(b);
      } else if Lower(a) == a && Lower(b) != b {
        FirstOfName(a);
      } else if Lower(b) == b && Lower(a) != a {
        FirstOfName(b);
      }
    }
  }

  lemma FirstOfName(name: string)
    requires ValidName(name)
    ensures Split(name)[0] != [] && Split(name)[0][0] == name[0]
  {
    assert name[0] in name;
  }

  // ----- what the reader accepts -----

  /** An 8-bit number in decimal digits, after a plus sign or not. */
  ghost predicate IsU8(text: string, n: nat) {
    n < 256 && exists digits :: (text == digits || text == "+" + digits) && Decimal.Parse(digits) == Some(n)
  }

  lemma {:induction false} NumeralsAreDigits(s: string)
    requires Decimal.Parse(s).Some?
    ensures s != [] && forall c <- s :: Decimal.IsDigit(c)
  {
    if |s| > 1 {
      NumeralsAreDigits(s[..|s| - 1]);
      assert s == s[..|s| - 1] + [s[|s| - 1]];
    }
  }

  lemma U8Iff(text: string, n: nat)
    ensures IsU8(text, n) <==> ParseU8(text) == Some(n)
  {
    if digits :| (text == digits || text == "+" + digits) && Decimal.Parse(digits) == Some(n) {
      NumeralsAreDigits(digits);
      assert digits[0] in digits;
      assert text == "+" + digits ==> text[1..] == digits;
    }
    if text != [] && text[0] == '+' { assert text == "+" + text[1..]; }
  }

  /** `a` is what stands before the first underscore, and `b` what follows it. */
  predicate IsCutAtUnderscore(s: string, a: string, b: string) {
    s == a + "_" + b && '_' !in a
  }

  /** A version, or a version, an underscore and a copy number. */
  ghost predicate IsVersionPart<V>(vs: Versions<V>, part: string, version: V, copyIndex: nat) {
    if '_' !in part then vs.parse(part) == Some(version) && copyIndex == 0
    else exists a, b :: IsCutAtUnderscore(part, a, b) && vs.parse(a) == Some(version) && IsU8(b, copyIndex)
  }

  lemma {:induction false} SplitOnceIs(s: string)
    ensures match SplitOnce(s)
            case None => '_' !in s
            case Some((a, b)) => IsCutAtUnderscore(s, a, b)
  {
    if s != [] && s[0] != '_' {
      SplitOnceIs(s[1..]);
      assert s == [s[0]] + s[1..];
    } else if s != [] {
      assert s == [] + "_" + s[1..];
    }
  }

  lemma VersionPartIff<V>(vs: Versions<V>, name: string, part: string, version: V, copyIndex: nat)
    ensures ParseVersionPart(vs, name, part) == Some(FolderId(name, version, copyIndex))
       <==> IsVersionPart(vs, part, version, copyIndex)
  {
    SplitOnceIs(part);
    match SplitOnce(part)
    case None =>
    case Some((a, b)) =>
      assert part[|a|] == '_';
      U8Iff(b, copyIndex);
      forall x, y | IsCutAtUnderscore(part, x, y) ensures x == a && y == b { SplitOnceAfter(x, y); }
  }

  /** Nothing, or something below a folder. */
  predicate IsBelow(rest: string) {
    rest == "" || rest[0] == '/'
  }

  /** The first component, `code`, and what follows it. */
  predicate IsCutAtSlash(text: string, code: string, rest: string) {
    text == code + rest && '/' !in code && IsBelow(rest)
  }

  /** The text with the code after a leading underscore replaced by the name it encodes. */
  ghost predicate IsDecoded(text: string, decoded: string) {
    if text != [] && text[0] == '_' then
      exists code, rest ::
        IsCutAtSlash(text[1..], code, rest) && DecodeName(code).Some? && decoded == DecodeName(code).value + rest
    else decoded == text
  }

  lemma FirstComponent(text: string, code: string, rest: string)
    requires IsCutAtSlash(text, code, rest)
    ensures code == Split(text)[0] && rest == PathText(Split(text)[1..])
  {
    SplitPlain(code);
    if rest == "" {
      assert text == code;
    } else {
      var later := rest[1..];
      assert text == code + "/" + later;
      SplitAtSlash(code, later);
      assert ([code] + Split(later))[1..] == Split(later);
      SplitIsInverse(later);
      assert rest == "/" + later;
    }
  }

  lemma ComponentsCut(text: string)
    ensures IsCutAtSlash(text, Split(text)[0], PathText(Split(text)[1..]))
  {
    var parts := Split(text);
    SplitText(text);
    SplitIsSlashless(text);
    assert parts[0] in parts;
  }

  lemma DecodedIff(text: string, decoded: string)
    ensures IsDecoded(text, decoded) <==> DecodeFirst(text) == Some(decoded)
  {
    if text != [] && text[0] == '_' {
      var parts := Split(text[1..]);
      ComponentsCut(text[1..]);
      forall code, rest | IsCutAtSlash(text[1..], code, rest)
        ensures code == parts[0] && rest == PathText(parts[1..])
      {
        FirstComponent(text[1..], code, rest);
      }
      if DecodeName(parts[0]).Some? {
        JoinIsText([DecodeName(parts[0]).value] + parts[1..]);
        assert ([DecodeName(parts[0]).value] + parts[1..])[1..] == parts[1..];
      }
    }
  }

  /** Name, slash, version part, and whatever is below. */
  predicate IsCut(decoded: string, name: string, part: string, below: string) {
    decoded == name + "/" + (part + below) && '/' !in part && IsBelow(below)
  }

  /** The name has one slash if the text is scoped, and otherwise none; a scoped text of two components only is
      read as if it were not scoped. */
  predicate HasNameShape(decoded: string, name: string, below: string) {
    if "@" <= decoded then |Split(name)| == 2 || (|Split(name)| == 1 && below == "") else |Split(name)| == 1
  }

  ghost predicate IsRead<V>(vs: Versions<V>, decoded: string, id: FolderId<V>) {
    exists part, below ::
      && IsCut(decoded, id.name, part, below) && HasNameShape(decoded, id.name, below)
      && IsVersionPart(vs, part, id.version, id.copyIndex)
  }

  lemma ComponentsOf(decoded: string, name: string, part: string, below: string)
    requires IsCut(decoded, name, part, below)
    ensures exists later :: Split(decoded) == Split(name) + ([part] + later) && (below == "" <==> later == [])
  {
    var text := part + below;
    SplitAtSlash(name, text);
    FirstComponent(text, part, below);
    var later := Split(text)[1..];
    assert Split(text) == [part] + later;
    assert Split(decoded) == Split(name) + ([part] + later);
  }

  lemma ReadIsParsed<V>(vs: Versions<V>, decoded: string, id: FolderId<V>, part: string, below: string)
    requires IsCut(decoded, id.name, part, below) && HasNameShape(decoded, id.name, below)
    requires IsVersionPart(vs, part, id.version, id.copyIndex)
    ensures ParseDecoded(vs, decoded) == Some(id)
  {
    ComponentsOf(decoded, id.name, part, below);
    var later :| Split(decoded) == Split(id.name) + ([part] + later) && (below == "" <==> later == []);
    var names := Split(id.name);
    var wanted := if decoded != [] && decoded[0] == '@' then 3 else 2;
    assert Take(Split(decoded), wanted) == names + [part];
    assert (names + [part])[..|names|] == names;
    SplitIsSlashFree(id.name);
    VersionPartIff(vs, id.name, part, id.version, id.copyIndex);
  }

  lemma ParsedIsRead<V>(vs: Versions<V>, decoded: string, id: FolderId<V>)
    requires ParseDecoded(vs, decoded) == Some(id)
    ensures IsRead(vs, decoded, id)
  {
    var all := Split(decoded);
    var n := |Take(all, if decoded != [] && decoded[0] == '@' then 3 else 2)| - 1;
    var names, part, later := all[..n], all[n], all[n + 1..];
    assert Take(all, n + 1)[..n] == names && all == names + ([part] + later);
    CutOfComponents(decoded, names, part, later);
    assert id == FolderId(Join(names), id.version, id.copyIndex);
    VersionPartIff(vs, id.name, part, id.version, id.copyIndex);
    assert HasNameShape(decoded, id.name, PathText(later));
  }

  lemma CutOfComponents(decoded: string, names: seq<string>, part: string, later: seq<string>)
    requires names != [] && Split(decoded) == names + ([part] + later)
    ensures IsCut(decoded, Join(names), part, PathText(later)) && Split(Join(names)) == names
    ensures PathText(later) == "" <==> later == []
  {
    var all := names + ([part] + later);
    SplitIsSlashFree(decoded);
    assert part in all && forall x <- names :: x in all;
    JoinConcat(names, [part] + later);
    JoinIsText([part] + later);
    assert ([part] + later)[1..] == later;
    assert Join(names) + "/" + (part + PathText(later)) == decoded;
    SplitOfNames(names);
  }

  lemma SplitOfNames(names: seq<string>)
    requires names != [] && Slashless(names)
    ensures Split(Join(names)) == names
  {
    assert names == [names[0]] + names[1..];
    assert names[0] in names && forall x <- names[1..] :: x in names;
    SplitOfJoin(names[0], names[1..]);
    SplitPlain(names[0]);
  }

  /** What the reader accepts, for any text at all: a text that does not leave the registry folder and, after its
      first component is decoded, is an id's name and version part and anything below. */
  lemma ReadIff<V>(vs: Versions<V>, text: string, id: FolderId<V>)
    ensures ParseRelative(vs, text) == Some(id)
       <==> !("../" <= text) && exists decoded :: IsDecoded(text, decoded) && IsRead(vs, decoded, id)
  {
    forall decoded ensures IsRead(vs, decoded, id) <==> ParseDecoded(vs, decoded) == Some(id) {
      if part, below :| IsCut(decoded, id.name, part, below) && HasNameShape(decoded, id.name, below)
                        && IsVersionPart(vs, part, id.version, id.copyIndex) {
        ReadIsParsed(vs, decoded, id, part, below);
      }
      if ParseDecoded(vs, decoded) == Some(id) { ParsedIsRead(vs, decoded, id); }
    }
    forall decoded { DecodedIff(text, decoded); }
    if DecodeFirst(text).Some? { assert IsDecoded(text, DecodeFirst(text).value); }
  }
}
