/**
 Paging markers on the wire, src/python/zigopt/api/paging.py: the URL-safe base64 of
 RFC 4648 (alphabet of section 5, padding of section 3.2) with its padding stripped.
 */
module PagingMarkers {
  import opened Sequences

  type Byte = b: int | 0 <= b < 256

  type Sextet = v: int | 0 <= v < 64

  const PAD: char := '='

  // ---------- RFC 4648 ----------

  function CharOf(v: Sextet): char {
    if v < 26 then 'A' + v as char
    else if v < 52 then 'a' + (v - 26) as char
    else if v < 62 then '0' + (v - 52) as char
    else if v == 62 then '-' else '_'
  }

  function CodeOf(c: char): Option<Sextet> {
    if 'A' <= c <= 'Z' then Some((c - 'A') as int)
    else if 'a' <= c <= 'z' then Some((c - 'a') as int + 26)
    else if '0' <= c <= '9' then Some((c - '0') as int + 52)
    else if c == '-' then Some(62)
    else if c == '_' then Some(63)
    else None
  }

  function FirstSextet(b0: Byte): Sextet {
    (b0 as int) / 4
  }

  function SecondSextet(b0: Byte, b1: Byte): Sextet {
    (b0 as int) % 4 * 16 + (b1 as int) / 16
  }

  function ThirdSextet(b1: Byte, b2: Byte): Sextet {
    (b1 as int) % 16 * 4 + (b2 as int) / 64
  }

  function FourthSextet(b2: Byte): Sextet {
    (b2 as int) % 64
  }

  /** Three bytes are four sextets; a last group of one or two bytes is filled up with zero bits. */
  function SextetsOf(bytes: seq<Byte>): seq<Sextet> {
    if |bytes| == 0 then []
    else if |bytes| == 1 then [FirstSextet(bytes[0]), SecondSextet(bytes[0], 0)]
    else if |bytes| == 2 then [FirstSextet(bytes[0]), SecondSextet(bytes[0], bytes[1]), ThirdSextet(bytes[1], 0)]
    else
      [FirstSextet(bytes[0]), SecondSextet(bytes[0], bytes[1]), ThirdSextet(bytes[1], bytes[2]), FourthSextet(bytes[2])]
      + SextetsOf(bytes[3..])
  }

  function FirstByte(v0: Sextet, v1: Sextet): Byte {
    (v0 as int) * 4 + (v1 as int) / 16
  }

  function SecondByte(v1: Sextet, v2: Sextet): Byte {
    (v1 as int) % 16 * 16 + (v2 as int) / 4
  }

  function ThirdByte(v2: Sextet, v3: Sextet): Byte {
    (v2 as int) % 4 * 64 + v3 as int
  }

  /** The whole bytes that sextets hold; bits left over are ignored. */
  function BytesOf(v: seq<Sextet>): seq<Byte> {
    if |v| < 2 then []
    else if |v| == 2 then [FirstByte(v[0], v[1])]
    else if |v| == 3 then [FirstByte(v[0], v[1]), SecondByte(v[1], v[2])]
    else [FirstByte(v[0], v[1]), SecondByte(v[1], v[2]), ThirdByte(v[2], v[3])] + BytesOf(v[4..])
  }

  function Chars(v: seq<Sextet>): string {
    seq(|v|, i requires 0 <= i < |v| => CharOf(v[i]))
  }

  predicate InAlphabet(s: string) {
    forall i :: 0 <= i < |s| ==> CodeOf(s[i]).Some?
  }

  function Codes(s: string): seq<Sextet>
    requires InAlphabet(s)
  {
    seq(|s|, i requires 0 <= i < |s| => CodeOf(s[i]).value)
  }

  function Padding(n: nat): string {
    seq(n, _ => PAD)
  }

  /** Encoded text comes in groups of four characters, the last one filled up with `=`. */
  function UrlsafeB64Encode(bytes: seq<Byte>): string {
    Chars(SextetsOf(bytes)) + Padding((3 - |bytes| % 3) % 3)
  }

  // ---------- Python's decoder ----------

  /** `urlsafe_b64decode` translates `-` and `_` to `+` and `/`, so it reads both alphabets. */
  function LenientCodeOf(c: char): Option<Sextet> {
    if c == '+' then Some(62) else if c == '/' then Some(63) else CodeOf(c)
  }

  /** How far a scan has come: the sextets so far, the `=` seen since the last one, and whether the text has ended. */
  datatype Scan = Scan(sextets: seq<Sextet>, pads: nat, ended: bool)

  /**
   An `=` counts only in the second half of a group, and ends the text once the group is filled up; other
   characters are skipped.
   */
  function ScanStep(scan: Scan, c: char): Scan {
    if scan.ended then scan
    else if c == PAD then
      var quadPos := |scan.sextets| % 4;
      if quadPos >= 2 then scan.(pads := scan.pads + 1, ended := quadPos + scan.pads + 1 >= 4) else scan
    else
      match LenientCodeOf(c)
      case None => scan
      case Some(v) => Scan(scan.sextets + [v], 0, false)
  }

  function Scanned(s: string): Scan {
    if s == "" then Scan([], 0, false) else ScanStep(Scanned(s[..|s| - 1]), s[|s| - 1])
  }

  predicate Ascii(s: string) {
    forall c :: c in s ==> c < 128 as char
  }

  /** Text that is not ASCII is a plain ValueError; text that ends inside a group is a binascii.Error. */
  datatype Decoded = Decoded(bytes: seq<Byte>) | NotAscii | Malformed

  function UrlsafeB64Decode(s: string): Decoded {
    var scan := Scanned(s);
    if !Ascii(s) then NotAscii
    else if scan.ended || |scan.sextets| % 4 == 0 then Decoded(BytesOf(scan.sextets)) else Malformed
  }

  // ---------- The markers ----------

  function StripPadding(s: string): string {
    if s == "" then "" else (if s[0] == PAD then "" else [s[0]]) + StripPadding(s[1..])
  }

  function EncodeBase64MarkerWithoutPadding(marker: seq<Byte>): string {
    StripPadding(UrlsafeB64Encode(marker))
  }

  function RestorePadding(serialized: string): string {
    var tailLen := |serialized| % 4;
    if tailLen != 0 then serialized + Padding(4 - tailLen) else serialized
  }

  function DecodeBase64MarkerWithoutPadding(serialized: string): Decoded {
    UrlsafeB64Decode(RestorePadding(serialized))
  }

  // ---------- Bytes and sextets ----------

  /** The alphabet of RFC 4648, section 5, in its order: upper case, lower case, digits, minus, underscore. */
  lemma AlphabetOrder(v: Sextet)
    ensures CharOf(0) == 'A' && CharOf(25) == 'Z' && CharOf(26) == 'a' && CharOf(51) == 'z'
    ensures CharOf(52) == '0' && CharOf(61) == '9' && CharOf(62) == '-' && CharOf(63) == '_'
    ensures v < 63 && v != 25 && v != 51 && v != 61 && v != 62 ==> CharOf(v + 1) as int == CharOf(v) as int + 1
    ensures CodeOf(CharOf(v)) == Some(v)
  {
  }

  lemma OnlyAlphabet(c: char)
    ensures CodeOf(c).Some? <==> 'A' <= c <= 'Z' || 'a' <= c <= 'z' || '0' <= c <= '9' || c == '-' || c == '_'
    ensures CodeOf(c).Some? ==> CharOf(CodeOf(c).value) == c
  {
  }

  /** Bytes and sextets are the same bits, most significant first: a group is one number in base 256 and in base 64. */
  lemma GroupIsOneNumber(b0: Byte, b1: Byte, b2: Byte)
    ensures var v0, v1, v2, v3 := FirstSextet(b0), SecondSextet(b0, b1), ThirdSextet(b1, b2), FourthSextet(b2);
            b0 * 65536 + b1 * 256 + b2 == v0 * 262144 + v1 * 4096 + v2 * 64 + v3
  {
  }

  lemma GroupJoins(b0: Byte, b1: Byte, b2: Byte)
    ensures FirstByte(FirstSextet(b0), SecondSextet(b0, b1)) == b0
    ensures SecondByte(SecondSextet(b0, b1), ThirdSextet(b1, b2)) == b1
    ensures ThirdByte(ThirdSextet(b1, b2), FourthSextet(b2)) == b2
  {
  }

  lemma GroupSplits(v0: Sextet, v1: Sextet, v2: Sextet, v3: Sextet)
    ensures FirstSextet(FirstByte(v0, v1)) == v0
    ensures SecondSextet(FirstByte(v0, v1), SecondByte(v1, v2)) == v1
    ensures ThirdSextet(SecondByte(v1, v2), ThirdByte(v2, v3)) == v2
    ensures FourthSextet(ThirdByte(v2, v3)) == v3
  {
  }

  lemma LastOfTwo(v0: Sextet, v1: Sextet)
    ensures SecondSextet(FirstByte(v0, v1), 0) == v1 / 16 * 16
  {
    var high: int := v1 / 16;
    assert (high + 4 * v0) % 4 == high;
  }

  lemma LastOfThree(v1: Sextet, v2: Sextet)
    ensures ThirdSextet(SecondByte(v1, v2), 0) == v2 / 4 * 4
  {
    var high: int := v2 / 4;
    assert (high + 16 * (v1 % 16)) % 16 == high;
  }

  lemma RoundedDown(v: int, d: int)
    requires d > 0
    ensures v / d * d == v <==> v % d == 0
  {
  }

  lemma BytesOfGroup(v0: Sextet, v1: Sextet, v2: Sextet, v3: Sextet, rest: seq<Sextet>)
    ensures BytesOf([v0, v1, v2, v3] + rest)
              == [FirstByte(v0, v1), SecondByte(v1, v2), ThirdByte(v2, v3)] + BytesOf(rest)
  {
    assert ([v0, v1, v2, v3] + rest)[4..] == rest;
  }

  lemma SextetsOfGroup(b0: Byte, b1: Byte, b2: Byte, rest: seq<Byte>)
    ensures SextetsOf([b0, b1, b2] + rest)
         == [FirstSextet(b0), SecondSextet(b0, b1), ThirdSextet(b1, b2), FourthSextet(b2)] + SextetsOf(rest)
  {
    assert ([b0, b1, b2] + rest)[3..] == rest;
  }

  lemma BytesOfTail(bytes: seq<Byte>)
    requires |bytes| < 3
    ensures BytesOf(SextetsOf(bytes)) == bytes
    ensures |SextetsOf(bytes)| == if bytes == [] then 0 else |bytes| + 1
  {
    if |bytes| == 1 {
      assert bytes == [bytes[0]];
      BytesOfOne(bytes[0]);
    } else if |bytes| == 2 {
      assert bytes == [bytes[0], bytes[1]];
      BytesOfTwo(bytes[0], bytes[1]);
    }
  }

  lemma BytesOfOne(b0: Byte)
    ensures BytesOf(SextetsOf([b0])) == [b0] && |SextetsOf([b0])| == 2
  {
    var v0, v1 := FirstSextet(b0), SecondSextet(b0, 0);
    assert SextetsOf([b0]) == [v0, v1];
    assert FirstByte(v0, v1) == b0;
    assert BytesOf([v0, v1]) == [FirstByte(v0, v1)];
  }

  lemma BytesOfTwo(b0: Byte, b1: Byte)
    ensures BytesOf(SextetsOf([b0, b1])) == [b0, b1] && |SextetsOf([b0, b1])| == 3
  {
    GroupJoins(b0, b1, 0);
  }

  lemma BytesOfFullGroup(b0: Byte, b1: Byte, b2: Byte, rest: seq<Byte>)
    ensures BytesOf(SextetsOf([b0, b1, b2] + rest)) == [b0, b1, b2] + BytesOf(SextetsOf(rest))
    ensures |SextetsOf([b0, b1, b2] + rest)| == 4 + |SextetsOf(rest)|
  {
    SextetsOfGroup(b0, b1, b2, rest);
    BytesOfGroup(FirstSextet(b0), SecondSextet(b0, b1), ThirdSextet(b1, b2), FourthSextet(b2), SextetsOf(rest));
    GroupJoins(b0, b1, b2);
  }

  lemma {:induction false} BytesOfSextets(bytes: seq<Byte>)
    ensures BytesOf(SextetsOf(bytes)) == bytes
    ensures |SextetsOf(bytes)| == (4 * |bytes| + 2) / 3
  {
    if |bytes| >= 3 {
      BytesOfSextets(bytes[3..]);
      BytesOfFullGroup(bytes[0], bytes[1], bytes[2], bytes[3..]);
      assert bytes == [bytes[0], bytes[1], bytes[2]] + bytes[3..];
    } else {
      BytesOfTail(bytes);
    }
  }

  /** The bits of the last sextet that no byte uses are zero. */
  predicate TailBitsClear(v: seq<Sextet>) {
    && (|v| % 4 == 2 ==> v[|v| - 1] % 16 == 0)
    && (|v| % 4 == 3 ==> v[|v| - 1] % 4 == 0)
  }

  /** With nothing after them, the low bits of the last sextet come back as zero. */
  lemma SextetsOfTwo(v: seq<Sextet>)
    requires |v| == 2
    ensures SextetsOf(BytesOf(v)) == [v[0], v[1] / 16 * 16]
  {
    var b0 := FirstByte(v[0], v[1]);
    GroupSplits(v[0], v[1], 0, 0);
    LastOfTwo(v[0], v[1]);
    assert BytesOf(v) == [b0];
    assert SextetsOf([b0]) == [FirstSextet(b0), SecondSextet(b0, 0)];
  }

  lemma SextetsOfThree(v: seq<Sextet>)
    requires |v| == 3
    ensures SextetsOf(BytesOf(v)) == [v[0], v[1], v[2] / 4 * 4]
  {
    var b0, b1 := FirstByte(v[0], v[1]), SecondByte(v[1], v[2]);
    GroupSplits(v[0], v[1], v[2], 0);
    LastOfThree(v[1], v[2]);
    assert BytesOf(v) == [b0, b1];
    assert SextetsOf([b0, b1]) == [FirstSextet(b0), SecondSextet(b0, b1), ThirdSextet(b1, 0)];
  }

  lemma SameLast(v: seq<Sextet>, w: seq<Sextet>, d: int)
    requires d > 0 && v != [] && |w| == |v| && w[..|v| - 1] == v[..|v| - 1] && w[|v| - 1] == v[|v| - 1] / d * d
    ensures w == v <==> v[|v| - 1] % d == 0
  {
    RoundedDown(v[|v| - 1], d);
    assert v == v[..|v| - 1] + [v[|v| - 1]] && w == w[..|v| - 1] + [w[|v| - 1]];
  }

  lemma TailOfTwo(v: seq<Sextet>)
    requires |v| == 2
    ensures SextetsOf(BytesOf(v)) == v <==> TailBitsClear(v)
  {
    SextetsOfTwo(v);
    SameLast(v, [v[0], v[1] / 16 * 16], 16);
  }

  lemma TailOfThree(v: seq<Sextet>)
    requires |v| == 3
    ensures SextetsOf(BytesOf(v)) == v <==> TailBitsClear(v)
  {
    SextetsOfThree(v);
    SameLast(v, [v[0], v[1], v[2] / 4 * 4], 4);
  }

  lemma SextetsOfFullGroup(v0: Sextet, v1: Sextet, v2: Sextet, v3: Sextet, rest: seq<Sextet>)
    ensures SextetsOf(BytesOf([v0, v1, v2, v3] + rest)) == [v0, v1, v2, v3] + SextetsOf(BytesOf(rest))
  {
    BytesOfGroup(v0, v1, v2, v3, rest);
    SextetsOfGroup(FirstByte(v0, v1), SecondByte(v1, v2), ThirdByte(v2, v3), BytesOf(rest));
    GroupSplits(v0, v1, v2, v3);
  }

  lemma SamePrefix(prefix: seq<Sextet>, one: seq<Sextet>, other: seq<Sextet>)
    ensures prefix + one == prefix + other <==> one == other
  {
    assert (prefix + one)[|prefix|..] == one && (prefix + other)[|prefix|..] == other;
  }

  lemma TailBitsOfRest(v: seq<Sextet>)
    requires |v| >= 4
    ensures TailBitsClear(v) <==> TailBitsClear(v[4..])
  {
    assert |v| % 4 == |v[4..]| % 4;
  }

  lemma {:induction false} SextetsOfBytes(v: seq<Sextet>)
    requires |v| % 4 != 1
    ensures SextetsOf(BytesOf(v)) == v <==> TailBitsClear(v)
  {
    if |v| >= 4 {
      SextetsOfBytes(v[4..]);
      var group := [v[0], v[1], v[2], v[3]];
      SextetsOfFullGroup(v[0], v[1], v[2], v[3], v[4..]);
      assert v == group + v[4..];
      SamePrefix(group, SextetsOf(BytesOf(v[4..])), v[4..]);
      TailBitsOfRest(v);
    } else if |v| == 3 {
      TailOfThree(v);
    } else if |v| == 2 {
      TailOfTwo(v);
    }
  }

  // ---------- Characters and padding ----------

  lemma CodesOfChars(v: seq<Sextet>)
    ensures InAlphabet(Chars(v)) && Codes(Chars(v)) == v
  {
  }

  lemma CharsOfCodes(s: string)
    requires InAlphabet(s)
    ensures Chars(Codes(s)) == s && PAD !in s
  {
  }

  lemma {:induction false} StripConcat(s: string, n: nat)
    requires PAD !in s
    ensures StripPadding(s + Padding(n)) == s
  {
    if s != "" {
      assert (s + Padding(n))[1..] == s[1..] + Padding(n);
      StripConcat(s[1..], n);
    } else if n > 0 {
      assert (s + Padding(n))[1..] == s + Padding(n - 1);
      StripConcat(s, n - 1);
    }
  }

  /** A marker is the sextets as characters: only padding is ever stripped. */
  lemma MarkerIsChars(bytes: seq<Byte>)
    ensures EncodeBase64MarkerWithoutPadding(bytes) == Chars(SextetsOf(bytes))
  {
    CodesOfChars(SextetsOf(bytes));
    CharsOfCodes(Chars(SextetsOf(bytes)));
    StripConcat(Chars(SextetsOf(bytes)), (3 - |bytes| % 3) % 3);
  }

  lemma DivideByThree(q: int, r: int)
    requires 0 <= r < 3
    ensures (3 * q + r) / 3 == q
  {
  }

  lemma MarkerLength(n: nat)
    ensures var m := (4 * n + 2) / 3;
            m % 4 == (if n % 3 == 0 then 0 else n % 3 + 1) && (m % 4 != 0 ==> 4 - m % 4 == (3 - n % 3) % 3)
  {
    var q, r := n / 3, n % 3;
    var tail := if r == 0 then 0 else r + 1;
    DivideByThree(4 * q + tail, if r == 0 then 2 else r - 1);
    assert 4 * n + 2 == 3 * (4 * q + tail) + (if r == 0 then 2 else r - 1);
  }

  /** The length of a marker is never 1 modulo 4, so it tells exactly how much padding to put back. */
  lemma PaddingRestored(bytes: seq<Byte>)
    ensures |EncodeBase64MarkerWithoutPadding(bytes)| % 4 != 1
    ensures RestorePadding(EncodeBase64MarkerWithoutPadding(bytes)) == UrlsafeB64Encode(bytes)
  {
    MarkerIsChars(bytes);
    BytesOfSextets(bytes);
    MarkerLength(|bytes|);
    var marker := EncodeBase64MarkerWithoutPadding(bytes);
    assert marker + Padding(0) == marker;
  }

  // ---------- Decoding ----------

  /** The sextets a text without padding carries: foreign characters carry nothing. */
  function Data(s: string): seq<Sextet> {
    if s == "" then []
    else
      var code := LenientCodeOf(s[|s| - 1]);
      Data(s[..|s| - 1]) + if code.Some? then [code.value] else []
  }

  lemma {:induction false} ScannedData(s: string)
    requires PAD !in s
    ensures Scanned(s) == Scan(Data(s), 0, false)
  {
    if s != "" {
      ScannedData(s[..|s| - 1]);
    }
  }

  /** The scan after so many more `=`. */
  function Padded(scan: Scan, n: nat): Scan {
    if n == 0 then scan else ScanStep(Padded(scan, n - 1), PAD)
  }

  lemma {:induction false} ScannedPadding(s: string, n: nat)
    ensures Scanned(s + Padding(n)) == Padded(Scanned(s), n)
  {
    if n == 0 {
      assert s + Padding(0) == s;
    } else {
      ScannedPadding(s, n - 1);
      assert (s + Padding(n))[..|s| + n - 1] == s + Padding(n - 1);
    }
  }

  /** Padding ends the text once it fills up the last group. */
  lemma {:induction false} PaddedEnds(scan: Scan, n: nat, quadPos: nat)
    requires quadPos == |scan.sextets| % 4 && scan.pads == 0 && !scan.ended && n < 4
    ensures Padded(scan, n).sextets == scan.sextets
    ensures Padded(scan, n).ended <==> quadPos >= 2 && quadPos + n >= 4
    ensures quadPos >= 2 && quadPos + n < 4 ==> Padded(scan, n).pads == n
  {
    if n > 0 {
      PaddedEnds(scan, n - 1, quadPos);
    }
  }

  /** The padding put back, that of the text's whole length, fills up the last group of data characters. */
  predicate Complete(data: nat, length: nat) {
    var quadPos, tailLen := data % 4, length % 4;
    quadPos == 0 || (quadPos == 2 && 1 <= tailLen <= 2) || (quadPos == 3 && 1 <= tailLen)
  }

  /**
   Text without padding decodes to the data characters in it, foreign ones skipped, exactly when it is ASCII
   and complete.
   */
  lemma DecodeUnpadded(s: string)
    requires PAD !in s
    ensures DecodeBase64MarkerWithoutPadding(s)
         == if !Ascii(s) then NotAscii else if Complete(|Data(s)|, |s|) then Decoded(BytesOf(Data(s))) else Malformed
  {
    var n := if |s| % 4 == 0 then 0 else 4 - |s| % 4;
    assert RestorePadding(s) == s + Padding(n);
    ScannedData(s);
    ScannedPadding(s, n);
    PaddedEnds(Scanned(s), n, |Data(s)| % 4);
    AsciiPadding(s, n);
  }

  lemma AsciiPadding(s: string, n: nat)
    ensures Ascii(s + Padding(n)) <==> Ascii(s)
  {
    assert forall c :: c in Padding(n) ==> c == PAD;
    assert forall c :: c in s + Padding(n) <==> c in s || c in Padding(n);
  }

  /** Text in the URL-safe alphabet is all data. */
  lemma {:induction false} AlphabetIsData(s: string)
    requires InAlphabet(s)
    ensures Data(s) == Codes(s) && PAD !in s && Ascii(s)
  {
    if s != "" {
      var init := s[..|s| - 1];
      AlphabetIsData(init);
      assert s == init + [s[|s| - 1]];
      assert CodeOf(s[|s| - 1]).Some?;
    }
  }

  // ---------- Round trips ----------

  /** Every marker decodes to the bytes it was made from. */
  lemma MarkerRoundTrip(bytes: seq<Byte>)
    ensures DecodeBase64MarkerWithoutPadding(EncodeBase64MarkerWithoutPadding(bytes)) == Decoded(bytes)
  {
    var marker := EncodeBase64MarkerWithoutPadding(bytes);
    PaddingRestored(bytes);
    MarkerIsChars(bytes);
    CodesOfChars(SextetsOf(bytes));
    AlphabetIsData(marker);
    DecodeUnpadded(marker);
    BytesOfSextets(bytes);
  }

  /** No two byte strings share a marker, and only the empty one has the empty marker, which requests refuse. */
  lemma MarkersInjective(one: seq<Byte>, other: seq<Byte>)
    ensures EncodeBase64MarkerWithoutPadding(one) == EncodeBase64MarkerWithoutPadding(other) ==> one == other
    ensures EncodeBase64MarkerWithoutPadding(one) == "" <==> one == []
  {
    MarkerRoundTrip(one);
    MarkerRoundTrip(other);
    MarkerIsChars(one);
  }

  predicate IsMarker(s: string) {
    var bytes := DecodeBase64MarkerWithoutPadding(s);
    bytes.Decoded? && EncodeBase64MarkerWithoutPadding(bytes.bytes) == s
  }

  /**
   Of all texts, padded or not, exactly these are the marker of what they decode to: URL-safe alphabet only, a length
   that is not 1 modulo 4, and zero unused bits. Any other text that decodes is another spelling of some marker.
   */
  lemma DecodedTextIsMarker(s: string)
    ensures IsMarker(s) <==> InAlphabet(s) && |s| % 4 != 1 && TailBitsClear(Codes(s))
  {
    if IsMarker(s) {
      var bytes := DecodeBase64MarkerWithoutPadding(s).bytes;
      PaddingRestored(bytes);
      MarkerIsChars(bytes);
      CodesOfChars(SextetsOf(bytes));
      BytesOfSextets(bytes);
      SextetsOfBytes(SextetsOf(bytes));
    }
    if InAlphabet(s) && |s| % 4 != 1 && TailBitsClear(Codes(s)) {
      AlphabetIsData(s);
      DecodeUnpadded(s);
      SextetsOfBytes(Codes(s));
      MarkerIsChars(BytesOf(Codes(s)));
      CharsOfCodes(s);
    }
  }

  lemma DataAppend(s: string, c: char)
    ensures Data(s + [c]) == Data(s) + if LenientCodeOf(c).Some? then [LenientCodeOf(c).value] else []
  {
    assert (s + [c])[..|s|] == s;
  }

  /** The spelling of RFC 4648, section 4. */
  function Standard(s: string): string {
    seq(|s|, i requires 0 <= i < |s| => if s[i] == '-' then '+' else if s[i] == '_' then '/' else s[i])
  }

  lemma {:induction false} StandardData(s: string)
    requires InAlphabet(s)
    ensures Data(Standard(s)) == Data(s)
  {
    if s != "" {
      var init := s[..|s| - 1];
      assert Standard(s)[..|s| - 1] == Standard(init);
      StandardData(init);
      assert CodeOf(s[|s| - 1]).Some?;
    }
  }

  /** A marker in the standard spelling still decodes; it is a marker only if the spellings agree. */
  lemma StandardSpellingDecodes(bytes: seq<Byte>)
    ensures var marker := EncodeBase64MarkerWithoutPadding(bytes);
            && DecodeBase64MarkerWithoutPadding(Standard(marker)) == Decoded(bytes)
            && (IsMarker(Standard(marker)) <==> Standard(marker) == marker)
  {
    var marker := EncodeBase64MarkerWithoutPadding(bytes);
    MarkerIsChars(bytes);
    CodesOfChars(SextetsOf(bytes));
    StandardData(marker);
    AlphabetIsData(marker);
    forall c | c in Standard(marker) ensures c < 128 as char && c != PAD {
      var i :| 0 <= i < |marker| && Standard(marker)[i] == c;
      assert marker[i] in marker;
    }
    DecodeUnpadded(marker);
    DecodeUnpadded(Standard(marker));
    MarkerRoundTrip(bytes);
  }

  lemma OneOver(s: string, c: char)
    requires |s| % 4 == 0
    ensures |s + [c]| % 4 == 1
  {
  }

  lemma ForeignIsNoData(s: string, c: char)
    requires InAlphabet(s) && LenientCodeOf(c).None? && c != PAD && c < 128 as char
    ensures Data(s + [c]) == Codes(s) && PAD !in s + [c] && Ascii(s + [c])
  {
    AlphabetIsData(s);
    DataAppend(s, c);
  }

  /** A foreign character after whole groups is skipped, even though the length becomes 1 modulo 4. */
  lemma ForeignCharacterSkipped(s: string, c: char)
    requires InAlphabet(s) && |s| % 4 == 0
    requires LenientCodeOf(c).None? && c != PAD && c < 128 as char
    ensures |s + [c]| % 4 == 1 && DecodeBase64MarkerWithoutPadding(s + [c]) == Decoded(BytesOf(Codes(s)))
  {
    ForeignIsNoData(s, c);
    OneOver(s, c);
    assert |Data(s + [c])| == |s|;
    DecodeUnpadded(s + [c]);
  }

  // ---------- Requests ----------

  /**
   What becomes of the marker in a request; a ValueError that is not a binascii.Error is not turned into a bad
   parameter.
   */
  datatype Requested<M> = Marker(marker: M) | BadParam | ValueErrorEscapes

  /** `parse` reads a marker message from bytes, or refuses them. */
  function DeserializePagingMarker<M>(parse: seq<Byte> -> Option<M>, serialized: string): Requested<M> {
    if serialized == "" then BadParam
    else
      match DecodeBase64MarkerWithoutPadding(serialized)
      case NotAscii => ValueErrorEscapes
      case Malformed => BadParam
      case Decoded(bytes) => if parse(bytes).Some? then Marker(parse(bytes).value) else BadParam
  }

  /** The marker for the next page; the assertion refuses a message of no bytes. */
  function SerializePagingMarker<M>(serialize: M -> seq<Byte>, marker: M): Option<string> {
    var serialized := EncodeBase64MarkerWithoutPadding(serialize(marker));
    if serialized == "" then None else Some(serialized)
  }

  /** Every marker that is sent out comes back, if messages can be read back; only one of no bytes is not sent. */
  lemma PagingMarkerRoundTrip<M>(parse: seq<Byte> -> Option<M>, serialize: M -> seq<Byte>, marker: M)
    requires parse(serialize(marker)) == Some(marker)
    ensures SerializePagingMarker(serialize, marker).None? <==> serialize(marker) == []
    ensures var sent := SerializePagingMarker(serialize, marker);
            sent.Some? ==> DeserializePagingMarker(parse, sent.value) == Marker(marker)
  {
    MarkerRoundTrip(serialize(marker));
    MarkersInjective(serialize(marker), serialize(marker));
  }

  /** Whatever the messages are, the error that escapes is exactly the one for text that is not ASCII. */
  lemma NotAsciiEscapes<M>(parse: seq<Byte> -> Option<M>, serialized: string)
    ensures DeserializePagingMarker(parse, serialized) == ValueErrorEscapes
       <==> exists c :: c in serialized && c as int >= 128
  {
    if |serialized| % 4 != 0 {
      AsciiPadding(serialized, 4 - |serialized| % 4);
    }
  }
}
