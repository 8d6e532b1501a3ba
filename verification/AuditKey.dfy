/** The audit signing key: its file, and the reading of key text as hexadecimal first and base64 second. */
module AuditKey {
  import opened Types
  import opened Text
  import Base64

  const MARKER := "# origin: auto-generated"
  const TITLE := "# HeelonVault audit signing key"
  const SEED_LEN := 32

  // ---- hexadecimal (section 8 of RFC 4648) ----

  type Nibble = v: int | 0 <= v < 16

  function HexValue(c: char): Option<Nibble> {
    if '0' <= c <= '9' then Some((c - '0') as int)
    else if 'a' <= c <= 'f' then Some((c - 'a') as int + 10)
    else if 'A' <= c <= 'F' then Some((c - 'A') as int + 10)
    else None
  }

  predicate IsHex(s: string) {
    |s| % 2 == 0 && forall i :: 0 <= i < |s| ==> HexValue(s[i]).Some?
  }

  function HexPair(high: char, low: char): Option<byte> {
    var h, l := HexValue(high), HexValue(low);
    if h.Some? && l.Some? then Some(h.value * 16 + l.value) else None
  }

  function HexDecode(s: string): (r: Option<bytes>)
    ensures r.Some? ==> |r.value| == |s| / 2
  {
    if s == [] then Some([])
    else if |s| == 1 then None
    else
      var pair, rest := HexPair(s[0], s[1]), HexDecode(s[2..]);
      if pair.Some? && rest.Some? then Some([pair.value] + rest.value) else None
  }

  lemma {:induction false} HexDecodeAccepts(s: string)
    ensures HexDecode(s).Some? <==> IsHex(s)
  {
    if |s| > 1 {
      HexDecodeAccepts(s[2..]);
      assert forall i :: 2 <= i < |s| ==> s[i] == s[2..][i - 2];
      assert forall i :: 0 <= i < |s| - 2 ==> s[2..][i] == s[i + 2];
    } else if |s| == 1 {
      assert !IsHex(s);
    }
  }

  function HexDigit(v: Nibble): char {
    if v < 10 then '0' + v as char else 'a' + (v - 10) as char
  }

  function HexEncode(b: bytes): string {
    if b == [] then [] else [HexDigit(b[0] / 16), HexDigit(b[0] % 16)] + HexEncode(b[1..])
  }

  // ---- key text ----

  function DropWhitespace(s: string): (t: string)
    ensures (forall i :: 0 <= i < |s| ==> !IsWhitespace(s[i])) ==> t == s
  {
    if s == [] then []
    else if IsWhitespace(s[0]) then DropWhitespace(s[1..])
    else [s[0]] + DropWhitespace(s[1..])
  }

  function StripHexPrefix(s: string): (t: string)
    ensures |t| == |s| || |t| == |s| - 2
  {
    if "0x" <= s || "0X" <= s then s[2..] else s
  }

  function SanitizeHexInput(input: string): string {
    DropWhitespace(StripHexPrefix(Trim(input)))
  }

  function DecodeKeyMaterial(input: string): Result<bytes> {
    var normalized := SanitizeHexInput(input);
    if |normalized| % 2 == 0 && HexDecode(normalized).Some? then Ok(HexDecode(normalized).value)
    else match Base64.Decode(Trim(input))
      case Some(b) => Ok(b)
      case None => Err(Validation)
  }

  /** Base64 text has no white space, so the hexadecimal attempt sees it whole but for a leading `0x`. */
  lemma SanitizedBase64(b: bytes)
    ensures Trim(Base64.Encode(b)) == Base64.Encode(b)
    ensures SanitizeHexInput(Base64.Encode(b)) == StripHexPrefix(Base64.Encode(b))
  {
    var s := Base64.Encode(b);
    Base64.EncodeSymbols(b);
    forall i | 0 <= i < |s| ensures !IsWhitespace(s[i]) {
      assert Base64.Value(s[i]).Some?;
    }
    TrimKeeps(s);
  }

  /** Key text printed as base64 is read as hexadecimal if it happens to be that, less a leading `0x`, and else as
      printed. */
  lemma KeyTextOutcome(b: bytes)
    ensures var n := StripHexPrefix(Base64.Encode(b));
      DecodeKeyMaterial(Base64.Encode(b)) == if IsHex(n) then HexResult(n) else Ok(b)
  {
    var s := Base64.Encode(b);
    SanitizedBase64(b);
    HexDecodeAccepts(StripHexPrefix(s));
    Base64.DecodeEncode(b);
    assert Trim(s) == s && SanitizeHexInput(s) == StripHexPrefix(s);
  }

  function HexResult(s: string): (r: Result<bytes>)
    requires IsHex(s)
    ensures r.Ok? && |r.value| == |s| / 2
  {
    HexDecodeAccepts(s);
    Ok(HexDecode(s).value)
  }

  /** Bytes printed as base64 are read back exactly unless the text, less a leading `0x`, is hexadecimal; then they are
      read as a different number of bytes. */
  lemma KeyTextRoundTrip(b: bytes)
    ensures DecodeKeyMaterial(Base64.Encode(b)) == Ok(b) <==> b == [] || !IsHex(StripHexPrefix(Base64.Encode(b)))
    ensures |b| % 3 != 0 ==> DecodeKeyMaterial(Base64.Encode(b)) == Ok(b)
  {
    KeyTextOutcome(b);
    if |b| % 3 != 0 {
      PaddedIsNotHex(b);
    } else {
      UnpaddedRoundTrip(b);
    }
  }

  lemma UnpaddedRoundTrip(b: bytes)
    requires |b| % 3 == 0
    ensures var n := StripHexPrefix(Base64.Encode(b)); IsHex(n) ==> (HexResult(n) == Ok(b) <==> b == [])
  {
    var k, s := |b| / 3, Base64.Encode(b);
    assert |b| == 3 * k;
    assert |s| == 4 * k;
    var n := StripHexPrefix(s);
    if IsHex(n) { HexLengthDiffers(b, n, k); }
  }

  /** Four symbols carry three bytes as base64 but two as hexadecimal. */
  lemma HexLengthDiffers(b: bytes, n: string, k: nat)
    requires |b| == 3 * k && (|n| == 4 * k || |n| == 4 * k - 2) && IsHex(n)
    ensures HexResult(n) == Ok(b) <==> b == []
  {
    if k == 0 { assert HexResult(n).value == b; }
  }

  lemma PaddedIsNotHex(b: bytes)
    requires |b| % 3 != 0
    ensures !IsHex(StripHexPrefix(Base64.Encode(b)))
  {
    Base64.EncodeSymbols(b);
    var s := Base64.Encode(b);
    var n := StripHexPrefix(s);
    assert n[|n| - 1] == s[|s| - 1] == '=';
  }

  lemma HexDecodeStep(s: string)
    requires |s| > 1 && HexPair(s[0], s[1]).Some? && HexDecode(s[2..]).Some?
    ensures HexDecode(s) == Some([HexPair(s[0], s[1]).value] + HexDecode(s[2..]).value)
  {
  }

  lemma EncodedZeros(b: bytes)
    requires |b| == 3 && forall i :: 0 <= i < 3 ==> b[i] == 0
    ensures |Base64.Encode(b)| == 4 && forall i :: 0 <= i < 4 ==> Base64.Encode(b)[i] == 'A'
  {
    assert Base64.Digits(b) == Base64.Group(b[0], b[1], b[2]) + Base64.Digits(b[3..]);
  }

  lemma HexOfAs(s: string)
    requires |s| == 4 && forall i :: 0 <= i < 4 ==> s[i] == 'A'
    ensures HexDecode(s).Some? && |HexDecode(s).value| == 2 && HexDecode(s).value[0] == 0xaa
      && HexDecode(s).value[1] == 0xaa
  {
    var pair := s[2..];
    assert pair[0] == 'A' && pair[1] == 'A';
    assert HexDecode(pair[2..]) == Some([]);
    HexDecodeStep(pair);
    HexDecodeStep(s);
  }

  /** Three zero bytes print as `AAAA`, which reads back as the two bytes of a hexadecimal number. */
  lemma AmbiguousKeyText(b: bytes)
    requires |b| == 3 && forall i :: 0 <= i < 3 ==> b[i] == 0
    ensures DecodeKeyMaterial(Base64.Encode(b)) == Ok([0xaa, 0xaa])
  {
    var s := Base64.Encode(b);
    EncodedZeros(b);
    HexOfAs(s);
    KeyTextOutcome(b);
    assert StripHexPrefix(s) == s;
    assert HexDecode(s).value == [0xaa, 0xaa];
  }

  lemma {:induction false} HexRoundTrip(b: bytes)
    ensures HexDecode(HexEncode(b)) == Some(b)
    ensures |HexEncode(b)| == 2 * |b| && forall i :: 0 <= i < |HexEncode(b)| ==> HexValue(HexEncode(b)[i]).Some?
  {
    if b != [] {
      HexRoundTrip(b[1..]);
      var s := HexEncode(b);
      assert s[2..] == HexEncode(b[1..]);
      assert [b[0]] + b[1..] == b;
    }
  }

  lemma HexTextSanitized(s: string, prefix: string)
    requires IsHex(s) && prefix in ["", "0x", "0X"]
    ensures SanitizeHexInput(prefix + s) == s
  {
    var text := prefix + s;
    forall i | 0 <= i < |s| ensures !IsWhitespace(s[i]) { assert HexValue(s[i]).Some?; }
    forall i | 0 <= i < |text| ensures !IsWhitespace(text[i]) {
      assert i >= |prefix| ==> text[i] == s[i - |prefix|];
    }
    TrimKeeps(text);
    PrefixStripped(s, prefix);
  }

  lemma PrefixStripped(s: string, prefix: string)
    requires IsHex(s) && prefix in ["", "0x", "0X"]
    ensures StripHexPrefix(prefix + s) == s
  {
    var text := prefix + s;
    if prefix == "" {
      assert text == s;
      assert |s| > 1 ==> HexValue(s[1]).Some?;
      assert StripHexPrefix(s) == s;
    } else {
      assert text[2..] == s && text[..2] == prefix;
      assert StripHexPrefix(text) == s;
    }
  }

  /** Hexadecimal key text is read as hexadecimal, with or without the prefix. */
  lemma HexKeyText(b: bytes, prefix: string)
    requires prefix in ["", "0x", "0X"]
    ensures DecodeKeyMaterial(prefix + HexEncode(b)) == Ok(b)
  {
    HexRoundTrip(b);
    HexTextSanitized(HexEncode(b), prefix);
  }

  lemma {:induction false} WhitespaceDropped(s: string, c: char, t: string)
    requires IsWhitespace(c)
    ensures DropWhitespace(s + [c] + t) == DropWhitespace(s + t)
  {
    if s == [] {
      assert [c] + t == s + [c] + t && (s + [c] + t)[1..] == t && s + t == t;
    } else {
      WhitespaceDropped(s[1..], c, t);
      assert (s + [c] + t)[1..] == s[1..] + [c] + t && (s + t)[1..] == s[1..] + t;
    }
  }

  lemma TrimmedPrefix(s: string)
    requires s != [] && !IsWhitespace(s[0]) && !IsWhitespace(s[|s| - 1])
    ensures Trim(s) == s
  {
    assert TrimStart(s) == s;
    assert TrimEnd(s) == s;
  }

  /** White space between the digits of prefixed hexadecimal key text does not matter. */
  lemma SpacedHexKey(prefix: string, s: string, c: char, t: string)
    requires prefix in ["0x", "0X"] && IsWhitespace(c) && t != [] && !IsWhitespace(t[|t| - 1])
    ensures SanitizeHexInput(prefix + (s + [c] + t)) == SanitizeHexInput(prefix + (s + t))
  {
    var long, short := s + [c] + t, s + t;
    assert long[|long| - 1] == t[|t| - 1] && short[|short| - 1] == t[|t| - 1];
    TrimmedPrefix(prefix + long);
    TrimmedPrefix(prefix + short);
    assert (prefix + long)[..2] == prefix && (prefix + long)[2..] == long;
    assert (prefix + short)[..2] == prefix && (prefix + short)[2..] == short;
    WhitespaceDropped(s, c, t);
  }

  // ---- the key file ----

  function FirstLineEnd(content: string): (i: nat)
    ensures i <= |content|
    ensures forall j :: 0 <= j < i ==> content[j] != '\n'
    ensures i < |content| ==> content[i] == '\n'
  {
    if content == [] || content[0] == '\n' then 0 else FirstLineEnd(content[1..]) + 1
  }

  function WithoutReturn(line: string): string {
    if line != [] && line[|line| - 1] == '\r' then line[..|line| - 1] else line
  }

  function Lines(content: string): seq<string> {
    if content == [] then []
    else
      var i := FirstLineEnd(content);
      if i == |content| then [content] else [WithoutReturn(content[..i])] + Lines(content[i + 1..])
  }

  function AsciiLower(c: char): char {
    if 'A' <= c <= 'Z' then 'a' + (c - 'A') else c
  }

  predicate EqIgnoreAsciiCase(s: string, t: string) {
    |s| == |t| && forall i :: 0 <= i < |s| ==> AsciiLower(s[i]) == AsciiLower(t[i])
  }

  predicate IsMarker(line: string) {
    EqIgnoreAsciiCase(line, MARKER)
  }

  datatype LineKind = Blank | Comment(marker: bool) | Key(text: string)

  function Classify(line: string): LineKind {
    var trimmed := Trim(line);
    if trimmed == [] then Blank
    else if trimmed[0] == '#' then Comment(IsMarker(trimmed))
    else Key(trimmed)
  }

  predicate IsLetter(c: char) {
    'A' <= c <= 'Z' || 'a' <= c <= 'z'
  }

  /** The same character, or the same letter in the other case. */
  predicate SameButCase(c: char, d: char) {
    c == d || (IsLetter(c) && IsLetter(d) && (c as int - d as int == 32 || d as int - c as int == 32))
  }

  /** A line is a marker exactly if it is, less surrounding white space and up to the case of its letters, the marker
      line. */
  lemma ClassifyExactly(line: string)
    ensures Classify(line) == Comment(true) <==>
      |Trim(line)| == |MARKER| && forall i :: 0 <= i < |MARKER| ==> SameButCase(Trim(line)[i], MARKER[i])
    ensures Classify(line).Blank? <==> Trim(line) == []
    ensures Classify(line).Comment? <==> "#" <= Trim(line)
    ensures Classify(line).Key? ==> Classify(line).text == Trim(line)
  {
    var t := Trim(line);
    MarkerSign();
    MatchesByCase(t, MARKER);
    if t != [] && SameButCase(t[0], '#') { assert t[0] == '#'; }
  }

  lemma MarkerSign()
    ensures |MARKER| > 0 && MARKER[0] == '#'
  {
  }

  lemma MatchesByCase(s: string, t: string)
    ensures EqIgnoreAsciiCase(s, t) <==> |s| == |t| && forall i :: 0 <= i < |t| ==> SameButCase(s[i], t[i])
  {
    if |s| == |t| {
      forall i | 0 <= i < |t| ensures AsciiLower(s[i]) == AsciiLower(t[i]) <==> SameButCase(s[i], t[i]) {
        CaseMatch(s[i], t[i]);
      }
    }
  }

  lemma CaseMatch(c: char, d: char)
    ensures AsciiLower(c) == AsciiLower(d) <==> SameButCase(c, d)
  {
  }

  function Kinds(lines: seq<string>): (k: seq<LineKind>)
    ensures |k| == |lines|
  {
    seq(|lines|, i requires 0 <= i < |lines| => Classify(lines[i]))
  }

  /** The key text and whether the marker came before it, from line `i` on. */
  function Scan(kinds: seq<LineKind>, i: nat, auto: bool): Result<(string, bool)>
    requires i <= |kinds|
    decreases |kinds| - i
  {
    if i == |kinds| then Err(NotFound)
    else match kinds[i]
      case Blank => Scan(kinds, i + 1, auto)
      case Comment(marker) => Scan(kinds, i + 1, auto || marker)
      case Key(text) => Ok((text, auto))
  }

  function Parse(content: string): Result<(string, bool)> {
    Scan(Kinds(Lines(content)), 0, false)
  }

  /** What is found from line `i` on. */
  function Rest(lines: seq<string>, i: nat, auto: bool): Result<(string, bool)>
    requires i <= |lines|
  {
    Scan(Kinds(lines), i, auto)
  }

  lemma ScanStep(lines: seq<string>, line: string, i: nat, auto: bool)
    requires i < |lines| && line == Trim(lines[i])
    ensures Rest(lines, i, auto) ==
        if line == [] then Rest(lines, i + 1, auto)
        else if line[0] == '#' then Rest(lines, i + 1, auto || IsMarker(line))
        else Ok((line, auto))
  {
  }

  lemma ScanEnd(lines: seq<string>, auto: bool)
    ensures Rest(lines, |lines|, auto) == Err(NotFound)
  {
  }

  method ParseAuditKeyFile(content: string) returns (r: Result<(string, bool)>)
    ensures r == Parse(content)
  {
    r := ParseLines(Lines(content));
  }

  method ParseLines(lines: seq<string>) returns (r: Result<(string, bool)>)
    ensures r == Rest(lines, 0, false)
  {
    var autoGenerated := false;
    var keyMaterial: Option<string> := None;
    ghost var found := Rest(lines, 0, false);
    var i := 0;
    while i < |lines|
      invariant 0 <= i <= |lines| && keyMaterial == None
      invariant Rest(lines, i, autoGenerated) == found
    {
      var line := Trim(lines[i]);
      ScanStep(lines, line, i, autoGenerated);
      if line == [] {
        i := i + 1;
        continue;
      }
      if line[0] == '#' {
        if IsMarker(line) { autoGenerated := true; }
        i := i + 1;
        continue;
      }
      keyMaterial := Some(line);
      break;
    }
    ScanEnd(lines, autoGenerated);
    return if keyMaterial.Some? then Ok((keyMaterial.value, autoGenerated)) else Err(NotFound);
  }

  predicate MarkerAmong(kinds: seq<LineKind>, i: nat, k: nat)
    requires k <= |kinds|
  {
    exists j :: i <= j < k && kinds[j] == Comment(true)
  }

  /** The parser returns the first line that is neither blank nor a comment, and whether a marker line stands before
      it. */
  lemma {:induction false} ScanFinds(kinds: seq<LineKind>, i: nat, auto: bool, k: nat)
    requires i <= k <= |kinds| && forall j :: i <= j < k ==> !kinds[j].Key?
    ensures k == |kinds| ==> Scan(kinds, i, auto) == Err(NotFound)
    ensures k < |kinds| && kinds[k].Key? ==>
      Scan(kinds, i, auto) == Ok((kinds[k].text, auto || MarkerAmong(kinds, i, k)))
    decreases |kinds| - i
  {
    if i < k {
      var marked := kinds[i] == Comment(true);
      ScanFinds(kinds, i + 1, auto || marked, k);
      assert MarkerAmong(kinds, i, k) <==> marked || MarkerAmong(kinds, i + 1, k);
    }
  }

  function Line(line: string, rest: string): string {
    line + "\n" + rest
  }

  function KeyFile(seed: bytes): string {
    Line(TITLE, Line(MARKER, Line(Base64.Encode(seed), "")))
  }

  predicate SingleLine(line: string) {
    forall j :: 0 <= j < |line| ==> line[j] != '\n' && line[j] != '\r'
  }

  lemma LineSplit(line: string, rest: string)
    requires SingleLine(line)
    ensures Lines(Line(line, rest)) == [line] + Lines(rest)
  {
    var content := Line(line, rest);
    var i := FirstLineEnd(content);
    assert content[|line|] == '\n';
    assert i == |line|;
    assert content[..i] == line && content[i + 1..] == rest;
  }

  lemma KeyTextIsSingleLine(seed: bytes)
    ensures SingleLine(Base64.Encode(seed))
  {
    var key := Base64.Encode(seed);
    Base64.EncodeSymbols(seed);
    forall j | 0 <= j < |key| ensures key[j] != '\n' && key[j] != '\r' {
      assert Base64.Value(key[j]).Some?;
    }
  }

  lemma HeaderIsSingleLines()
    ensures SingleLine(TITLE) && SingleLine(MARKER)
  {
  }

  lemma ThreeLines(a: string, b: string, d: string)
    requires SingleLine(a) && SingleLine(b) && SingleLine(d)
    ensures Lines(Line(a, Line(b, Line(d, "")))) == [a, b, d]
  {
    LineSplit(d, "");
    LineSplit(b, Line(d, ""));
    LineSplit(a, Line(b, Line(d, "")));
  }

  lemma KeyFileLines(seed: bytes)
    ensures Lines(KeyFile(seed)) == [TITLE, MARKER, Base64.Encode(seed)]
  {
    HeaderIsSingleLines();
    KeyTextIsSingleLine(seed);
    ThreeLines(TITLE, MARKER, Base64.Encode(seed));
  }

  /** The 32-byte secret that signs: 64-byte keys carry it in their first half. */
  function SigningSeed(key: bytes): Result<bytes> {
    if |key| == SEED_LEN then Ok(key)
    else if |key| == 2 * SEED_LEN then Ok(key[..SEED_LEN])
    else Err(Validation)
  }

  function WithSeed(decoded: Result<bytes>, auto: bool): Result<(bytes, bool)> {
    match decoded
    case Err(e) => Err(e)
    case Ok(key) => match SigningSeed(key) case Err(e) => Err(e) case Ok(seed) => Ok((seed, auto))
  }

  /** From file contents to signing secret, with the auto-generated flag. */
  function LoadKey(content: string): Result<(bytes, bool)> {
    match Parse(content)
    case Err(e) => Err(e)
    case Ok((text, auto)) => WithSeed(DecodeKeyMaterial(text), auto)
  }

  /** Key text is read as hexadecimal if it can be, else as base64, and otherwise refused. */
  lemma KeyMaterialExactly(text: string, key: bytes)
    ensures DecodeKeyMaterial(text) == Ok(key) <==>
      if IsHex(SanitizeHexInput(text)) then HexDecode(SanitizeHexInput(text)) == Some(key)
      else Base64.Decode(Trim(text)) == Some(key)
  {
    HexDecodeAccepts(SanitizeHexInput(text));
  }

  /** A file loads exactly if it holds a key line whose text is read as 32 or 64 bytes; the first 32 of them are the
      seed, and the flag says whether a marker stands before that line. */
  lemma LoadKeyExactly(content: string, seed: bytes, auto: bool)
    ensures LoadKey(content) == Ok((seed, auto)) <==>
      && |seed| == 32 && Parse(content).Ok? && Parse(content).value.1 == auto
      && exists rest :: (|rest| == 0 || |rest| == 32) && DecodeKeyMaterial(Parse(content).value.0) == Ok(seed + rest)
  {
    if Parse(content).Ok? { SeedExactly(DecodeKeyMaterial(Parse(content).value.0), Parse(content).value.1, seed,
                                        auto); }
  }

  lemma SeedExactly(decoded: Result<bytes>, flag: bool, seed: bytes, auto: bool)
    ensures WithSeed(decoded, flag) == Ok((seed, auto)) <==>
      |seed| == 32 && flag == auto && exists rest :: (|rest| == 0 || |rest| == 32) && decoded == Ok(seed + rest)
  {
    if decoded.Ok? {
      var key := decoded.value;
      if |key| == 32 { assert key == key + []; }
      if |key| == 64 { assert key == key[..32] + key[32..]; }
      if rest :| (|rest| == 0 || |rest| == 32) && decoded == Ok(seed + rest) && |seed| == 32 {
        assert (seed + rest)[..32] == seed;
        assert rest == [] ==> seed + rest == seed;
      }
    }
  }

  /** The two lines before the key are comments, and the second is the marker. */
  lemma HeaderLines()
    ensures Classify(TITLE).Comment? && Classify(MARKER) == Comment(true)
  {
    TrimKeeps(TITLE);
    TrimKeeps(MARKER);
  }

  lemma KeyLine(key: bytes)
    requires key != []
    ensures Classify(Base64.Encode(key)) == Key(Base64.Encode(key))
  {
    assert Base64.Encode(key)[0] != '#' by { Base64.EncodeSymbols(key); }
    SanitizedBase64(key);
  }

  lemma ThirdLineFound(kinds: seq<LineKind>)
    requires |kinds| == 3 && kinds[0].Comment? && kinds[1] == Comment(true) && kinds[2].Key?
    ensures Scan(kinds, 0, false) == Ok((kinds[2].text, true))
  {
    assert MarkerAmong(kinds, 0, 2);
    ScanFinds(kinds, 0, false, 2);
  }

  lemma KeyFileParses(key: bytes)
    requires key != []
    ensures Parse(KeyFile(key)) == Ok((Base64.Encode(key), true))
  {
    KeyFileLines(key);
    HeaderLines();
    KeyLine(key);
    ThirdLineFound(Kinds(Lines(KeyFile(key))));
  }

  lemma LoadedSeed(content: string, text: string, key: bytes)
    requires Parse(content) == Ok((text, true)) && DecodeKeyMaterial(text) == Ok(key)
    ensures LoadKey(content) == WithSeed(Ok(key), true)
  {
  }

  /** Main result. The file written for any 32-byte seed loads to that seed with the flag set, whatever its base64 text
      begins with; and so does a file holding a 64-byte key, to its first half. */
  lemma KeyFileRoundTrip(key: bytes)
    requires |key| == SEED_LEN || |key| == 2 * SEED_LEN
    ensures LoadKey(KeyFile(key)) == Ok((key[..SEED_LEN], true))
  {
    KeyFileParses(key);
    KeyTextRoundTrip(key);
    LoadedSeed(KeyFile(key), Base64.Encode(key), key);
    assert key[..|key|] == key;
  }
}
