/**
 Corpus intake requests travel as JSON with base64 contents.  The HTTP body
 limit is meant to admit every request the parsers accept within the expanded
 byte allowance; this module proves when it does.
 */
module CorpusIntake {
  import opened Wrappers
  import opened Text

  const MAX_ARCHIVE_BYTES: nat := 512 * 1024 * 1024
  const MAX_EXPANDED_BYTES: nat := 512 * 1024 * 1024
  const MAX_FILE_BYTES: nat := 512 * 1024 * 1024
  const MAX_FILE_COUNT: nat := 4096
  const MAX_PATH_LENGTH: nat := 240
  const MAX_MEDIA_LENGTH: nat := 128

  function Base64LengthForBytes(byteLength: nat): nat {
    4 * ((byteLength + 2) / 3)
  }

  const HTTP_BODY_LIMIT: nat :=
    Base64LengthForBytes(MAX_EXPANDED_BYTES) + MAX_FILE_COUNT * (MAX_PATH_LENGTH * 6 + 512) + 4096

  // ----- base64 (section 4 of RFC 4648) ---------------------------------------------------------

  newtype Byte = x: int | 0 <= x < 256

  function Base64Char(six: nat): char
    requires six < 64
  {
    if six < 26 then 'A' + six as char
    else if six < 52 then 'a' + (six - 26) as char
    else if six < 62 then '0' + (six - 52) as char
    else if six == 62 then '+' else '/'
  }

  function Chars(a: nat, b: nat, c: nat, d: nat): (s: string)
    requires a < 64 && b < 64 && c < 64 && d < 64
    ensures |s| == 4
  {
    [Base64Char(a), Base64Char(b), Base64Char(c), Base64Char(d)]
  }

  /** The four characters of a group of 24 bits. */
  function Group(n: nat): (s: string)
    requires n < 16777216
    ensures |s| == 4
  {
    Chars(n / 262144, n / 4096 % 64, n / 64 % 64, n % 64)
  }

  /** The 24 bits of the first three bytes. */
  function Three(bytes: seq<Byte>): (n: nat)
    requires |bytes| > 2
    ensures n < 16777216
  {
    bytes[0] as nat * 65536 + bytes[1] as nat * 256 + bytes[2] as nat
  }

  function TwoChars(a: nat, b: nat): (s: string)
    requires a < 64 && b < 64
    ensures |s| == 4
  {
    [Base64Char(a), Base64Char(b), '=', '=']
  }

  function ThreeChars(a: nat, b: nat, c: nat): (s: string)
    requires a < 64 && b < 64 && c < 64
    ensures |s| == 4
  {
    [Base64Char(a), Base64Char(b), Base64Char(c), '=']
  }

  /** A last group of 8 bits, filled up with four zero bits. */
  function LastOne(m: nat): (s: string)
    requires m < 256
    ensures |s| == 4
  {
    TwoChars(m * 16 / 64, m * 16 % 64)
  }

  /** A last group of 16 bits, filled up with two zero bits. */
  function LastTwo(m: nat): (s: string)
    requires m < 65536
    ensures |s| == 4
  {
    ThreeChars(m * 4 / 4096, m * 4 / 64 % 64, m * 4 % 64)
  }

  /** Four characters per group of three bytes; a short last group is padded. */
  function Base64(bytes: seq<Byte>): string {
    if |bytes| == 0 then ""
    else if |bytes| == 1 then LastOne(bytes[0] as nat)
    else if |bytes| == 2 then LastTwo(bytes[0] as nat * 256 + bytes[1] as nat)
    else Group(Three(bytes)) + Base64(bytes[3..])
  }

  /** The contract's length formula is the exact length of the encoding. */
  lemma {:induction false} Base64LengthExact(bytes: seq<Byte>)
    ensures |Base64(bytes)| == Base64LengthForBytes(|bytes|)
  {
    if |bytes| > 2 {
      Base64LengthExact(bytes[3..]);
      assert (|bytes| - 3 + 2) / 3 + 1 == (|bytes| + 2) / 3;
    }
  }

  /** The value a character of the alphabet stands for. */
  function Base64Value(c: char): Option<nat> {
    if 'A' <= c <= 'Z' then Some(c as int - 'A' as int)
    else if 'a' <= c <= 'z' then Some(c as int - 'a' as int + 26)
    else if '0' <= c <= '9' then Some(c as int - '0' as int + 52)
    else if c == '+' then Some(62)
    else if c == '/' then Some(63)
    else None
  }

  function Quad(a: nat, b: nat, c: nat, d: nat): nat {
    262144 * a + 4096 * b + 64 * c + d
  }

  function ByteOf(n: nat): Byte {
    (n % 256) as Byte
  }

  /** The three bytes of 24 bits. */
  function Bytes3(n: nat): (bytes: seq<Byte>)
    ensures |bytes| == 3
  {
    [ByteOf(n / 65536), ByteOf(n / 256), ByteOf(n)]
  }

  /** Reads canonical base64 four characters at a time; padding only ends the text. */
  function DecodeBase64(s: string): Option<seq<Byte>> {
    if s == "" then Some([])
    else if |s| < 4 then None
    else
      var a, b, c, d := Base64Value(s[0]), Base64Value(s[1]), Base64Value(s[2]), Base64Value(s[3]);
      if a.None? || b.None? then None
      else if |s| == 4 && s[2] == '=' && s[3] == '=' then
        var n := Quad(a.value, b.value, 0, 0);
        if n % 65536 == 0 then Some([ByteOf(n / 65536)]) else None
      else if c.None? then None
      else if |s| == 4 && s[3] == '=' then
        var n := Quad(a.value, b.value, c.value, 0);
        if n % 256 == 0 then Some([ByteOf(n / 65536), ByteOf(n / 256)]) else None
      else if d.None? then None
      else
        var n := Quad(a.value, b.value, c.value, d.value);
        match DecodeBase64(s[4..])
        case None => None
        case Some(rest) => Some(Bytes3(n) + rest)
  }

  lemma Base64CharReads(six: nat)
    requires six < 64
    ensures Base64Value(Base64Char(six)) == Some(six) && Base64Char(six) != '='
  {
  }

  lemma SextetsJoin(n: nat)
    requires n < 16777216
    ensures n / 262144 < 64 && Quad(n / 262144, n / 4096 % 64, n / 64 % 64, n % 64) == n
  {
    assert n / 64 == 64 * (n / 64 / 64) + n / 64 % 64 && n / 64 / 64 == n / 4096;
    assert n / 4096 == 64 * (n / 4096 / 64) + n / 4096 % 64 && n / 4096 / 64 == n / 262144;
  }

  lemma BytesJoin(x: Byte, y: Byte, z: Byte)
    ensures var n := x as nat * 65536 + y as nat * 256 + z as nat;
            n < 16777216 && ByteOf(n / 65536) == x && ByteOf(n / 256) == y && ByteOf(n) == z
  {
  }

  lemma DecodeChars(a: nat, b: nat, c: nat, d: nat, rest: string)
    requires a < 64 && b < 64 && c < 64 && d < 64 && DecodeBase64(rest).Some?
    ensures DecodeBase64(Chars(a, b, c, d) + rest) == Some(Bytes3(Quad(a, b, c, d)) + DecodeBase64(rest).value)
  {
    Base64CharReads(a);
    Base64CharReads(b);
    Base64CharReads(c);
    Base64CharReads(d);
    assert (Chars(a, b, c, d) + rest)[4..] == rest;
  }

  lemma DecodeGroup(n: nat, rest: string)
    requires n < 16777216 && DecodeBase64(rest).Some?
    ensures DecodeBase64(Group(n) + rest) == Some(Bytes3(n) + DecodeBase64(rest).value)
  {
    SextetsJoin(n);
    DecodeChars(n / 262144, n / 4096 % 64, n / 64 % 64, n % 64, rest);
  }

  lemma DecodeTwoChars(a: nat, b: nat)
    requires a < 64 && b < 64 && Quad(a, b, 0, 0) % 65536 == 0
    ensures DecodeBase64(TwoChars(a, b)) == Some([ByteOf(Quad(a, b, 0, 0) / 65536)])
  {
    Base64CharReads(a);
    Base64CharReads(b);
  }

  lemma OneJoin(m: nat)
    requires m < 256
    ensures m * 16 / 64 < 64 && Quad(m * 16 / 64, m * 16 % 64, 0, 0) == m * 65536
  {
    var n := m * 16;
    assert n == 64 * (n / 64) + n % 64;
  }

  lemma DecodeOne(m: nat)
    requires m < 256
    ensures DecodeBase64(LastOne(m)) == Some([ByteOf(m)])
  {
    OneJoin(m);
    assert m * 65536 % 65536 == 0 && m * 65536 / 65536 == m;
    DecodeTwoChars(m * 16 / 64, m * 16 % 64);
  }

  lemma DecodeThreeChars(a: nat, b: nat, c: nat)
    requires a < 64 && b < 64 && c < 64 && Quad(a, b, c, 0) % 256 == 0
    ensures var n := Quad(a, b, c, 0);
            DecodeBase64(ThreeChars(a, b, c)) == Some([ByteOf(n / 65536), ByteOf(n / 256)])
  {
    Base64CharReads(a);
    Base64CharReads(b);
    Base64CharReads(c);
  }

  lemma TwoJoin(m: nat)
    requires m < 65536
    ensures var n := m * 4;
            n / 4096 < 64 && Quad(n / 4096, n / 64 % 64, n % 64, 0) == m * 256
  {
    var n := m * 4;
    assert n / 64 == 64 * (n / 64 / 64) + n / 64 % 64 && n / 64 / 64 == n / 4096;
    assert n == 64 * (n / 64) + n % 64;
  }

  lemma DecodeTwo(m: nat)
    requires m < 65536
    ensures DecodeBase64(LastTwo(m)) == Some([ByteOf(m / 256), ByteOf(m)])
  {
    TwoJoin(m);
    assert m * 256 % 256 == 0 && m * 256 / 256 == m;
    assert m * 256 / 65536 == m / 256;
    DecodeThreeChars(m * 4 / 4096, m * 4 / 64 % 64, m * 4 % 64);
  }

  lemma ThreeBack(bytes: seq<Byte>)
    requires |bytes| > 2
    ensures Bytes3(Three(bytes)) + bytes[3..] == bytes
  {
    BytesJoin(bytes[0], bytes[1], bytes[2]);
    assert Bytes3(Three(bytes)) == bytes[..3];
  }

  lemma TwoBack(x: Byte, y: Byte)
    ensures var m := x as nat * 256 + y as nat;
            ByteOf(m / 256) == x && ByteOf(m) == y
  {
  }

  lemma OneBack(x: Byte)
    ensures ByteOf(x as nat) == x
  {
  }

  lemma ShortTexts(bytes: seq<Byte>)
    ensures |bytes| == 1 ==> Base64(bytes) == LastOne(bytes[0] as nat)
    ensures |bytes| == 2 ==> Base64(bytes) == LastTwo(bytes[0] as nat * 256 + bytes[1] as nat)
  {
  }

  lemma DecodeOfOne(bytes: seq<Byte>)
    requires |bytes| == 1
    ensures DecodeBase64(Base64(bytes)) == Some(bytes)
  {
    var m := bytes[0] as nat;
    ShortTexts(bytes);
    OneBack(bytes[0]);
    DecodeOne(m);
    assert [ByteOf(m)] == bytes;
  }

  lemma DecodeOfTwo(bytes: seq<Byte>)
    requires |bytes| == 2
    ensures DecodeBase64(Base64(bytes)) == Some(bytes)
  {
    var m := bytes[0] as nat * 256 + bytes[1] as nat;
    ShortTexts(bytes);
    TwoBack(bytes[0], bytes[1]);
    DecodeTwo(m);
    assert [ByteOf(m / 256), ByteOf(m)] == bytes;
  }

  lemma DecodeLong(bytes: seq<Byte>)
    requires |bytes| > 2 && DecodeBase64(Base64(bytes[3..])) == Some(bytes[3..])
    ensures DecodeBase64(Base64(bytes)) == Some(bytes)
  {
    DecodeGroup(Three(bytes), Base64(bytes[3..]));
    ThreeBack(bytes);
  }

  /** Decoding undoes encoding, for every byte string. */
  lemma {:induction false} DecodeUndoesBase64(bytes: seq<Byte>)
    ensures DecodeBase64(Base64(bytes)) == Some(bytes)
  {
    if |bytes| == 1 {
      DecodeOfOne(bytes);
    } else if |bytes| == 2 {
      DecodeOfTwo(bytes);
    } else if |bytes| > 2 {
      DecodeUndoesBase64(bytes[3..]);
      DecodeLong(bytes);
    }
  }

  // ----- JSON strings (section 7 of RFC 8259) -----------------------------------------------------

  /**
   One way to write one character: raw UTF-8 of one to four bytes, a two-character
   escape, or a `\u` escape of one UTF-16 unit.  Four raw bytes stand for a
   surrogate pair, which is two units.
   */
  datatype Piece = Raw1 | Raw2 | Raw3 | Raw4 | Short | Hex

  function Size(p: Piece): nat {
    match p
    case Raw1 => 1
    case Raw2 => 2
    case Raw3 => 3
    case Raw4 => 4
    case Short => 2
    case Hex => 6
  }

  function Units(p: Piece): nat {
    if p.Raw4? then 2 else 1
  }

  predicate IsRaw(p: Piece) {
    !p.Short? && !p.Hex?
  }

  /** A string as it is written in the body, without its quotes. */
  type Written = seq<Piece>

  function BytesOf(w: Written): nat {
    if w == [] then 0 else Size(w[0]) + BytesOf(w[1..])
  }

  /** `value.length`: UTF-16 units after decoding. */
  function LengthOf(w: Written): nat {
    if w == [] then 0 else Units(w[0]) + LengthOf(w[1..])
  }

  lemma {:induction false} WrittenBound(w: Written)
    ensures BytesOf(w) <= 6 * LengthOf(w)
    ensures (forall i :: 0 <= i < |w| ==> IsRaw(w[i])) ==> BytesOf(w) <= 3 * LengthOf(w)
  {
    if w != [] {
      WrittenBound(w[1..]);
      assert forall i :: 0 <= i < |w[1..]| ==> w[1..][i] == w[i + 1];
    }
  }

  // ----- requests ----------------------------------------------------------------------------------

  datatype Origin = Files | Zip | Directory
  datatype Privacy = OwnerOnly | ShareSafe

  datatype File = File(path: Written, media: Written, content: seq<Byte>)

  /** `token` is the preview token of a commit request. */
  datatype Request = Request(
    token: Option<string>, origin: Origin, source: Written, privacy: Privacy, key: string,
    files: seq<File>, archive: Option<seq<Byte>>)

  /** assertOriginRepresentation */
  function CheckOrigin(r: Request): Result<()> {
    if r.origin.Zip? then
      if r.archive.None? || r.archive.value == [] then Err("archiveBase64")
      else if r.files != [] then Err("files")
      else if |Base64(r.archive.value)| > Base64LengthForBytes(MAX_ARCHIVE_BYTES) then Err("archiveBase64")
      else Ok(())
    else if r.archive.Some? then Err("archiveBase64")
    else if r.files == [] then Err("files")
    else if |r.files| > MAX_FILE_COUNT then Err("files")
    else if exists i :: 0 <= i < |r.files| && !FileOk(r.files[i]) then Err("files")
    else Ok(())
  }

  predicate FileOk(f: File) {
    && LengthOf(f.path) <= MAX_PATH_LENGTH
    && LengthOf(f.media) <= MAX_MEDIA_LENGTH
    && |Base64(f.content)| <= Base64LengthForBytes(MAX_FILE_BYTES)
  }

  /** The preview and commit parsers; a blank source label is rejected as empty. */
  predicate Accepted(r: Request) {
    && 0 < LengthOf(r.source) <= MAX_PATH_LENGTH
    && IsToken(r.key, 7, 127)
    && (r.token.Some? ==> IsHex64(r.token.value))
    && CheckOrigin(r).Ok?
  }

  /** A cap on the encoded length admits one byte more than the cap on bytes it was made from. */
  lemma CapExact(bytes: seq<Byte>)
    ensures |Base64(bytes)| <= Base64LengthForBytes(512 * 1024 * 1024) <==> |bytes| <= 512 * 1024 * 1024 + 1
  {
    Base64LengthExact(bytes);
    CapArithmetic(|bytes|);
  }

  lemma CapArithmetic(n: nat)
    ensures Base64LengthForBytes(n) <= Base64LengthForBytes(536870912) <==> n <= 536870913
  {
    assert Base64LengthForBytes(536870912) == 4 * 178956971;
    assert (n + 2) / 3 <= 178956971 <==> n + 2 < 3 * 178956972;
  }

  /** What each origin may carry. */
  lemma OriginExact(r: Request)
    ensures CheckOrigin(r).Ok?
       <==> if r.origin == Zip then
              r.files == [] && r.archive.Some? && 1 <= |r.archive.value| <= 512 * 1024 * 1024 + 1
            else
              && r.archive == None && 1 <= |r.files| <= 4096
              && forall i :: 0 <= i < |r.files| ==>
                   && LengthOf(r.files[i].path) <= 240 && LengthOf(r.files[i].media) <= 128
                   && |r.files[i].content| <= 512 * 1024 * 1024 + 1
  {
    if r.origin.Zip? {
      if r.archive.Some? { CapExact(r.archive.value); }
    } else {
      forall i | 0 <= i < |r.files|
        ensures FileOk(r.files[i])
           <==> && LengthOf(r.files[i].path) <= 240 && LengthOf(r.files[i].media) <= 128
                && |r.files[i].content| <= 512 * 1024 * 1024 + 1
      {
        CapExact(r.files[i].content);
      }
    }
  }

  /** The preview and commit parsers, check by check. */
  function ParseRequest(r: Request): Result<Request> {
    if LengthOf(r.source) == 0 then Err("sourceLabel")
    else if LengthOf(r.source) > 240 then Err("sourceLabel")
    else if !IsToken(r.key, 7, 127) then Err("idempotencyKey")
    else if r.token.Some? && !IsHex64(r.token.value) then Err("previewToken")
    else
      var _ :- CheckOrigin(r);
      Ok(r)
  }

  lemma ParseExact(r: Request)
    ensures ParseRequest(r).Ok? <==> Accepted(r)
  {
  }

  // ----- the body ------------------------------------------------------------------------------------

  const FILE_OPEN := "{\"relativePath\":\""
  const FILE_MEDIA := "\",\"mediaType\":\""
  const FILE_CONTENT := "\",\"contentBase64\":\""
  const FILE_CLOSE := "\"}"

  function FileBytes(f: File): nat {
    |FILE_OPEN| + BytesOf(f.path) + |FILE_MEDIA| + BytesOf(f.media) + |FILE_CONTENT| + |Base64(f.content)| + |FILE_CLOSE|
  }

  /** Array elements with a comma after each but the last. */
  function FilesBytes(files: seq<File>): nat {
    if files == [] then 0
    else FileBytes(files[0]) + (if |files| > 1 then 1 else 0) + FilesBytes(files[1..])
  }

  function OriginName(o: Origin): string {
    match o
    case Files => "files"
    case Zip => "zip"
    case Directory => "directory"
  }

  function PrivacyName(p: Privacy): string {
    match p
    case OwnerOnly => "owner_only"
    case ShareSafe => "share_safe"
  }

  const HEAD_PREVIEW := "{\"schemaId\":\"cd-collab.corpus_intake_preview.v1\",\"origin\":\""
  const HEAD_COMMIT := "{\"schemaId\":\"cd-collab.corpus_intake_commit.v1\",\"origin\":\""
  const HEAD_SOURCE := "\",\"sourceLabel\":\""
  const HEAD_PRIVACY := "\",\"privacyClass\":\""
  const HEAD_KEY := "\",\"idempotencyKey\":\""
  const HEAD_TOKEN := "\",\"previewToken\":\""
  const HEAD_FILES := "\",\"files\":["
  const TAIL := "],\"archiveBase64\":"

  function HeadBytes(r: Request): nat {
    (if r.token.Some? then |HEAD_COMMIT| else |HEAD_PREVIEW|) + |OriginName(r.origin)|
    + |HEAD_SOURCE| + BytesOf(r.source) + |HEAD_PRIVACY| + |PrivacyName(r.privacy)| + |HEAD_KEY| + |r.key|
    + (if r.token.Some? then |HEAD_TOKEN| + |r.token.value| else 0) + |HEAD_FILES|
  }

  function TailBytes(r: Request): nat {
    |TAIL| + (if r.archive.Some? then 2 + |Base64(r.archive.value)| else |"null"|) + |"}"|
  }

  /** The size of the compact JSON body. */
  function BodyBytes(r: Request): nat {
    HeadBytes(r) + FilesBytes(r.files) + TailBytes(r)
  }

  // ----- the body as text --------------------------------------------------------------------------------

  /** Some text of the size of one written character; a `\\u` escape as it looks. */
  function PieceText(p: Piece): string {
    match p
    case Raw1 => "."
    case Raw2 => ".."
    case Raw3 => "..."
    case Raw4 => "...."
    case Short => "\\n"
    case Hex => "\\u0000"
  }

  function WrittenText(w: Written): string {
    if w == [] then "" else PieceText(w[0]) + WrittenText(w[1..])
  }

  function FileText(f: File): string {
    "{\"relativePath\":\"" + WrittenText(f.path) + "\",\"mediaType\":\"" + WrittenText(f.media)
    + "\",\"contentBase64\":\"" + Base64(f.content) + "\"}"
  }

  function FilesText(files: seq<File>): string {
    if files == [] then ""
    else if |files| == 1 then FileText(files[0])
    else FileText(files[0]) + "," + FilesText(files[1..])
  }

  /** The compact JSON text of a request, its members in the order of the request shape. */
  function HeadText(r: Request): string {
    "{\"schemaId\":\"cd-collab.corpus_intake_" + (if r.token.Some? then "commit" else "preview") + ".v1\",\"origin\":\""
    + OriginName(r.origin) + "\",\"sourceLabel\":\"" + WrittenText(r.source) + "\",\"privacyClass\":\""
    + PrivacyName(r.privacy) + "\",\"idempotencyKey\":\"" + r.key
    + (if r.token.Some? then "\",\"previewToken\":\"" + r.token.value else "") + "\",\"files\":["
  }

  function TailText(r: Request): string {
    "],\"archiveBase64\":" + (if r.archive.Some? then "\"" + Base64(r.archive.value) + "\"" else "null") + "}"
  }

  lemma {:induction false} WrittenTextSize(w: Written)
    ensures |WrittenText(w)| == BytesOf(w)
  {
    if w != [] { WrittenTextSize(w[1..]); }
  }

  lemma FileTextSize(f: File)
    ensures |FileText(f)| == FileBytes(f)
  {
    WrittenTextSize(f.path);
    WrittenTextSize(f.media);
  }

  lemma {:induction false} FilesTextSize(files: seq<File>)
    ensures |FilesText(files)| == FilesBytes(files)
  {
    if files != [] {
      FileTextSize(files[0]);
      FilesTextSize(files[1..]);
    }
  }

  /** The size counted for a body is the length of its text. */
  lemma BodyTextSize(r: Request)
    ensures |HeadText(r) + FilesText(r.files) + TailText(r)| == BodyBytes(r)
  {
    WrittenTextSize(r.source);
    FilesTextSize(r.files);
    HeadTextSize(r);
  }

  lemma HeadTextSize(r: Request)
    requires |WrittenText(r.source)| == BytesOf(r.source)
    ensures |HeadText(r)| == HeadBytes(r)
  {
    assert |"{\"schemaId\":\"cd-collab.corpus_intake_" + "commit" + ".v1\",\"origin\":\""| == |HEAD_COMMIT|;
    assert |"{\"schemaId\":\"cd-collab.corpus_intake_" + "preview" + ".v1\",\"origin\":\""| == |HEAD_PREVIEW|;
  }

  // ----- the bound -------------------------------------------------------------------------------------

  function Decoded(files: seq<File>): nat {
    if files == [] then 0 else |files[0].content| + Decoded(files[1..])
  }

  /** A media type written in at most `m` bytes. */
  predicate MediaWithin(f: File, m: nat) {
    BytesOf(f.media) <= m
  }

  /** The longest written media type for which the body limit is safe. */
  const MEDIA_BUDGET: nat := 455

  lemma FileFrame()
    ensures |FILE_OPEN| + |FILE_MEDIA| + |FILE_CONTENT| + |FILE_CLOSE| == 53
  {
    assert |FILE_OPEN| == 17 && |FILE_MEDIA| == 15 && |FILE_CONTENT| == 19 && |FILE_CLOSE| == 2;
  }

  lemma FileBound(f: File)
    requires FileOk(f) && MediaWithin(f, MEDIA_BUDGET)
    ensures 3 * (FileBytes(f) + 1) <= 3 * 1952 + 4 * |f.content|
  {
    FileFrame();
    WrittenBound(f.path);
    Base64LengthExact(f.content);
    assert 3 * Base64LengthForBytes(|f.content|) <= 4 * (|f.content| + 2);
  }

  lemma {:induction false} FilesBound(files: seq<File>)
    requires forall i :: 0 <= i < |files| ==> FileOk(files[i]) && MediaWithin(files[i], MEDIA_BUDGET)
    ensures 3 * FilesBytes(files) <= 5856 * |files| + 4 * Decoded(files)
  {
    if files != [] {
      var rest := files[1..];
      assert forall i :: 0 <= i < |rest| ==> rest[i] == files[i + 1];
      FilesBound(rest);
      assert FileOk(files[0]) && MediaWithin(files[0], MEDIA_BUDGET);
      FileBound(files[0]);
    }
  }

  lemma HeadBound(r: Request)
    requires Accepted(r)
    ensures HeadBytes(r) <= 1440 + 600
  {
    WrittenBound(r.source);
    assert |HEAD_PREVIEW| <= 70 && |HEAD_COMMIT| <= 70;
    assert |HEAD_SOURCE| <= 20 && |HEAD_PRIVACY| <= 20 && |HEAD_KEY| <= 25 && |HEAD_TOKEN| <= 25 && |HEAD_FILES| <= 15;
    assert |OriginName(r.origin)| <= 9 && |PrivacyName(r.privacy)| == 10;
  }

  /** An accepted request whose direct files decode to at most the expanded byte allowance. */
  predicate WithinAllowance(r: Request) {
    Accepted(r) && Decoded(r.files) <= MAX_EXPANDED_BYTES
  }

  predicate MediaAllWithin(r: Request, m: nat) {
    forall i :: 0 <= i < |r.files| ==> MediaWithin(r.files[i], m)
  }

  lemma BudgetFits(r: Request)
    requires WithinAllowance(r) && MediaAllWithin(r, MEDIA_BUDGET)
    ensures BodyBytes(r) <= HTTP_BODY_LIMIT
  {
    HeadBound(r);
    assert |TAIL| == 18 && |"null"| == 4 && |"}"| == 1;
    if !r.origin.Zip? {
      forall i | 0 <= i < |r.files| ensures FileOk(r.files[i]) {
      }
      FilesBound(r.files);
      assert MAX_PATH_LENGTH * 6 + 512 == 1952;
      assert 3 * Base64LengthForBytes(MAX_EXPANDED_BYTES) >= 4 * MAX_EXPANDED_BYTES;
    }
  }

  predicate MediaUnescaped(f: File) {
    forall i :: 0 <= i < |f.media| ==> IsRaw(f.media[i])
  }

  /**
   In particular, media types that need no escaping always fit, for any number
   of files and any escaping of paths and source label.
   */
  lemma BodyFits(r: Request)
    requires WithinAllowance(r) && forall i :: 0 <= i < |r.files| ==> MediaUnescaped(r.files[i])
    ensures BodyBytes(r) <= HTTP_BODY_LIMIT
  {
    forall i | 0 <= i < |r.files| ensures MediaWithin(r.files[i], MEDIA_BUDGET) {
      assert FileOk(r.files[i]) && MediaUnescaped(r.files[i]);
      WrittenBound(r.files[i].media);
    }
    BudgetFits(r);
  }

  // ----- one byte more is too much -------------------------------------------------------------------

  function Repeat(p: Piece, n: nat): (w: Written)
    ensures |w| == n && forall i :: 0 <= i < n ==> w[i] == p
  {
    seq(n, _ => p)
  }

  lemma {:induction false} RepeatSizes(n: nat)
    ensures BytesOf(Repeat(Hex, n)) == 6 * n && LengthOf(Repeat(Hex, n)) == n
  {
    if n > 0 {
      RepeatSizes(n - 1);
      assert Repeat(Hex, n)[1..] == Repeat(Hex, n - 1);
    }
  }

  /** A fully escaped path and a media type written in 456 bytes. */
  ghost predicate IsHeavy(f: File) {
    FileBytes(f) == 1949 + |Base64(f.content)| && FileOk(f) && MediaWithin(f, 456)
  }

  ghost function HeavyFile(content: seq<Byte>): File {
    File(Repeat(Hex, MAX_PATH_LENGTH), Repeat(Hex, 76), content)
  }

  lemma SizesMakeHeavy(f: File)
    requires LengthOf(f.path) == 240 && BytesOf(f.path) == 1440
    requires LengthOf(f.media) == 76 && BytesOf(f.media) == 456
    requires |f.content| <= MAX_FILE_BYTES
    ensures IsHeavy(f)
  {
    FileFrame();
    Base64LengthExact(f.content);
    Base64Monotone(|f.content|, MAX_FILE_BYTES);
  }

  lemma Base64Monotone(a: nat, b: nat)
    requires a <= b
    ensures Base64LengthForBytes(a) <= Base64LengthForBytes(b)
  {
  }

  lemma HeavyFileIsHeavy(content: seq<Byte>)
    requires |content| <= MAX_FILE_BYTES
    ensures IsHeavy(HeavyFile(content))
  {
    RepeatSizes(MAX_PATH_LENGTH);
    RepeatSizes(76);
    SizesMakeHeavy(HeavyFile(content));
  }

  /** Heavy files of one byte each take 1954 bytes apiece, with a comma between them. */
  lemma {:induction false} SmallFiles(files: seq<File>)
    requires forall i :: 0 <= i < |files| ==> IsHeavy(files[i]) && |files[i].content| == 1
    ensures FilesBytes(files) >= 1954 * |files| - 1
    ensures Decoded(files) == |files|
  {
    if files != [] {
      var rest := files[1..];
      assert forall i :: 0 <= i < |rest| ==> rest[i] == files[i + 1];
      SmallFiles(rest);
      assert IsHeavy(files[0]) && |files[0].content| == 1;
      Base64LengthExact(files[0].content);
    }
  }

  ghost function SmallOnes(): (files: seq<File>)
    ensures |files| == MAX_FILE_COUNT - 1 && forall i :: 0 <= i < |files| ==> files[i] == HeavyFile([0])
  {
    seq(MAX_FILE_COUNT - 1, _ => HeavyFile([0]))
  }

  /**
   The heaviest request: one file holds the allowance but for one byte in each
   of the others; every path and the source label are fully escaped.
   */
  ghost function HeaviestRequest(content: seq<Byte>): Request {
    Request(None, Files, Repeat(Hex, MAX_PATH_LENGTH), ShareSafe, "abcdefgh",
            [HeavyFile(content)] + SmallOnes(), None)
  }

  lemma HeaviestAccepted(first: File, rest: seq<File>)
    requires IsHeavy(first) && |rest| == MAX_FILE_COUNT - 1 && forall i :: 0 <= i < |rest| ==> IsHeavy(rest[i])
    ensures var r := Request(None, Files, Repeat(Hex, MAX_PATH_LENGTH), ShareSafe, "abcdefgh", [first] + rest, None);
            Accepted(r) && MediaAllWithin(r, 456) && HeadBytes(r) >= 1440
  {
    RepeatSizes(MAX_PATH_LENGTH);
    assert IsToken("abcdefgh", 7, 127);
  }

  lemma HeavyOverflows(r: Request, first: File, rest: seq<File>)
    requires r.files == [first] + rest && |rest| == MAX_FILE_COUNT - 1
    requires |first.content| == MAX_EXPANDED_BYTES - |rest| && HeadBytes(r) >= 1440
    requires IsHeavy(first) && forall i :: 0 <= i < |rest| ==> IsHeavy(rest[i]) && |rest[i].content| == 1
    ensures Decoded(r.files) == MAX_EXPANDED_BYTES && BodyBytes(r) > HTTP_BODY_LIMIT
  {
    assert r.files[1..] == rest;
    SmallFiles(rest);
    Base64LengthExact(first.content);
    assert FilesBytes(r.files) == FileBytes(first) + 1 + FilesBytes(rest);
    LimitInNumbers();
  }

  lemma LimitInNumbers()
    ensures Base64LengthForBytes(MAX_EXPANDED_BYTES - 4095) == 715822424 && HTTP_BODY_LIMIT == 723827372
  {
  }

  /** With media types of 456 written bytes an accepted request within the allowance exceeds the limit. */
  lemma HeaviestOverflows(content: seq<Byte>)
    requires |content| == MAX_EXPANDED_BYTES - 4095
    ensures var r := HeaviestRequest(content);
            WithinAllowance(r) && MediaAllWithin(r, 456) && BodyBytes(r) > HTTP_BODY_LIMIT
  {
    HeavyFileIsHeavy(content);
    HeavyFileIsHeavy([0]);
    var first, rest := HeavyFile(content), SmallOnes();
    HeaviestAccepted(first, rest);
    HeavyOverflows(HeaviestRequest(content), first, rest);
  }

  /**
   The body limit admits every accepted request within the allowance whose media
   types are written in at most `m` bytes each, exactly when `m` is at most 455.
   */
  lemma MediaBudgetExact(m: nat)
    ensures (forall r :: WithinAllowance(r) && MediaAllWithin(r, m) ==> BodyBytes(r) <= HTTP_BODY_LIMIT)
       <==> m <= MEDIA_BUDGET
  {
    if m <= MEDIA_BUDGET {
      forall r | WithinAllowance(r) && MediaAllWithin(r, m) ensures BodyBytes(r) <= HTTP_BODY_LIMIT {
        assert MediaAllWithin(r, MEDIA_BUDGET);
        BudgetFits(r);
      }
    } else {
      var content := seq(MAX_EXPANDED_BYTES - 4095, _ => 0 as Byte);
      HeaviestOverflows(content);
      assert MediaAllWithin(HeaviestRequest(content), m);
    }
  }
}
