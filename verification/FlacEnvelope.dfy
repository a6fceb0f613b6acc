/** The two scanners for an ID3v2 prefix in front of a FLAC stream. */
module FlacScanners {
  import opened Wrappers
  import opened Bytes

  const FLAC_MARKER: seq<Byte> := [0x66, 0x4c, 0x61, 0x43]
  const ID3_MARKER: seq<Byte> := [0x49, 0x44, 0x33]
  const TAG_MARKER: seq<Byte> := [0x54, 0x41, 0x47]
  const ID3V2_HEADER_LEN := 10
  const ID3V2_FOOTER_LEN := 10
  const ID3V1_LEN := 128
  const STREAMINFO_LEN := 34
  const MINIMUM_FLAC_LEN := 4 + 4 + STREAMINFO_LEN
  const MAX_PREFIX_LEN := 16 * 1024 * 1024
  const TWO_TO_THE_28 := 0x1000_0000
  const TWO_TO_THE_36 := 0x10_0000_0000

  /** The file has `marker` at `at`. */
  predicate MarkerAt(file: seq<Byte>, at: nat, marker: seq<Byte>) {
    at + |marker| <= |file| && file[at..at + |marker|] == marker
  }

  // ---- Synchsafe sizes: seven bits to the byte. ----

  function Synchsafe(n: nat): (b: seq<Byte>)
    requires n < TWO_TO_THE_28
    ensures |b| == 4
  {
    SevenBitDigits(n);
    [n / 128 / 128 / 128, n / 128 / 128 % 128, n / 128 % 128, n % 128]
  }

  function SynchsafeAt(file: seq<Byte>, at: nat): Option<nat>
    requires at + 4 <= |file|
  {
    var a: int, b: int, c: int, d: int := file[at], file[at + 1], file[at + 2], file[at + 3];
    if a >= 128 || b >= 128 || c >= 128 || d >= 128 then None else Some(2097152 * a + 16384 * b + 128 * c + d)
  }

  lemma SevenBitDigits(n: nat)
    ensures n == 2097152 * (n / 128 / 128 / 128) + 16384 * (n / 128 / 128 % 128) + 128 * (n / 128 % 128) + n % 128
    ensures n < TWO_TO_THE_28 ==> n / 128 / 128 / 128 < 128
  {
    var p := n / 128;
    var q := p / 128;
    assert n == 128 * p + n % 128 && p == 128 * q + p % 128 && q == 128 * (q / 128) + q % 128;
  }

  lemma DigitsAreUnique(a: int, b: int, c: int, d: int, n: nat)
    requires 0 <= a < 128 && 0 <= b < 128 && 0 <= c < 128 && 0 <= d < 128
    requires n == 2097152 * a + 16384 * b + 128 * c + d
    ensures n < TWO_TO_THE_28
    ensures n / 128 / 128 / 128 == a && n / 128 / 128 % 128 == b && n / 128 % 128 == c && n % 128 == d
  {
    LowDigit(n, 16384 * a + 128 * b + c, d);
    LowDigit(16384 * a + 128 * b + c, 128 * a + b, c);
    LowDigit(128 * a + b, a, b);
  }

  lemma LowDigit(n: nat, rest: nat, d: nat)
    requires d < 128 && n == 128 * rest + d
    ensures n / 128 == rest && n % 128 == d
  {}

  /** Decoding four bytes inverts encoding a 28-bit size, and accepts nothing else. */
  lemma SynchsafeInverse(file: seq<Byte>, at: nat, n: nat)
    requires at + 4 <= |file|
    ensures SynchsafeAt(file, at) == Some(n) <==> n < TWO_TO_THE_28 && file[at..at + 4] == Synchsafe(n)
  {
    var a: int, b: int, c: int, d: int := file[at], file[at + 1], file[at + 2], file[at + 3];
    assert file[at..at + 4] == [file[at], file[at + 1], file[at + 2], file[at + 3]];
    SevenBitDigits(n);
    if SynchsafeAt(file, at) == Some(n) {
      DigitsAreUnique(a, b, c, d, n);
    }
    if n < TWO_TO_THE_28 && file[at..at + 4] == Synchsafe(n) {
      var code := Synchsafe(n);
      assert a == code[0] && b == code[1] && c == code[2] && d == code[3];
    }
  }

  // ---- The scanner that routes metadata. ----

  datatype ScanError =
    | TruncatedHeader | UnsupportedVersion | MalformedSize | PrefixTooLarge | TruncatedStream | NoStreamAfterPrefix

  predicate FooterBit(file: seq<Byte>)
    requires |file| >= ID3V2_HEADER_LEN
  {
    var flags: int := file[5];
    flags / 16 % 2 == 1
  }

  /** What the routing scanner makes of a file. */
  function Detected(file: seq<Byte>): Result<Option<nat>, ScanError> {
    if |file| < 4 then Ok(None)
    else if MarkerAt(file, 0, FLAC_MARKER) then Ok(Some(0))
    else if !MarkerAt(file, 0, ID3_MARKER) then Ok(None)
    else if |file| < ID3V2_HEADER_LEN then Err(TruncatedHeader)
    else if file[3] !in {2, 3, 4} then Err(UnsupportedVersion)
    else if SynchsafeAt(file, 6).None? then Err(MalformedSize)
    else
      var footer := if file[3] == 4 && FooterBit(file) then ID3V2_FOOTER_LEN else 0;
      var offset := ID3V2_HEADER_LEN + SynchsafeAt(file, 6).value + footer;
      if offset > MAX_PREFIX_LEN then Err(PrefixTooLarge)
      else if offset + 4 > |file| then Err(TruncatedStream)
      else if MarkerAt(file, offset, FLAC_MARKER) then Ok(Some(offset)) else Err(NoStreamAfterPrefix)
  }

  /** One read into the rest of a buffer: as many bytes as the reader feels like, at least one
      unless the file is at its end. */
  function ReadCount(file: seq<Byte>, at: nat, want: nat, feels: nat): (count: nat)
    requires at <= |file| && want > 0
    ensures count <= want && at + count <= |file|
    ensures count == 0 <==> at == |file|
  {
    var most := if want <= |file| - at then want else |file| - at;
    if feels == 0 && most > 0 then 1 else if feels <= most then feels else most
  }

  /** Fill the header buffer up to `upto`, however the reads are cut. */
  method FillHeader(file: seq<Byte>, read0: nat, upto: nat, feels: nat -> nat) returns (read: nat)
    requires read0 <= upto && read0 <= |file|
    ensures read == if upto <= |file| then upto else |file|
  {
    read := read0;
    while read < upto
      invariant read <= upto && read <= |file|
    {
      var count := ReadCount(file, read, upto - read, feels(read));
      if count == 0 {
        return;
      }
      read := read + count;
    }
  }

  /** Fold the four size bytes of the header, none of which may have its top bit set. */
  method DecodeSize(file: seq<Byte>) returns (payload: Option<nat>)
    requires |file| >= ID3V2_HEADER_LEN
    ensures payload == SynchsafeAt(file, 6)
  {
    if exists k :: 6 <= k < 10 && file[k] >= 128 {
      return None;
    }
    var size: nat := 0;
    for k := 6 to 10
      invariant k == 6 ==> size == 0
      invariant k == 7 ==> size == file[6]
      invariant k == 8 ==> size == 128 * file[6] as int + file[7]
      invariant k == 9 ==> size == 16384 * file[6] as int + 128 * file[7] as int + file[8]
      invariant k == 10 ==> size == 2097152 * file[6] as int + 16384 * file[7] as int + 128 * file[8] as int + file[9]
    {
      size := size * 128 + file[k];
    }
    payload := Some(size);
  }

  method DetectFlacStreamOffset(file: seq<Byte>, feels: nat -> nat) returns (r: Result<Option<nat>, ScanError>)
    ensures r == Detected(file)
  {
    var read := FillHeader(file, 0, 4, feels);
    if read < 4 {
      return Ok(None);
    }
    if file[..4] == FLAC_MARKER {
      return Ok(Some(0));
    }
    assert file[..4][..3] == file[..3];
    if file[..3] != ID3_MARKER {
      return Ok(None);
    }
    read := FillHeader(file, read, ID3V2_HEADER_LEN, feels);
    if read < ID3V2_HEADER_LEN {
      return Err(TruncatedHeader);
    }
    var major := file[3];
    if major != 2 && major != 3 && major != 4 {
      return Err(UnsupportedVersion);
    }
    var payload := DecodeSize(file);
    if payload.None? {
      return Err(MalformedSize);
    }
    var offset := ID3V2_HEADER_LEN + payload.value + if major == 4 && FooterBit(file) then ID3V2_FOOTER_LEN else 0;
    if offset > MAX_PREFIX_LEN {
      return Err(PrefixTooLarge);
    }
    if offset + 4 > |file| {
      return Err(TruncatedStream);
    }
    r := if file[offset..offset + 4] == FLAC_MARKER then Ok(Some(offset)) else Err(NoStreamAfterPrefix);
  }

  // ---- The scanner that inspects the envelope. ----

  datatype Layout = Layout(fileLen: nat, flacOffset: nat, sampleFrames: Option<nat>, hasId3v1: bool)

  function U64BigEndian(file: seq<Byte>, at: nat): nat
    requires at + 8 <= |file|
  {
    var a: int, b: int, c: int, d: int := file[at], file[at + 1], file[at + 2], file[at + 3];
    var e: int, f: int, g: int, h: int := file[at + 4], file[at + 5], file[at + 6], file[at + 7];
    ((((((a * 256 + b) * 256 + c) * 256 + d) * 256 + e) * 256 + f) * 256 + g) * 256 + h
  }

  predicate EndsInTag(file: seq<Byte>) {
    |file| >= ID3V1_LEN && MarkerAt(file, |file| - ID3V1_LEN, TAG_MARKER)
  }

  /** A FLAC marker followed by a STREAMINFO block, section 8.2 of RFC 9639. */
  predicate StreamAt(file: seq<Byte>, at: nat) {
    && at + MINIMUM_FLAC_LEN <= |file| && MarkerAt(file, at, FLAC_MARKER)
    && file[at + 4] as int % 128 == 0 && file[at + 5] == 0 && file[at + 6] == 0 && file[at + 7] == STREAMINFO_LEN
  }

  /** The same, letter by letter. */
  lemma StreamsAreMarked(file: seq<Byte>, at: nat)
    ensures StreamAt(file, at) <==>
            && at + 42 <= |file|
            && file[at] as int == 'f' as int && file[at + 1] as int == 'L' as int
            && file[at + 2] as int == 'a' as int && file[at + 3] as int == 'C' as int
            && file[at + 4] in {0, 128}
            && file[at + 5] as int * 65536 + file[at + 6] as int * 256 + file[at + 7] as int == 34
  {
    if at + 42 <= |file| {
      assert file[at..at + 4] == [file[at], file[at + 1], file[at + 2], file[at + 3]];
    }
  }

  lemma TagsAreMarked(file: seq<Byte>)
    ensures EndsInTag(file) <==>
            && |file| >= 128 && file[|file| - 128] as int == 'T' as int
            && file[|file| - 127] as int == 'A' as int && file[|file| - 126] as int == 'G' as int
  {
    if |file| >= 128 {
      var at := |file| - 128;
      assert file[at..at + 3] == [file[at], file[at + 1], file[at + 2]];
    }
  }

  /** The footer bit of an ID3v2 header is bit 4 of its flags, whatever the other bits say. */
  lemma FooterBitIsBitFour(file: seq<Byte>, above: nat, bit: nat, below: nat)
    requires |file| >= ID3V2_HEADER_LEN && bit < 2 && below < 16
    requires file[5] as int == above * 32 + bit * 16 + below
    ensures FooterBit(file) <==> bit == 1
  {
    assert file[5] as int / 16 == above * 2 + bit;
  }

  /** The total-samples field of the STREAMINFO block, where it is not zero for unknown. */
  function SampleFrames(file: seq<Byte>, at: nat): Option<nat>
    requires StreamAt(file, at)
  {
    var declared := U64BigEndian(file, at + 18) % TWO_TO_THE_36;
    if declared == 0 then None else Some(declared)
  }

  /** STREAMINFO, section 8.2 of RFC 9639: behind two block sizes of 2 bytes and two frame sizes of 3 come 20 bits
      of sample rate, 3 of channels, 5 of sample size and 36 of total samples; zero samples means unknown. */
  lemma TotalSamplesAreRead(file: seq<Byte>, at: nat, rate: nat, channels: nat, bits: nat, total: nat)
    requires StreamAt(file, at) && total < TWO_TO_THE_36
    requires var field := at + 4 + 4 + 2 + 2 + 3 + 3;
             file[field] as int * 0x100_0000_0000_0000 + file[field + 1] as int * 0x1_0000_0000_0000
             + file[field + 2] as int * 0x100_0000_0000 + file[field + 3] as int * 0x1_0000_0000
             + file[field + 4] as int * 0x100_0000 + file[field + 5] as int * 0x1_0000
             + file[field + 6] as int * 0x100 + file[field + 7] as int
             == ((rate * 8 + channels) * 32 + bits) * TWO_TO_THE_36 + total
    ensures SampleFrames(file, at) == if total == 0 then None else Some(total)
  {
    WeighedByPlace(file, at + 18);
    LowestBits((rate * 8 + channels) * 32 + bits, total);
  }

  lemma WeighedByPlace(file: seq<Byte>, at: nat)
    requires at + 8 <= |file|
    ensures U64BigEndian(file, at) ==
            file[at] as int * 0x100_0000_0000_0000 + file[at + 1] as int * 0x1_0000_0000_0000
            + file[at + 2] as int * 0x100_0000_0000 + file[at + 3] as int * 0x1_0000_0000
            + file[at + 4] as int * 0x100_0000 + file[at + 5] as int * 0x1_0000
            + file[at + 6] as int * 0x100 + file[at + 7] as int
  {}

  lemma LowestBits(high: nat, total: nat)
    requires total < TWO_TO_THE_36
    ensures (high * TWO_TO_THE_36 + total) % TWO_TO_THE_36 == total
  {}

  /** Where the inspecting scanner expects the stream. */
  function ExpectedOffset(file: seq<Byte>): Option<nat> {
    if !(|file| >= ID3V2_HEADER_LEN && MarkerAt(file, 0, ID3_MARKER)) then Some(0)
    else if SynchsafeAt(file, 6).None? then None
    else Some(ID3V2_HEADER_LEN + SynchsafeAt(file, 6).value + if FooterBit(file) then ID3V2_FOOTER_LEN else 0)
  }

  function Inspect(file: seq<Byte>): Option<Layout> {
    var offset := ExpectedOffset(file);
    if |file| < MINIMUM_FLAC_LEN || offset.None? || !StreamAt(file, offset.value) then None
    else Some(Layout(|file|, offset.value, SampleFrames(file, offset.value), EndsInTag(file)))
  }

  /** The scanners differ about version 2 and 3 tags only: there the routing scanner ignores the
      footer bit. Where both see a stream, they see the same one exactly if that is not the case. */
  lemma ScannersAgree(file: seq<Byte>)
    requires Detected(file).Ok? && Detected(file).value.Some? && Inspect(file).Some?
    ensures Detected(file).value.value == Inspect(file).value.flacOffset
            <==> !(MarkerAt(file, 0, ID3_MARKER) && FooterBit(file) && file[3] != 4)
  {
    if MarkerAt(file, 0, FLAC_MARKER) {
      assert file[0..4][0] == 0x66 && file[0..3][0] == file[0];
    }
  }

  /** Such a file exists: a version 3 tag with the footer bit, and a stream behind either end. */
  lemma ScannersCanDisagree(file: seq<Byte>)
    requires |file| == 20 + MINIMUM_FLAC_LEN
    requires file[..10] == [0x49, 0x44, 0x33, 3, 0, 16, 0, 0, 0, 0] && MarkerAt(file, 10, FLAC_MARKER)
             && StreamAt(file, 20)
    ensures Detected(file) == Ok(Some(10)) && Inspect(file).Some? && Inspect(file).value.flacOffset == 20
  {
    var head := file[..10];
    assert head[0] == file[0] && head[1] == file[1] && head[2] == file[2] && head[3] == file[3] && head[5] == file[5];
    assert head[6] == file[6] && head[7] == file[7] && head[8] == file[8] && head[9] == file[9];
    assert file[0..3] == ID3_MARKER;
    assert file[0..4][0] == file[0];
  }
}

/** Stripping legacy wrappers off a converted FLAC file, and the decode guard. */
module FlacEnvelope {
  import opened Wrappers
  import opened Bytes
  import opened FlacScanners

  datatype NormalizationError = NotNativeFlac | UnexpectedTag | InvalidBounds

  function Trailer(file: seq<Byte>): seq<Byte>
    requires |file| >= ID3V1_LEN
  {
    file[|file| - ID3V1_LEN..]
  }

  /** The source has both legacy wrappers. */
  predicate Wrapped(source: seq<Byte>) {
    Inspect(source).Some? && Inspect(source).value.flacOffset != 0 && Inspect(source).value.hasId3v1
  }

  /** The range to keep of `converted`, or nothing to strip. */
  function RangeToKeep(source: seq<Byte>, converted: seq<Byte>): Result<Option<(nat, nat)>, NormalizationError> {
    if !Wrapped(source) then Ok(None)
    else if Inspect(converted).None? then Err(NotNativeFlac)
    else if EndsInTag(converted) && Trailer(converted) != Trailer(source) then Err(UnexpectedTag)
    else
      var start := Inspect(converted).value.flacOffset;
      var end := if EndsInTag(converted) then |converted| - ID3V1_LEN else |converted|;
      if start == 0 && end == |converted| then Ok(None)
      else if end <= start then Err(InvalidBounds)
      else Ok(Some((start, end)))
  }

  // ---- What a conversion leaves. ----

  /** An ID3v2 tag as a conversion would copy it, complete and nothing else. */
  predicate IsPrefix(prefix: seq<Byte>) {
    && |prefix| >= ID3V2_HEADER_LEN && MarkerAt(prefix, 0, ID3_MARKER) && SynchsafeAt(prefix, 6).Some?
    && |prefix| == ID3V2_HEADER_LEN + SynchsafeAt(prefix, 6).value + if FooterBit(prefix) then ID3V2_FOOTER_LEN else 0
  }

  /** `converted` is an optional prefix, the native FLAC `body`, and an optional copy of the source's
      ID3v1 tag; without that copy it does not end in what looks like one. */
  predicate ConvertedFrom(source: seq<Byte>, prefix: seq<Byte>, body: seq<Byte>, copied: bool, converted: seq<Byte>) {
    && Wrapped(source) && StreamAt(body, 0) && (prefix == [] || IsPrefix(prefix))
    && converted == prefix + body + (if copied then Trailer(source) else [])
    && (copied || !EndsInTag(converted))
  }

  lemma MarkerMoves(front: seq<Byte>, file: seq<Byte>, rest: seq<Byte>, at: nat, marker: seq<Byte>)
    requires at + |marker| <= |file|
    ensures MarkerAt(front + file + rest, |front| + at, marker) == MarkerAt(file, at, marker)
  {
    assert (front + file + rest)[|front| + at..|front| + at + |marker|] == file[at..at + |marker|];
  }

  lemma StreamMoves(front: seq<Byte>, body: seq<Byte>, rest: seq<Byte>)
    requires StreamAt(body, 0)
    ensures StreamAt(front + body + rest, |front|)
  {
    MarkerMoves(front, body, rest, 0, FLAC_MARKER);
    forall k | 0 <= k < |body| ensures (front + body + rest)[|front| + k] == body[k] {}
  }

  lemma StreamIsExpectedAfter(prefix: seq<Byte>, body: seq<Byte>, rest: seq<Byte>)
    requires StreamAt(body, 0) && (prefix == [] || IsPrefix(prefix))
    ensures ExpectedOffset(prefix + body + rest) == Some(|prefix|)
  {
    var file := prefix + body + rest;
    if prefix == [] {
      assert file[0] == body[0] == body[0..4][0] == 0x66;
      assert file[0..3][0] == 0x66;
    } else {
      assert forall k :: 0 <= k < ID3V2_HEADER_LEN ==> file[k] == prefix[k];
      MarkerMoves([], prefix, body + rest, 0, ID3_MARKER);
      assert [] + prefix + (body + rest) == file;
    }
  }

  lemma CopiedTrailerEnds(front: seq<Byte>, source: seq<Byte>)
    requires EndsInTag(source)
    ensures EndsInTag(front + Trailer(source)) && Trailer(front + Trailer(source)) == Trailer(source)
  {
    var file := front + Trailer(source);
    assert Trailer(file) == Trailer(source);
    assert Trailer(source)[..3] == source[|source| - ID3V1_LEN..|source| - ID3V1_LEN + 3] == TAG_MARKER;
    assert file[|file| - ID3V1_LEN..|file| - ID3V1_LEN + 3] == Trailer(file)[..3];
  }

  /** The range is exactly the body, or there is nothing but the body. */
  predicate KeepsExactly(r: Result<Option<(nat, nat)>, NormalizationError>, converted: seq<Byte>, body: seq<Byte>) {
    match r
    case Err(_) => false
    case Ok(None) => converted == body
    case Ok(Some(range)) =>
      range.0 <= range.1 <= |converted| && converted[range.0..range.1] == body && converted != body
  }

  /** Normalisation keeps the FLAC body, all of it and nothing else. */
  lemma ExactlyTheBodyIsKept(source: seq<Byte>, prefix: seq<Byte>, body: seq<Byte>, copied: bool, converted: seq<Byte>)
    requires ConvertedFrom(source, prefix, body, copied, converted)
    ensures KeepsExactly(RangeToKeep(source, converted), converted, body)
  {
    var rest := if copied then Trailer(source) else [];
    StreamMoves(prefix, body, rest);
    StreamIsExpectedAfter(prefix, body, rest);
    if copied {
      CopiedTrailerEnds(prefix + body, source);
    }
    assert converted[|prefix|..|prefix| + |body|] == body;
    assert |converted| == |prefix| + |body| + |rest|;
  }

  /** What is cut off: in front nothing or one complete tag, behind nothing or the source's own tag. */
  predicate StripsOnlyWrappers(source: seq<Byte>, converted: seq<Byte>, range: (nat, nat)) {
    && Wrapped(source) && range.0 < range.1 <= |converted| && range != (0, |converted|)
    && (range.0 == 0 || IsPrefix(converted[..range.0]))
    && (range.1 == |converted| || (|converted| - range.1 == ID3V1_LEN && converted[range.1..] == Trailer(source)))
    && StreamAt(converted, range.0)
  }

  lemma PrefixIsComplete(file: seq<Byte>)
    requires ExpectedOffset(file).Some? && 0 < ExpectedOffset(file).value <= |file|
    ensures IsPrefix(file[..ExpectedOffset(file).value])
  {
    var prefix := file[..ExpectedOffset(file).value];
    assert prefix[0..3] == file[0..3];
    assert prefix[5] == file[5] && prefix[6] == file[6] && prefix[7] == file[7];
    assert prefix[8] == file[8] && prefix[9] == file[9];
  }

  /** An unwrapped source strips nothing. Of a conversion exactly the body is kept; whatever the files
      are, nothing but wrappers is cut off, and where nothing is, no wrapper is left. */
  ghost predicate Normalizes(source: seq<Byte>, converted: seq<Byte>,
                             r: Result<Option<(nat, nat)>, NormalizationError>)
  {
    && (!Wrapped(source) ==> r == Ok(None))
    && (forall prefix, body, copied :: ConvertedFrom(source, prefix, body, copied, converted) ==>
          KeepsExactly(r, converted, body))
    && (r.Ok? && r.value.Some? ==> StripsOnlyWrappers(source, converted, r.value.value))
    && (Wrapped(source) && r == Ok(None) ==> StreamAt(converted, 0) && !EndsInTag(converted))
  }

  lemma RangeToKeepNormalizes(source: seq<Byte>, converted: seq<Byte>)
    ensures Normalizes(source, converted, RangeToKeep(source, converted))
  {
    var r := RangeToKeep(source, converted);
    forall prefix, body, copied | ConvertedFrom(source, prefix, body, copied, converted)
      ensures KeepsExactly(r, converted, body)
    {
      ExactlyTheBodyIsKept(source, prefix, body, copied, converted);
    }
    if r.Ok? && r.value.Some? && r.value.value.0 > 0 {
      PrefixIsComplete(converted);
    }
  }

  method WrappedFlacNormalizationRange(source: seq<Byte>, converted: seq<Byte>)
    returns (r: Result<Option<(nat, nat)>, NormalizationError>)
    ensures r == RangeToKeep(source, converted) && Normalizes(source, converted, r)
  {
    RangeToKeepNormalizes(source, converted);
    var sourceLayout := Inspect(source);
    if sourceLayout.None? || sourceLayout.value.flacOffset == 0 || !sourceLayout.value.hasId3v1 {
      return Ok(None);
    }
    var layout := Inspect(converted);
    if layout.None? {
      return Err(NotNativeFlac);
    }
    var end := layout.value.fileLen;
    if layout.value.hasId3v1 {
      if Trailer(source) != Trailer(converted) {
        return Err(UnexpectedTag);
      }
      end := end - ID3V1_LEN;
    }
    var start := layout.value.flacOffset;
    if start == 0 && end == layout.value.fileLen {
      return Ok(None);
    }
    r := if end <= start then Err(InvalidBounds) else Ok(Some((start, end)));
  }

  /** Rerunning on what was kept strips nothing exactly if the body does not end in a tag block. */
  lemma RerunStripsNothing(source: seq<Byte>, body: seq<Byte>)
    requires Wrapped(source) && StreamAt(body, 0)
    ensures RangeToKeep(source, body) == Ok(None) <==> !EndsInTag(body)
  {
    StreamIsExpectedAfter([], body, []);
    assert [] + body + [] == body;
  }

  // ---- The decode guard. ----

  const TWO_TO_THE_64 := 0x1_0000_0000_0000_0000

  datatype DecodeError =
    | FrameCountOverflow
    | ExceededExtent(expected: nat, next: nat)
    | IncompleteExtent(expected: nat, decoded: nat)

  datatype DecodeGuard = DecodeGuard(declared: Option<nat>) {
    predicate AcceptsPostExtentError(decoded: nat) {
      declared == Some(decoded)
    }

    function CheckedAdvance(decoded: nat, frames: nat): Result<nat, DecodeError> {
      var next := decoded + frames;
      if next >= TWO_TO_THE_64 then Err(FrameCountOverflow)
      else if declared.Some? && next > declared.value then Err(ExceededExtent(declared.value, next))
      else Ok(next)
    }

    function ValidateComplete(decoded: nat): Option<DecodeError> {
      if declared.Some? && decoded != declared.value then Some(IncompleteExtent(declared.value, decoded)) else None
    }
  }

  /** A guard claims an extent only for a whole file that ends in a tag and declares its samples. */
  function GuardFor(file: seq<Byte>, wholeFile: bool): DecodeGuard {
    if wholeFile && Inspect(file).Some? && Inspect(file).value.hasId3v1
    then DecodeGuard(Inspect(file).value.sampleFrames) else DecodeGuard(None)
  }

  function Sum(packets: seq<nat>): nat {
    if packets == [] then 0 else Sum(packets[..|packets| - 1]) + packets[|packets| - 1]
  }

  /** A decode run: packet after packet, until one is refused. */
  function DecodeRun(guard: DecodeGuard, packets: seq<nat>): Result<nat, DecodeError> {
    if packets == [] then Ok(0)
    else
      var before := DecodeRun(guard, packets[..|packets| - 1]);
      if before.Err? then before else guard.CheckedAdvance(before.value, packets[|packets| - 1])
  }

  /** Along any run the count is the number of samples decoded, fits 64 bits, and stays within the
      declared extent; and the run is refused only when one of these would fail. */
  lemma {:induction false} RunsStayWithinTheExtent(guard: DecodeGuard, packets: seq<nat>)
    ensures DecodeRun(guard, packets).Ok? <==>
            packets == []
            || (Sum(packets) < TWO_TO_THE_64 && (guard.declared.Some? ==> Sum(packets) <= guard.declared.value))
    ensures DecodeRun(guard, packets).Ok? ==> DecodeRun(guard, packets).value == Sum(packets)
  {
    if packets != [] {
      RunsStayWithinTheExtent(guard, packets[..|packets| - 1]);
    }
  }

  /** An error is taken for the end only where the run is complete and could not go on. */
  lemma AcceptedErrorsAreAtTheEnd(guard: DecodeGuard, packets: seq<nat>, more: nat)
    requires DecodeRun(guard, packets).Ok? && guard.AcceptsPostExtentError(DecodeRun(guard, packets).value)
    ensures guard.ValidateComplete(DecodeRun(guard, packets).value) == None
    ensures guard.declared == Some(Sum(packets))
    ensures more > 0 ==> DecodeRun(guard, packets + [more]).Err?
  {
    RunsStayWithinTheExtent(guard, packets);
    assert (packets + [more])[..|packets|] == packets;
  }

  lemma SamplesMove(front: seq<Byte>, body: seq<Byte>, rest: seq<Byte>)
    requires StreamAt(body, 0)
    ensures StreamAt(front + body + rest, |front|)
    ensures SampleFrames(front + body + rest, |front|) == SampleFrames(body, 0)
  {
    StreamMoves(front, body, rest);
    var file := front + body + rest;
    forall k | 18 <= k < 26 ensures file[|front| + k] == body[k] {}
    assert U64BigEndian(file, |front| + 18) == U64BigEndian(body, 18);
  }

  /** Of a whole file that ends in a tag, a decode error is taken for the end exactly when all the samples have
      been decoded that the stream declares. */
  lemma TaggedFilesAcceptTheirEnd(prefix: seq<Byte>, body: seq<Byte>, tag: seq<Byte>, wholeFile: bool, decoded: nat)
    requires StreamAt(body, 0) && (prefix == [] || IsPrefix(prefix)) && EndsInTag(tag) && |tag| == ID3V1_LEN
    ensures GuardFor(prefix + body + tag, wholeFile).AcceptsPostExtentError(decoded) <==>
            wholeFile && SampleFrames(body, 0) == Some(decoded)
  {
    SamplesMove(prefix, body, tag);
    StreamIsExpectedAfter(prefix, body, tag);
    MarkerMoves(prefix + body, tag, [], 0, TAG_MARKER);
    assert prefix + body + tag + [] == prefix + body + tag;
  }

  /** Files without a verified extent keep ordinary error handling. */
  lemma UnverifiedFilesAcceptNothing(file: seq<Byte>, wholeFile: bool, decoded: nat)
    requires GuardFor(file, wholeFile).AcceptsPostExtentError(decoded)
    ensures wholeFile && EndsInTag(file) && decoded > 0
    ensures exists at :: StreamAt(file, at) && SampleFrames(file, at) == Some(decoded)
  {
    var at := ExpectedOffset(file).value;
    assert StreamAt(file, at) && SampleFrames(file, at) == Some(decoded);
  }
}
