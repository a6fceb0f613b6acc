/** Bytes and the fixed-width integers made of them. */
module Bytes {
  type Byte = b: int | 0 <= b < 256

  const TWO_TO_THE_32 := 0x1_0000_0000

  function Le32(n: nat): (b: seq<Byte>)
    requires n < TWO_TO_THE_32
    ensures |b| == 4
  {
    NumberOfDigits(n);
    [n % 256, n / 256 % 256, n / 256 / 256 % 256, n / 256 / 256 / 256]
  }

  function U32At(bytes: seq<Byte>, offset: nat): (n: nat)
    requires offset + 4 <= |bytes|
    ensures n < TWO_TO_THE_32
  {
    var a: int, b: int, c: int, d: int := bytes[offset], bytes[offset + 1], bytes[offset + 2], bytes[offset + 3];
    a + 256 * (b + 256 * (c + 256 * d))
  }

  lemma LastDigit(a: Byte, m: nat)
    ensures (a + 256 * m) % 256 == a && (a + 256 * m) / 256 == m
  {}

  /** A number and its four digits to the base 256 determine each other. */
  lemma Digits(a: Byte, b: Byte, c: Byte, d: Byte, n: nat)
    requires n == a + 256 * (b + 256 * (c + 256 * d))
    ensures n % 256 == a && n / 256 % 256 == b && n / 256 / 256 % 256 == c && n / 256 / 256 / 256 == d
  {
    LastDigit(a, b + 256 * (c + 256 * d));
    LastDigit(b, c + 256 * d);
    LastDigit(c, d);
  }

  lemma NumberOfDigits(n: nat)
    requires n < TWO_TO_THE_32
    ensures n / 256 / 256 / 256 < 256
    ensures n == n % 256 + 256 * (n / 256 % 256 + 256 * (n / 256 / 256 % 256 + 256 * (n / 256 / 256 / 256)))
  {
    var p, q := n / 256, n / 256 / 256;
    assert n == n % 256 + 256 * p;
    assert p == p % 256 + 256 * q;
    assert q == q % 256 + 256 * (q / 256);
  }

  /** The four bytes at an offset and the number they make determine each other. */
  lemma Le32Inverse(bytes: seq<Byte>, offset: nat, n: nat)
    requires offset + 4 <= |bytes| && n < TWO_TO_THE_32
    ensures U32At(bytes, offset) == n <==> bytes[offset..offset + 4] == Le32(n)
  {
    var a, b, c, d := bytes[offset], bytes[offset + 1], bytes[offset + 2], bytes[offset + 3];
    assert bytes[offset..offset + 4] == [a, b, c, d];
    Digits(a, b, c, d, U32At(bytes, offset));
    NumberOfDigits(n);
  }
}

/** The bounded reader for APEv2 tags at the end of a file. */
module ApeTag {
  import opened Wrappers
  import opened Bytes

  const SIGNATURE: seq<Byte> := [0x41, 0x50, 0x45, 0x54, 0x41, 0x47, 0x45, 0x58]
  const ID3V1_SIGNATURE: seq<Byte> := [0x54, 0x41, 0x47]
  const DESCRIPTOR_LEN := 32
  const ID3V1_LEN := 128
  const APE_VERSION_2 := 2000
  const MAX_TAG_BYTES := 64 * 1024 * 1024
  const MAX_ITEMS := 1_000_000
  const MIN_ITEM_BYTES := 9
  const HEADER_PRESENT := 0x8000_0000
  const IS_HEADER := 0x2000_0000

  datatype ApeError =
    | UnsupportedVersion | InvalidSize | TooManyItems | InconsistentHeader
    | TruncatedItemHeader | UnterminatedKey | TruncatedValue | CountMismatch

  datatype Repair = ReservedFlags | FooterMarkedHeader | ReservedBytes | HeaderAbsent | HeaderBeforeStart

  /** What an item says, without its framing. */
  datatype AnyEntry = Entry(flags: nat, key: seq<Byte>, value: seq<Byte>)

  /** An entry that the item format can carry. */
  type Entry = e: AnyEntry | Encodable(e) witness Entry(0, [], [])

  predicate NulFree(bytes: seq<Byte>) {
    forall k :: 0 <= k < |bytes| ==> bytes[k] != 0
  }

  predicate Encodable(e: AnyEntry) {
    |e.value| < TWO_TO_THE_32 && e.flags < TWO_TO_THE_32 && NulFree(e.key)
  }

  datatype ApeItem = ApeItem(raw: seq<Byte>, entry: Entry, validKey: bool)

  datatype Tag = Tag(replaceStart: nat, footerEnd: nat, hadHeader: bool, items: seq<ApeItem>, repairs: seq<Repair>)

  // ---- The item format. ----

  function EncodeEntry(e: Entry): (b: seq<Byte>)
    ensures |b| >= MIN_ITEM_BYTES
  {
    Le32(|e.value|) + Le32(e.flags) + e.key + [0] + e.value
  }

  function EncodeEntries(entries: seq<Entry>): seq<Byte>
  {
    if entries == [] then [] else EncodeEntry(entries[0]) + EncodeEntries(entries[1..])
  }

  predicate Printable(b: Byte) { 0x20 <= b <= 0x7e }

  function AsciiUpper(bytes: seq<Byte>): (r: seq<Byte>)
  {
    if bytes == [] then []
    else [if 0x61 <= bytes[0] <= 0x7a then bytes[0] - 0x20 else bytes[0]] + AsciiUpper(bytes[1..])
  }

  /** Keys that the APEv2 grammar admits; `ID3`, `TAG`, `OGGS` and `MP+` are reserved in any case. */
  predicate ValidKey(key: seq<Byte>) {
    && 2 <= |key| <= 255 && (forall b :: b in key ==> Printable(b))
    && AsciiUpper(key) !in {[0x49, 0x44, 0x33], [0x54, 0x41, 0x47], [0x4f, 0x47, 0x47, 0x53], [0x4d, 0x50, 0x2b]}
  }

  /** The key is this word in capital or small letters. */
  predicate InAnyCase(key: seq<Byte>, word: string) {
    && |key| == |word|
    && forall k :: 0 <= k < |key| ==>
         key[k] as int == word[k] as int || ('A' <= word[k] <= 'Z' && key[k] as int == word[k] as int + 32)
  }

  lemma {:induction false} CaseIsFolded(key: seq<Byte>, word: string, code: seq<Byte>)
    requires |code| == |word| && forall k :: 0 <= k < |word| ==> code[k] as int == word[k] as int
    requires forall k :: 0 <= k < |word| ==> !('a' <= word[k] <= 'z')
    ensures AsciiUpper(key) == code <==> InAnyCase(key, word)
  {
    if key != [] && word != "" {
      CaseIsFolded(key[1..], word[1..], code[1..]);
      assert code == [code[0]] + code[1..];
      assert forall k :: 0 < k < |key| ==> key[k] == key[1..][k - 1];
      assert forall k :: 0 < k < |word| ==> word[k] == word[1..][k - 1];
    }
  }

  /** A valid key has 2 to 255 printable ASCII bytes and is no reserved word in any case. */
  lemma ValidKeysAre(key: seq<Byte>)
    ensures ValidKey(key) <==>
            && 2 <= |key| <= 255 && (forall k :: 0 <= k < |key| ==> ' ' as int <= key[k] as int <= '~' as int)
            && !InAnyCase(key, "ID3") && !InAnyCase(key, "TAG") && !InAnyCase(key, "OGGS") && !InAnyCase(key, "MP+")
  {
    CaseIsFolded(key, "ID3", [0x49, 0x44, 0x33]);
    CaseIsFolded(key, "TAG", [0x54, 0x41, 0x47]);
    CaseIsFolded(key, "OGGS", [0x4f, 0x47, 0x47, 0x53]);
    CaseIsFolded(key, "MP+", [0x4d, 0x50, 0x2b]);
    hide InAnyCase, AsciiUpper;
    assert (forall b :: b in key ==> Printable(b)) <==> forall k :: 0 <= k < |key| ==> Printable(key[k]);
  }

  function Present(e: Entry): ApeItem
  {
    ApeItem(EncodeEntry(e), e, ValidKey(e.key))
  }

  // ---- Reading one item. ----

  /** Where the first NUL at or after `from` is. */
  function FirstNul(bytes: seq<Byte>, from: nat): (r: Option<nat>)
    requires from <= |bytes|
    ensures r.Some? ==>
              from <= r.value < |bytes| && bytes[r.value] == 0 && forall k :: from <= k < r.value ==> bytes[k] != 0
    ensures r.None? ==> forall k :: from <= k < |bytes| ==> bytes[k] != 0
    decreases |bytes| - from
  {
    if from == |bytes| then None else if bytes[from] == 0 then Some(from) else FirstNul(bytes, from + 1)
  }

  function EntryAt(bytes: seq<Byte>, cursor: nat): Result<(Entry, nat), ApeError>
    requires cursor <= |bytes|
  {
    if cursor + 8 > |bytes| then Err(TruncatedItemHeader)
    else
      var keyEnd := FirstNul(bytes, cursor + 8);
      if keyEnd.None? then Err(UnterminatedKey)
      else
        var start := keyEnd.value + 1;
        var end := start + U32At(bytes, cursor);
        if end > |bytes| then Err(TruncatedValue)
        else Ok((Entry(U32At(bytes, cursor + 4), bytes[cursor + 8..keyEnd.value], bytes[start..end]), end))
  }

  /** Reading an item at a place yields exactly the entry whose encoding is there. */
  lemma {:induction false} EntryAtSound(bytes: seq<Byte>, cursor: nat, e: Entry, next: nat)
    requires cursor <= |bytes| && EntryAt(bytes, cursor) == Ok((e, next))
    ensures cursor + MIN_ITEM_BYTES <= next <= |bytes| && bytes[cursor..next] == EncodeEntry(e)
  {
    var keyEnd := FirstNul(bytes, cursor + 8).value;
    Le32Inverse(bytes, cursor, |e.value|);
    Le32Inverse(bytes, cursor + 4, e.flags);
    assert bytes[cursor..next] ==
      bytes[cursor..cursor + 4] + bytes[cursor + 4..cursor + 8] + bytes[cursor + 8..keyEnd]
      + [bytes[keyEnd]] + bytes[keyEnd + 1..next];
  }

  lemma SliceOfSlice<T>(s: seq<T>, from: nat, part: seq<T>, i: nat, j: nat)
    requires from + |part| <= |s| && s[from..from + |part|] == part && i <= j <= |part|
    ensures s[from + i..from + j] == part[i..j]
  {
    forall k | 0 <= k < j - i ensures s[from + i..from + j][k] == part[i..j][k] {
      assert s[from + (i + k)] == s[from..from + |part|][i + k];
    }
  }

  /** The fields of an entry, where its encoding is. */
  lemma {:induction false} EncodedLengths(bytes: seq<Byte>, cursor: nat, e: Entry)
    requires cursor + |EncodeEntry(e)| <= |bytes|
    requires bytes[cursor..cursor + |EncodeEntry(e)|] == EncodeEntry(e)
    ensures U32At(bytes, cursor) == |e.value| && U32At(bytes, cursor + 4) == e.flags
  {
    var code := EncodeEntry(e);
    assert code[0..4] == Le32(|e.value|) && code[4..8] == Le32(e.flags);
    SliceOfSlice(bytes, cursor, code, 0, 4);
    SliceOfSlice(bytes, cursor, code, 4, 8);
    Le32Inverse(bytes, cursor, |e.value|);
    Le32Inverse(bytes, cursor + 4, e.flags);
  }

  lemma {:induction false} EncodedTexts(bytes: seq<Byte>, cursor: nat, e: Entry)
    requires cursor + |EncodeEntry(e)| <= |bytes|
    requires bytes[cursor..cursor + |EncodeEntry(e)|] == EncodeEntry(e)
    ensures var keyEnd := cursor + 8 + |e.key|;
            && keyEnd < |bytes| && bytes[cursor + 8..keyEnd] == e.key && bytes[keyEnd] == 0
            && keyEnd + 1 + |e.value| == cursor + |EncodeEntry(e)|
            && bytes[keyEnd + 1..keyEnd + 1 + |e.value|] == e.value
  {
    var code := EncodeEntry(e);
    var k := 8 + |e.key|;
    assert code[8..k] == e.key && code[k..k + 1] == [0] && code[k + 1..|code|] == e.value;
    SliceOfSlice(bytes, cursor, code, 8, k);
    SliceOfSlice(bytes, cursor, code, k, k + 1);
    SliceOfSlice(bytes, cursor, code, k + 1, |code|);
    assert bytes[cursor + k] == bytes[cursor + k..cursor + k + 1][0];
  }

  lemma {:induction false} EntryAtComplete(bytes: seq<Byte>, cursor: nat, e: Entry)
    requires cursor + |EncodeEntry(e)| <= |bytes|
    requires bytes[cursor..cursor + |EncodeEntry(e)|] == EncodeEntry(e)
    ensures EntryAt(bytes, cursor) == Ok((e, cursor + |EncodeEntry(e)|))
  {
    EncodedLengths(bytes, cursor, e);
    EncodedTexts(bytes, cursor, e);
    assert forall k :: cursor + 8 <= k < cursor + 8 + |e.key| ==>
             bytes[k] == bytes[cursor + 8..cursor + 8 + |e.key|][k - (cursor + 8)];
    FirstNulIs(bytes, cursor + 8, cursor + 8 + |e.key|);
  }

  lemma {:induction false} FirstNulIs(bytes: seq<Byte>, from: nat, at: nat)
    requires from <= at < |bytes| && bytes[at] == 0 && forall k :: from <= k < at ==> bytes[k] != 0
    ensures FirstNul(bytes, from) == Some(at)
    decreases at - from
  {
    if from < at {
      FirstNulIs(bytes, from + 1, at);
    }
  }

  // ---- Reading the item region. ----

  /** Exactly `n` items from `cursor` to the end. */
  function ParseFrom(bytes: seq<Byte>, cursor: nat, n: nat): Result<seq<Entry>, ApeError>
    requires cursor <= |bytes|
    decreases n
  {
    if n == 0 then
      if cursor == |bytes| then Ok([]) else Err(CountMismatch)
    else
      var first := EntryAt(bytes, cursor);
      if first.Err? then Err(first.error)
      else
        var rest := ParseFrom(bytes, first.value.1, n - 1);
        if rest.Err? then rest else Ok([first.value.0] + rest.value)
  }

  lemma {:induction false} EncodeCons(e: Entry, rest: seq<Entry>)
    ensures EncodeEntries([e] + rest) == EncodeEntry(e) + EncodeEntries(rest)
  {
    assert ([e] + rest)[0] == e && ([e] + rest)[1..] == rest;
  }

  lemma SliceSplits<T>(s: seq<T>, from: nat, head: seq<T>, tail: seq<T>)
    requires from + |head| <= |s|
    ensures s[from..] == head + tail <==> s[from..from + |head|] == head && s[from + |head|..] == tail
  {
    assert s[from..] == s[from..from + |head|] + s[from + |head|..];
    if s[from..] == head + tail {
      assert s[from..from + |head|] == s[from..][..|head|];
      assert s[from + |head|..] == s[from..][|head|..];
    }
  }

  lemma {:induction false} OneMoreEntry(bytes: seq<Byte>, cursor: nat, next: nat, e: Entry, rest: seq<Entry>)
    requires cursor <= next <= |bytes| && bytes[cursor..next] == EncodeEntry(e) && bytes[next..] == EncodeEntries(rest)
    ensures bytes[cursor..] == EncodeEntries([e] + rest)
  {
    EncodeCons(e, rest);
    assert bytes[cursor..] == bytes[cursor..next] + bytes[next..];
  }

  lemma {:induction false} ParseSound(bytes: seq<Byte>, cursor: nat, n: nat)
    requires cursor <= |bytes| && ParseFrom(bytes, cursor, n).Ok?
    ensures var entries := ParseFrom(bytes, cursor, n).value;
            && |entries| == n
            && bytes[cursor..] == EncodeEntries(entries)
            && MIN_ITEM_BYTES * n <= |bytes| - cursor
    decreases n
  {
    if n > 0 {
      var (e, next) := EntryAt(bytes, cursor).value;
      EntryAtSound(bytes, cursor, e, next);
      var rest := ParseFrom(bytes, next, n - 1).value;
      ParseSound(bytes, next, n - 1);
      OneMoreEntry(bytes, cursor, next, e, rest);
    }
  }

  lemma {:induction false} ParseComplete(bytes: seq<Byte>, cursor: nat, entries: seq<Entry>)
    requires cursor <= |bytes|
    requires bytes[cursor..] == EncodeEntries(entries)
    ensures ParseFrom(bytes, cursor, |entries|) == Ok(entries)
    decreases |entries|
  {
    if entries == [] {
      assert |bytes[cursor..]| == 0;
    } else {
      var e, rest := entries[0], entries[1..];
      assert |bytes[cursor..]| >= |EncodeEntry(e)|;
      SliceSplits(bytes, cursor, EncodeEntry(e), EncodeEntries(rest));
      EntryAtComplete(bytes, cursor, e);
      ParseComplete(bytes, cursor + |EncodeEntry(e)|, rest);
      assert entries == [e] + rest;
    }
  }

  function ItemCapacity(itemCount: nat, regionLen: nat): nat {
    if itemCount <= regionLen / MIN_ITEM_BYTES then itemCount else regionLen / MIN_ITEM_BYTES
  }

  /** The allocation clamp never cuts into a region that parses. */
  lemma {:induction false} CapacityNeverFallsShort(bytes: seq<Byte>, n: nat)
    requires ParseFrom(bytes, 0, n).Ok?
    ensures ItemCapacity(n, |bytes|) == n
  {
    ParseSound(bytes, 0, n);
  }

  /** A region parses exactly if it is the encoding of that many entries, which are then unique. */
  lemma {:induction false} RegionsParseUniquely(bytes: seq<Byte>, entries: seq<Entry>)
    ensures bytes == EncodeEntries(entries) <==> ParseFrom(bytes, 0, |entries|) == Ok(entries)
  {
    assert bytes[0..] == bytes;
    if bytes == EncodeEntries(entries) {
      ParseComplete(bytes, 0, entries);
    }
    if ParseFrom(bytes, 0, |entries|) == Ok(entries) {
      ParseSound(bytes, 0, |entries|);
    }
  }

  // ---- Reading a file. ----

  predicate HasId3v1(file: seq<Byte>) {
    |file| >= ID3V1_LEN && file[|file| - ID3V1_LEN..|file| - ID3V1_LEN + 3] == ID3V1_SIGNATURE
  }

  function FooterEnd(file: seq<Byte>): (end: nat)
    ensures end <= |file|
  {
    if HasId3v1(file) then |file| - ID3V1_LEN else |file|
  }

  lemma Id3v1TagsAreMarked(file: seq<Byte>)
    ensures HasId3v1(file) <==>
            && |file| >= 128 && file[|file| - 128] as int == 'T' as int
            && file[|file| - 127] as int == 'A' as int && file[|file| - 126] as int == 'G' as int
  {
    if |file| >= 128 {
      var at := |file| - 128;
      assert file[at..at + 3] == [file[at], file[at + 1], file[at + 2]];
    }
  }

  predicate HasFooter(file: seq<Byte>) {
    var end := FooterEnd(file);
    end >= DESCRIPTOR_LEN && file[end - DESCRIPTOR_LEN..end - DESCRIPTOR_LEN + 8] == SIGNATURE
  }

  /** The fields of the 32-byte descriptor at `at`. */
  datatype Descriptor = Descriptor(version: nat, size: nat, count: nat, flags: nat)

  function DescriptorAt(file: seq<Byte>, at: nat): Descriptor
    requires at + DESCRIPTOR_LEN <= |file|
  {
    Descriptor(U32At(file, at + 8), U32At(file, at + 12), U32At(file, at + 16), U32At(file, at + 20))
  }

  function Footer(file: seq<Byte>): Descriptor
    requires HasFooter(file)
  {
    DescriptorAt(file, FooterEnd(file) - DESCRIPTOR_LEN)
  }

  predicate HeaderClaimed(flags: nat) { flags / HEADER_PRESENT % 2 == 1 }

  predicate MarkedHeader(flags: nat) { flags / IS_HEADER % 2 == 1 }

  /** The flags of a descriptor, in its bytes: bit 7 of the last one tells a header, bit 5 marks one, and what
      is below that is reserved. */
  lemma DescriptorFlagsAreBits(file: seq<Byte>, at: nat)
    requires at + DESCRIPTOR_LEN <= |file|
    ensures var flags, high := DescriptorAt(file, at).flags, file[at + 23] as int;
            && (HeaderClaimed(flags) <==> high >= 128) && (MarkedHeader(flags) <==> high / 32 % 2 == 1)
            && (flags % IS_HEADER == 0 <==>
                  file[at + 20] == 0 && file[at + 21] == 0 && file[at + 22] == 0 && high % 32 == 0)
  {
    var a: int, b: int, c: int, d: int := file[at + 20], file[at + 21], file[at + 22], file[at + 23];
    FlagsSplit(a, b, c, d);
  }

  lemma FlagsSplit(a: Byte, b: Byte, c: Byte, d: Byte)
    ensures var flags := a + 256 * (b + 256 * (c + 256 * d));
            && flags / HEADER_PRESENT == d / 128 && flags / IS_HEADER == d / 32
            && (flags % IS_HEADER == 0 <==> a == 0 && b == 0 && c == 0 && d % 32 == 0)
  {
    var low := a + 256 * (b + 256 * c);
    assert a + 256 * (b + 256 * (c + 256 * d)) == low + 0x100_0000 * d && low < 0x100_0000;
    assert d == d / 32 * 32 + d % 32 && d == d / 128 * 128 + d % 128;
  }

  predicate SizeAccepted(file: seq<Byte>)
    requires HasFooter(file)
  {
    && DESCRIPTOR_LEN <= Footer(file).size <= MAX_TAG_BYTES
    && Footer(file).size <= FooterEnd(file)
  }

  function ItemsStart(file: seq<Byte>): nat
    requires HasFooter(file) && SizeAccepted(file)
  {
    FooterEnd(file) - Footer(file).size
  }

  function Region(file: seq<Byte>): seq<Byte>
    requires HasFooter(file) && SizeAccepted(file)
  {
    file[ItemsStart(file)..FooterEnd(file) - DESCRIPTOR_LEN]
  }

  /** A second descriptor stands in front of the items and the footer says so. */
  predicate HasHeader(file: seq<Byte>)
    requires HasFooter(file) && SizeAccepted(file)
  {
    var start := ItemsStart(file);
    && HeaderClaimed(Footer(file).flags) && start >= DESCRIPTOR_LEN
    && file[start - DESCRIPTOR_LEN..start - DESCRIPTOR_LEN + 8] == SIGNATURE
  }

  predicate HeaderAgrees(file: seq<Byte>)
    requires HasFooter(file) && SizeAccepted(file) && HasHeader(file)
  {
    var header := DescriptorAt(file, ItemsStart(file) - DESCRIPTOR_LEN);
    && header.version == Footer(file).version && header.size == Footer(file).size
    && header.count == Footer(file).count && MarkedHeader(header.flags)
  }

  /** What is wrong with the descriptors, in the order in which it is noticed. */
  lemma SameBytesSameNumber(file: seq<Byte>, a: nat, b: nat)
    requires a + 4 <= |file| && b + 4 <= |file|
    ensures U32At(file, a) == U32At(file, b) <==> file[a..a + 4] == file[b..b + 4]
  {
    Le32Inverse(file, a, U32At(file, b));
    Le32Inverse(file, b, U32At(file, b));
  }

  lemma ThreeNumbersAgree(file: seq<Byte>, a: nat, b: nat)
    requires a + 12 <= |file| && b + 12 <= |file|
    ensures file[a..a + 12] == file[b..b + 12] <==>
            && U32At(file, a) == U32At(file, b) && U32At(file, a + 4) == U32At(file, b + 4)
            && U32At(file, a + 8) == U32At(file, b + 8)
  {
    hide U32At;
    SameBytesSameNumber(file, a, b);
    SameBytesSameNumber(file, a + 4, b + 4);
    SameBytesSameNumber(file, a + 8, b + 8);
    WordsOfSlice(file, a);
    WordsOfSlice(file, b);
    ThreeWords(file[a..a + 12], file[b..b + 12]);
  }

  lemma WordsOfSlice(file: seq<Byte>, a: nat)
    requires a + 12 <= |file|
    ensures var s := file[a..a + 12];
            && s[..4] == file[a..a + 4] && s[4..8] == file[a + 4..a + 8] && s[8..] == file[a + 8..a + 12]
            && |s| == 12
  {
    var s := file[a..a + 12];
    SliceOfSlice(file, a, s, 0, 4);
    SliceOfSlice(file, a, s, 4, 8);
    SliceOfSlice(file, a, s, 8, 12);
  }

  /** A header agrees with its footer if version, size and count are the same bytes and it is marked. */
  lemma HeadersRepeatTheirFooter(file: seq<Byte>)
    requires HasFooter(file) && SizeAccepted(file) && HasHeader(file)
    ensures var h, f := ItemsStart(file) - DESCRIPTOR_LEN, FooterEnd(file) - DESCRIPTOR_LEN;
            HeaderAgrees(file) <==> file[h + 8..h + 20] == file[f + 8..f + 20] && file[h + 23] as int / 32 % 2 == 1
  {
    hide U32At, MarkedHeader, HeaderClaimed;
    var h, f := ItemsStart(file) - DESCRIPTOR_LEN, FooterEnd(file) - DESCRIPTOR_LEN;
    DescriptorFlagsAreBits(file, h);
    ThreeNumbersAgree(file, h + 8, f + 8);
  }

  lemma ThreeWords(s: seq<Byte>, t: seq<Byte>)
    requires |s| == 12 && |t| == 12
    ensures s == t <==> s[..4] == t[..4] && s[4..8] == t[4..8] && s[8..] == t[8..]
  {
    assert s == s[..4] + s[4..8] + s[8..] && t == t[..4] + t[4..8] + t[8..];
  }

  function DescriptorFault(file: seq<Byte>): Option<ApeError>
    requires HasFooter(file)
  {
    if Footer(file).version != APE_VERSION_2 then Some(UnsupportedVersion)
    else if !SizeAccepted(file) then Some(InvalidSize)
    else if Footer(file).count > MAX_ITEMS then Some(TooManyItems)
    else if HasHeader(file) && !HeaderAgrees(file) then Some(InconsistentHeader)
    else None
  }

  function FooterRepairs(file: seq<Byte>): seq<Repair>
    requires HasFooter(file)
  {
    var end := FooterEnd(file);
    var flags := Footer(file).flags;
    (if flags % IS_HEADER != 0 then [ReservedFlags] else [])
    + (if MarkedHeader(flags) then [FooterMarkedHeader] else [])
    + (if exists k :: end - 8 <= k < end && file[k] != 0 then [ReservedBytes] else [])
  }

  function HeaderRepairs(file: seq<Byte>): seq<Repair>
    requires HasFooter(file) && SizeAccepted(file)
  {
    if HasHeader(file) || !HeaderClaimed(Footer(file).flags) then []
    else if ItemsStart(file) >= DESCRIPTOR_LEN then [HeaderAbsent] else [HeaderBeforeStart]
  }

  function Raws(items: seq<ApeItem>): seq<Byte> {
    if items == [] then [] else items[0].raw + Raws(items[1..])
  }

  function Presented(entries: seq<Entry>): (items: seq<ApeItem>)
    ensures |items| == |entries|
  {
    if entries == [] then [] else [Present(entries[0])] + Presented(entries[1..])
  }

  lemma {:induction false} PresentedTiles(entries: seq<Entry>)
    ensures Raws(Presented(entries)) == EncodeEntries(entries)
  {
    if entries != [] {
      PresentedTiles(entries[1..]);
    }
  }

  lemma {:induction false} PresentedAppends(entries: seq<Entry>, e: Entry)
    ensures Presented(entries + [e]) == Presented(entries) + [Present(e)]
  {
    if entries == [] {
      assert [] + [e] == [e];
    } else {
      assert (entries + [e])[0] == entries[0] && (entries + [e])[1..] == entries[1..] + [e];
      PresentedAppends(entries[1..], e);
    }
  }

  /** One turn of the cursor loop. */
  method ReadItem(bytes: seq<Byte>, start: nat) returns (r: Result<ApeItem, ApeError>, cursor: nat)
    requires start <= |bytes|
    ensures r.Ok? ==> EntryAt(bytes, start) == Ok((r.value.entry, cursor)) && cursor <= |bytes|
    ensures r.Ok? ==> r.value == Present(r.value.entry)
    ensures r.Err? ==> EntryAt(bytes, start) == Err(r.error)
  {
    cursor := start;
    if cursor + 8 > |bytes| {
      return Err(TruncatedItemHeader), cursor;
    }
    var valueLen := U32At(bytes, cursor);
    var flags := U32At(bytes, cursor + 4);
    cursor := cursor + 8;
    var keyEnd := FirstNul(bytes, cursor);
    if keyEnd.None? {
      return Err(UnterminatedKey), cursor;
    }
    var key := bytes[cursor..keyEnd.value];
    cursor := keyEnd.value + 1;
    var valueEnd := cursor + valueLen;
    if valueEnd > |bytes| {
      return Err(TruncatedValue), cursor;
    }
    var value := bytes[cursor..valueEnd];
    cursor := valueEnd;
    var e: Entry := Entry(flags, key, value);
    EntryAtSound(bytes, start, e, cursor);
    r := Ok(ApeItem(bytes[start..cursor], e, ValidKey(key)));
  }

  /** What parsing the whole region comes to, once `entries` are read and `count` are left. */
  function Continue(bytes: seq<Byte>, entries: seq<Entry>, cursor: nat, count: nat): Result<seq<Entry>, ApeError>
    requires cursor <= |bytes|
  {
    var rest := ParseFrom(bytes, cursor, count);
    if rest.Err? then rest else Ok(entries + rest.value)
  }

  lemma {:induction false} ContinueStep(bytes: seq<Byte>, entries: seq<Entry>, cursor: nat, count: nat, e: Entry,
                                        next: nat)
    requires cursor <= |bytes| && count > 0 && EntryAt(bytes, cursor) == Ok((e, next)) && next <= |bytes|
    ensures Continue(bytes, entries, cursor, count) == Continue(bytes, entries + [e], next, count - 1)
  {
    var rest := ParseFrom(bytes, next, count - 1);
    if rest.Ok? {
      assert entries + ([e] + rest.value) == (entries + [e]) + rest.value;
    }
  }

  /** The raw slices of what a region parses to are the region, in order and without gaps. */
  lemma {:induction false} ParsedItemsTile(bytes: seq<Byte>, count: nat, entries: seq<Entry>)
    requires ParseFrom(bytes, 0, count) == Ok(entries)
    ensures |entries| == count && Raws(Presented(entries)) == bytes == EncodeEntries(entries)
  {
    ParseSound(bytes, 0, count);
    PresentedTiles(entries);
    assert bytes[0..] == bytes;
  }

  /** The item region, item by item; `entries` is what the items say. */
  lemma {:induction false} NothingReadYet(bytes: seq<Byte>, count: nat)
    ensures Continue(bytes, [], 0, count) == ParseFrom(bytes, 0, count)
  {
    var whole := ParseFrom(bytes, 0, count);
    assert whole.Ok? ==> [] + whole.value == whole.value;
  }

  lemma {:induction false} ReadingStops(bytes: seq<Byte>, entries: seq<Entry>, cursor: nat, count: nat)
    requires cursor <= |bytes| && count > 0 && EntryAt(bytes, cursor).Err?
    ensures Continue(bytes, entries, cursor, count) == Err(EntryAt(bytes, cursor).error)
  {}

  lemma {:induction false} AllItemsRead(bytes: seq<Byte>, entries: seq<Entry>, cursor: nat)
    requires cursor <= |bytes|
    ensures Continue(bytes, entries, cursor, 0) == if cursor == |bytes| then Ok(entries) else Err(CountMismatch)
  {
    assert entries + [] == entries;
  }

  method ReadItems(bytes: seq<Byte>, count: nat) returns (r: Result<seq<ApeItem>, ApeError>, ghost entries: seq<Entry>)
    ensures r.Err? ==> ParseFrom(bytes, 0, count) == Err(r.error)
    ensures r.Ok? ==> ParseFrom(bytes, 0, count) == Ok(entries) && r.value == Presented(entries)
    ensures r.Ok? ==> Raws(r.value) == bytes && |r.value| == count
  {
    hide ParseFrom;
    var items: seq<ApeItem> := [];
    var cursor: nat := 0;
    entries := [];
    ghost var whole := ParseFrom(bytes, 0, count);
    NothingReadYet(bytes, count);
    for index := 0 to count
      invariant cursor <= |bytes| && items == Presented(entries) && |entries| == index
      invariant whole == Continue(bytes, entries, cursor, count - index)
    {
      var item, next := ReadItem(bytes, cursor);
      if item.Err? {
        ReadingStops(bytes, entries, cursor, count - index);
        return Err(item.error), entries;
      }
      ContinueStep(bytes, entries, cursor, count - index, item.value.entry, next);
      PresentedAppends(entries, item.value.entry);
      items := items + [item.value];
      entries := entries + [item.value.entry];
      cursor := next;
    }
    AllItemsRead(bytes, entries, cursor);
    if cursor != |bytes| {
      return Err(CountMismatch), entries;
    }
    ParsedItemsTile(bytes, count, entries);
    r := Ok(items);
  }

  /** The checks on the footer alone, with the repairs they call for. */
  method CheckFooter(file: seq<Byte>, footerEnd: nat) returns (error: Option<ApeError>, repairs: seq<Repair>)
    requires HasFooter(file) && footerEnd == FooterEnd(file)
    ensures error.Some? ==> error == DescriptorFault(file)
    ensures error.None? ==>
              && Footer(file).version == APE_VERSION_2 && SizeAccepted(file) && Footer(file).count <= MAX_ITEMS
              && repairs == FooterRepairs(file)
  {
    var at := footerEnd - DESCRIPTOR_LEN;
    repairs := [];
    if U32At(file, at + 8) != APE_VERSION_2 {
      return Some(UnsupportedVersion), repairs;
    }
    var tagSize := U32At(file, at + 12);
    var footerFlags := U32At(file, at + 20);
    if footerFlags % IS_HEADER != 0 {
      repairs := repairs + [ReservedFlags];
    }
    if MarkedHeader(footerFlags) {
      repairs := repairs + [FooterMarkedHeader];
    }
    if exists k :: at + 24 <= k < at + 32 && file[k] != 0 {
      repairs := repairs + [ReservedBytes];
    }
    if tagSize < DESCRIPTOR_LEN || tagSize > MAX_TAG_BYTES || tagSize > footerEnd {
      return Some(InvalidSize), repairs;
    }
    if U32At(file, at + 16) > MAX_ITEMS {
      return Some(TooManyItems), repairs;
    }
    error := None;
  }

  /** The header in front of the items, if the footer claims one. */
  method CheckHeader(file: seq<Byte>, footer: Descriptor, itemsStart: nat)
    returns (error: Option<ApeError>, hadHeader: bool, repairs: seq<Repair>)
    requires HasFooter(file) && SizeAccepted(file) && footer == Footer(file) && itemsStart == ItemsStart(file)
    ensures hadHeader == HasHeader(file)
    ensures error == if HasHeader(file) && !HeaderAgrees(file) then Some(InconsistentHeader) else None
    ensures repairs == HeaderRepairs(file)
  {
    error, hadHeader, repairs := None, false, [];
    if HeaderClaimed(footer.flags) && itemsStart >= DESCRIPTOR_LEN {
      var at := itemsStart - DESCRIPTOR_LEN;
      if file[at..at + 8] == SIGNATURE {
        hadHeader := true;
        if U32At(file, at + 8) != footer.version || U32At(file, at + 12) != footer.size
           || U32At(file, at + 16) != footer.count || !MarkedHeader(U32At(file, at + 20)) {
          error := Some(InconsistentHeader);
        }
      } else {
        repairs := [HeaderAbsent];
      }
    } else if HeaderClaimed(footer.flags) {
      repairs := [HeaderBeforeStart];
    }
  }

  /** The tag that an accepted file carries, given what its item region says. */
  function TagOf(file: seq<Byte>, entries: seq<Entry>): Tag
    requires HasFooter(file) && SizeAccepted(file)
  {
    Tag(if HasHeader(file) then ItemsStart(file) - DESCRIPTOR_LEN else ItemsStart(file),
        FooterEnd(file), HasHeader(file), Presented(entries), FooterRepairs(file) + HeaderRepairs(file))
  }

  /** What reading a file comes to: no footer is no error; a fault in the descriptors or an item region
      that does not parse into the number of items the footer counts is one. */
  function Outcome(file: seq<Byte>): Result<Option<Tag>, ApeError> {
    if !HasFooter(file) then Ok(None)
    else if DescriptorFault(file).Some? then Err(DescriptorFault(file).value)
    else
      var parsed := ParseFrom(Region(file), 0, Footer(file).count);
      if parsed.Err? then Err(parsed.error) else Ok(Some(TagOf(file, parsed.value)))
  }

  /** The raw items of a tag that was read tile the item region, the footer counts them, and the
      allocation clamp left room for all of them. */
  lemma {:induction false} TagsTileTheirRegion(file: seq<Byte>)
    requires Outcome(file).Ok? && Outcome(file).value.Some?
    ensures var items := Outcome(file).value.value.items;
            && Raws(items) == Region(file) && |items| == Footer(file).count
            && ItemCapacity(Footer(file).count, |Region(file)|) == |items|
            && forall k :: 0 <= k < |items| ==> items[k] == Present(items[k].entry)
  {
    var count := Footer(file).count;
    var entries := ParseFrom(Region(file), 0, count).value;
    ParsedItemsTile(Region(file), count, entries);
    CapacityNeverFallsShort(Region(file), count);
    PresentedAt(entries);
  }

  lemma {:induction false} PresentedAt(entries: seq<Entry>)
    ensures forall k :: 0 <= k < |entries| ==> Presented(entries)[k] == Present(entries[k])
  {
    if entries != [] {
      PresentedAt(entries[1..]);
    }
  }

  method ReadNativeApeTag(file: seq<Byte>) returns (r: Result<Option<Tag>, ApeError>)
    ensures r == Outcome(file)
  {
    hide ParseFrom;
    var footerEnd := if HasId3v1(file) then |file| - ID3V1_LEN else |file|;
    if footerEnd < DESCRIPTOR_LEN {
      return Ok(None);
    }
    var at := footerEnd - DESCRIPTOR_LEN;
    if file[at..at + 8] != SIGNATURE {
      return Ok(None);
    }
    var error, repairs := CheckFooter(file, footerEnd);
    if error.Some? {
      return Err(error.value);
    }
    var footer := DescriptorAt(file, at);
    var itemsStart := footerEnd - footer.size;
    var hadHeader, more;
    error, hadHeader, more := CheckHeader(file, footer, itemsStart);
    if error.Some? {
      return Err(error.value);
    }
    var items;
    ghost var entries;
    items, entries := ReadItems(file[itemsStart..at], footer.count);
    if items.Err? {
      return Err(items.error);
    }
    var replaceStart := if hadHeader then itemsStart - DESCRIPTOR_LEN else itemsStart;
    r := Ok(Some(Tag(replaceStart, footerEnd, hadHeader, items.value, repairs + more)));
  }

  // ---- Writing a tag and reading it back. ----

  function EncodeDescriptor(size: nat, count: nat, flags: nat): (b: seq<Byte>)
    requires size < TWO_TO_THE_32 && count < TWO_TO_THE_32 && flags < TWO_TO_THE_32
    ensures |b| == DESCRIPTOR_LEN
  {
    SIGNATURE + Le32(APE_VERSION_2) + Le32(size) + Le32(count) + Le32(flags) + [0, 0, 0, 0, 0, 0, 0, 0]
  }

  /** An item region within the reader's bounds. */
  predicate Bounded(region: seq<Byte>, count: nat) {
    |region| + DESCRIPTOR_LEN <= MAX_TAG_BYTES && count <= MAX_ITEMS
  }

  function HeaderFor(region: seq<Byte>, count: nat, headed: bool): seq<Byte>
    requires Bounded(region, count)
  {
    if headed then EncodeDescriptor(|region| + DESCRIPTOR_LEN, count, HEADER_PRESENT + IS_HEADER) else []
  }

  function FooterFor(region: seq<Byte>, count: nat, headed: bool): seq<Byte>
    requires Bounded(region, count)
  {
    EncodeDescriptor(|region| + DESCRIPTOR_LEN, count, if headed then HEADER_PRESENT else 0)
  }

  /** Audio, then a tag around an item region, then possibly an ID3v1 tag. */
  function TaggedFile(audio: seq<Byte>, region: seq<Byte>, count: nat, headed: bool, id3v1: seq<Byte>): seq<Byte>
    requires Bounded(region, count)
  {
    audio + HeaderFor(region, count, headed) + region + FooterFor(region, count, headed) + id3v1
  }

  /** 32 bytes that are a descriptor saying `d`, with clear reserved bytes. */
  predicate IsDescriptor(code: seq<Byte>, d: Descriptor) {
    && |code| == DESCRIPTOR_LEN && code[0..8] == SIGNATURE && DescriptorAt(code, 0) == d
    && forall k :: 24 <= k < 32 ==> code[k] == 0
  }

  lemma {:induction false} EncodedDescriptorsRead(size: nat, count: nat, flags: nat)
    requires size < TWO_TO_THE_32 && count < TWO_TO_THE_32 && flags < TWO_TO_THE_32
    ensures IsDescriptor(EncodeDescriptor(size, count, flags), Descriptor(APE_VERSION_2, size, count, flags))
  {
    var code := EncodeDescriptor(size, count, flags);
    assert code[0..8] == SIGNATURE && code[8..12] == Le32(APE_VERSION_2) && code[12..16] == Le32(size);
    assert code[16..20] == Le32(count) && code[20..24] == Le32(flags);
    Le32Inverse(code, 8, APE_VERSION_2);
    Le32Inverse(code, 12, size);
    Le32Inverse(code, 16, count);
    Le32Inverse(code, 20, flags);
  }

  lemma {:induction false} DescriptorReadsBack(file: seq<Byte>, at: nat, code: seq<Byte>, d: Descriptor)
    requires IsDescriptor(code, d) && at + DESCRIPTOR_LEN <= |file| && file[at..at + DESCRIPTOR_LEN] == code
    ensures file[at..at + 8] == SIGNATURE && DescriptorAt(file, at) == d
    ensures forall k :: at + 24 <= k < at + 32 ==> file[k] == 0
  {
    SliceOfSlice(file, at, code, 0, 8);
    forall k | at <= k < at + DESCRIPTOR_LEN ensures file[k] == code[k - at] {
      assert file[k] == file[at..at + DESCRIPTOR_LEN][k - at];
    }
  }

  /** Nothing but an ID3v1 tag that is meant as one ends the file. */
  predicate TailIsClear(file: seq<Byte>, id3v1: seq<Byte>) {
    if id3v1 == [] then |file| < ID3V1_LEN || file[|file| - ID3V1_LEN..|file| - ID3V1_LEN + 3] != ID3V1_SIGNATURE
    else |id3v1| == ID3V1_LEN && id3v1[..3] == ID3V1_SIGNATURE
  }

  lemma {:induction false} FooterEndIsFound(front: seq<Byte>, id3v1: seq<Byte>)
    requires TailIsClear(front + id3v1, id3v1)
    ensures FooterEnd(front + id3v1) == |front|
  {
    if id3v1 != [] {
      assert (front + id3v1)[|front|..|front| + 3] == id3v1[..3];
    }
  }

  /** Where the parts of a concatenation are. */
  lemma PartsAreSlices<T>(a: seq<T>, b: seq<T>, c: seq<T>, d: seq<T>, e: seq<T>)
    ensures var s := a + b + c + d + e;
            && |s| == |a| + |b| + |c| + |d| + |e|
            && s[|a|..|a| + |b|] == b && s[|a| + |b|..|a| + |b| + |c|] == c
            && s[|a| + |b| + |c|..|a| + |b| + |c| + |d|] == d
            && s == (a + b + c + d) + e
  {}

  lemma FooterIsFound(file: seq<Byte>, start: nat, region: seq<Byte>, footer: seq<Byte>, count: nat, flags: nat)
    requires |region| + DESCRIPTOR_LEN <= MAX_TAG_BYTES && flags in {0, HEADER_PRESENT}
    requires IsDescriptor(footer, Descriptor(APE_VERSION_2, |region| + DESCRIPTOR_LEN, count, flags))
    requires start + |region| + DESCRIPTOR_LEN == FooterEnd(file)
    requires file[start..start + |region|] == region
    requires file[start + |region|..start + |region| + DESCRIPTOR_LEN] == footer
    ensures HasFooter(file) && Footer(file) == Descriptor(APE_VERSION_2, |region| + DESCRIPTOR_LEN, count, flags)
    ensures forall k :: FooterEnd(file) - 8 <= k < FooterEnd(file) ==> file[k] == 0
  {
    hide IsDescriptor, DescriptorAt;
    var d := Descriptor(APE_VERSION_2, |region| + DESCRIPTOR_LEN, count, flags);
    DescriptorReadsBack(file, start + |region|, footer, d);
  }

  lemma FooterLocates(file: seq<Byte>, start: nat, region: seq<Byte>, count: nat, flags: nat)
    requires |region| + DESCRIPTOR_LEN <= MAX_TAG_BYTES && flags in {0, HEADER_PRESENT}
    requires HasFooter(file) && Footer(file) == Descriptor(APE_VERSION_2, |region| + DESCRIPTOR_LEN, count, flags)
    requires start + |region| + DESCRIPTOR_LEN == FooterEnd(file)
    requires file[start..start + |region|] == region
    requires forall k :: FooterEnd(file) - 8 <= k < FooterEnd(file) ==> file[k] == 0
    ensures SizeAccepted(file) && ItemsStart(file) == start && Region(file) == region
    ensures FooterRepairs(file) == []
  {}

  lemma HeaderIsFound(file: seq<Byte>, header: seq<Byte>)
    requires HasFooter(file) && SizeAccepted(file) && ItemsStart(file) >= DESCRIPTOR_LEN
    requires Footer(file).flags == HEADER_PRESENT
    requires IsDescriptor(header, Footer(file).(flags := HEADER_PRESENT + IS_HEADER))
    requires file[ItemsStart(file) - DESCRIPTOR_LEN..ItemsStart(file)] == header
    ensures HasHeader(file) && HeaderAgrees(file) && HeaderRepairs(file) == []
  {
    var d := Footer(file).(flags := HEADER_PRESENT + IS_HEADER);
    DescriptorReadsBack(file, ItemsStart(file) - DESCRIPTOR_LEN, header, d);
  }

  /** The reader finds what it looks for, where it was put. */
  predicate TagIsFound(file: seq<Byte>, start: nat, region: seq<Byte>, count: nat, headed: bool) {
    && HasFooter(file) && DescriptorFault(file) == None
    && Region(file) == region && Footer(file).count == count && ItemsStart(file) == start
    && HasHeader(file) == headed && FooterRepairs(file) == [] && HeaderRepairs(file) == []
  }

  lemma SlicedTagIsFound(file: seq<Byte>, start: nat, headed: bool, header: seq<Byte>, region: seq<Byte>,
                         footer: seq<Byte>, count: nat)
    requires |region| + DESCRIPTOR_LEN <= MAX_TAG_BYTES && count <= MAX_ITEMS
    requires IsDescriptor(footer,
               Descriptor(APE_VERSION_2, |region| + DESCRIPTOR_LEN, count, if headed then HEADER_PRESENT else 0))
    requires start + |region| + DESCRIPTOR_LEN == FooterEnd(file)
    requires file[start..start + |region|] == region
    requires file[start + |region|..start + |region| + DESCRIPTOR_LEN] == footer
    requires headed ==>
               && IsDescriptor(header,
                               Descriptor(APE_VERSION_2, |region| + DESCRIPTOR_LEN, count, HEADER_PRESENT + IS_HEADER))
               && start >= DESCRIPTOR_LEN && file[start - DESCRIPTOR_LEN..start] == header
    ensures TagIsFound(file, start, region, count, headed)
  {
    FooterIsFound(file, start, region, footer, count, if headed then HEADER_PRESENT else 0);
    FooterLocates(file, start, region, count, if headed then HEADER_PRESENT else 0);
    if headed {
      HeaderIsFound(file, header);
    }
  }

  /** A file that is audio, a tag around an item region, and a tail of `tail` bytes. */
  predicate LaidOut(file: seq<Byte>, audio: nat, region: seq<Byte>, count: nat, headed: bool, tail: nat) {
    var start := audio + if headed then DESCRIPTOR_LEN else 0;
    var at := start + |region|;
    var size := |region| + DESCRIPTOR_LEN;
    && at + DESCRIPTOR_LEN + tail == |file| && FooterEnd(file) == |file| - tail
    && Bounded(region, count) && file[start..at] == region
    && IsDescriptor(file[at..at + DESCRIPTOR_LEN],
                    Descriptor(APE_VERSION_2, size, count, if headed then HEADER_PRESENT else 0))
    && (headed ==> IsDescriptor(file[audio..start], Descriptor(APE_VERSION_2, size, count, HEADER_PRESENT + IS_HEADER)))
  }

  lemma TaggedFilesAreLaidOut(audio: seq<Byte>, region: seq<Byte>, count: nat, headed: bool, id3v1: seq<Byte>)
    requires Bounded(region, count) && TailIsClear(TaggedFile(audio, region, count, headed, id3v1), id3v1)
    ensures LaidOut(TaggedFile(audio, region, count, headed, id3v1), |audio|, region, count, headed, |id3v1|)
  {
    hide EncodeDescriptor, IsDescriptor, FooterEnd, TailIsClear;
    var header, footer := HeaderFor(region, count, headed), FooterFor(region, count, headed);
    EncodedDescriptorsRead(|region| + DESCRIPTOR_LEN, count, HEADER_PRESENT + IS_HEADER);
    EncodedDescriptorsRead(|region| + DESCRIPTOR_LEN, count, if headed then HEADER_PRESENT else 0);
    PartsAreSlices(audio, header, region, footer, id3v1);
    FooterEndIsFound(audio + header + region + footer, id3v1);
  }

  lemma LaidOutTagIsFound(file: seq<Byte>, audio: nat, region: seq<Byte>, count: nat, headed: bool, tail: nat)
    requires LaidOut(file, audio, region, count, headed, tail)
    ensures TagIsFound(file, audio + (if headed then DESCRIPTOR_LEN else 0), region, count, headed)
  {
    var start := audio + if headed then DESCRIPTOR_LEN else 0;
    var at := start + |region|;
    SlicedTagIsFound(file, start, headed, file[audio..start], region, file[at..at + DESCRIPTOR_LEN], count);
  }

  lemma {:induction false} FoundTagReads(file: seq<Byte>, audio: nat, tail: nat, region: seq<Byte>,
                                         entries: seq<Entry>, headed: bool)
    requires FooterEnd(file) == |file| - tail && ParseFrom(region, 0, |entries|) == Ok(entries)
    requires TagIsFound(file, audio + (if headed then DESCRIPTOR_LEN else 0), region, |entries|, headed)
    ensures Outcome(file) == Ok(Some(Tag(audio, |file| - tail, headed, Presented(entries), [])))
  {
    hide ParseFrom, Outcome, TagOf;
    AcceptedTagReads(file, entries);
    FoundTagSpans(file, audio, tail, region, entries, headed);
  }

  lemma {:induction false} AcceptedTagReads(file: seq<Byte>, entries: seq<Entry>)
    requires HasFooter(file) && DescriptorFault(file) == None
    requires ParseFrom(Region(file), 0, Footer(file).count) == Ok(entries)
    ensures Outcome(file) == Ok(Some(TagOf(file, entries)))
  {}

  lemma {:induction false} FoundTagSpans(file: seq<Byte>, audio: nat, tail: nat, region: seq<Byte>,
                                         entries: seq<Entry>, headed: bool)
    requires FooterEnd(file) == |file| - tail
    requires TagIsFound(file, audio + (if headed then DESCRIPTOR_LEN else 0), region, |entries|, headed)
    ensures TagOf(file, entries) == Tag(audio, |file| - tail, headed, Presented(entries), [])
  {
    assert FooterRepairs(file) + HeaderRepairs(file) == [];
  }

  /** Whatever bounded list of entries is written behind any audio, with or without a header and an
      ID3v1 tag, reads back as that list, and the tag found spans exactly what was written. */
  lemma {:induction false} WrittenTagsReadBack(file: seq<Byte>, audio: nat, entries: seq<Entry>, headed: bool,
                                               tail: nat)
    requires LaidOut(file, audio, EncodeEntries(entries), |entries|, headed, tail)
    ensures Outcome(file) == Ok(Some(Tag(audio, |file| - tail, headed, Presented(entries), [])))
  {
    RegionsParseUniquely(EncodeEntries(entries), entries);
    LaidOutTagIsFound(file, audio, EncodeEntries(entries), |entries|, headed, tail);
    FoundTagReads(file, audio, tail, EncodeEntries(entries), entries, headed);
  }
}
