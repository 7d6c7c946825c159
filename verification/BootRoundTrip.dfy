/** The header-driven reader recovers everything the boot image writer was given. */
module BootRoundTrip {
  import opened Outcomes
  import opened Bytes
  import opened Struct
  import opened Paging
  import opened Sections
  import opened Inputs
  import opened BootImage

  // ---------- header sizes ----------

  lemma PrologueSize()
    ensures SizeOfAll(PROLOGUE) == 44
  {
    assert PROLOGUE == [Str(8)] + Words(9);
    SizeOfConcat([Str(8)], Words(9));
    SizeOfOne(Str(8));
    SizeOfWords(9);
  }

  // The declared header sizes are the sizes of the structs.
  lemma StructSizes()
    ensures SizeOfAll(BOOT_IMG_HDR_V0) == 1632
    ensures SizeOfAll(BOOT_IMG_HDR_V1) == BOOT_IMAGE_HEADER_V1_SIZE
    ensures SizeOfAll(BOOT_IMG_HDR_V2) == BOOT_IMAGE_HEADER_V2_SIZE
    ensures SizeOfAll(BOOT_IMG_HDR_V3) == BOOT_IMAGE_HEADER_V3_SIZE
    ensures SizeOfAll(BOOT_IMG_HDR_V4) == BOOT_IMAGE_HEADER_V4_SIZE
  {
    PrologueSize();
    SizeOfConcat(PROLOGUE, [U32, Str(16), Str(512), Str(32), Str(1024)]);
    StringsSize();
    SizeOfConcat(BOOT_IMG_HDR_V0, [U32, U64, U32]);
    SizeOfThree(U32, U64, U32);
    SizeOfConcat(BOOT_IMG_HDR_V1, [U32, U64]);
    SizeOfTwo(U32, U64);
    SizeOfConcat(PROLOGUE, [Str(1536)]);
    SizeOfOne(Str(1536));
    SizeOfConcat(BOOT_IMG_HDR_V3, [U32]);
    SizeOfOne(U32);
  }

  lemma StringsSize()
    ensures SizeOfAll([U32, Str(16), Str(512), Str(32), Str(1024)]) == 1588
  {
    SizeOfTwo(U32, Str(16));
    SizeOfThree(Str(512), Str(32), Str(1024));
    SizeOfConcat([U32, Str(16)], [Str(512), Str(32), Str(1024)]);
    assert [U32, Str(16)] + [Str(512), Str(32), Str(1024)] == [U32, Str(16), Str(512), Str(32), Str(1024)];
  }

  lemma LegacyCommonKinds(o: Options, p: Payload, id: bytes)
    ensures Kinds(LegacyCommon(o, p, id)) == BOOT_IMG_HDR_V0
  {}

  lemma LegacyTailKinds(o: Options, p: Payload)
    requires o.pagesize > 0 && 0 <= o.headerVersion <= 2
    ensures BOOT_IMG_HDR_V0 + Kinds(LegacyTail(o, p)) == BootImgHdr(o.headerVersion)
  {
    var ks := Kinds(LegacyTail(o, p));
    if o.headerVersion == 1 {
      assert ks == [U32, U64, U32];
    } else if o.headerVersion == 2 {
      assert ks == [U32, U64, U32] + [U32, U64];
    }
  }

  lemma HeaderV3Kinds(o: Options, p: Payload)
    requires 3 <= o.headerVersion <= 4
    ensures Kinds(HeaderV3AndAbove(o, p)) == BootImgHdr(o.headerVersion)
  {}

  // Whatever the version, the writer emits the struct that bootimg.h declares for it.
  lemma HeaderKinds(o: Options, p: Payload, id: bytes)
    requires o.pagesize > 0 && 0 <= o.headerVersion <= 4
    ensures Kinds(Header(o, p, id)) == BootImgHdr(o.headerVersion)
  {
    if o.headerVersion <= 2 {
      KindsConcat(LegacyCommon(o, p, id), LegacyTail(o, p));
      LegacyCommonKinds(o, p, id);
      LegacyTailKinds(o, p);
    } else {
      HeaderV3Kinds(o, p);
    }
  }

  // The header is exactly as long as declared, so it occupies a single page.
  lemma HeaderSize(o: Options, p: Payload, id: bytes)
    requires PageChoice(o.pagesize) && 0 <= o.headerVersion <= 4
    ensures |Serialize(Header(o, p, id))| == SizeOfAll(BootImgHdr(o.headerVersion))
         == if o.headerVersion == 0 then 1632
            else if o.headerVersion == 1 then BOOT_IMAGE_HEADER_V1_SIZE
            else if o.headerVersion == 2 then BOOT_IMAGE_HEADER_V2_SIZE
            else if o.headerVersion == 3 then BOOT_IMAGE_HEADER_V3_SIZE
            else BOOT_IMAGE_HEADER_V4_SIZE
    ensures NumPages(|Serialize(Header(o, p, id))|, DataPage(o)) == 1
  {
    HeaderKinds(o, p, id);
    SerializedSize(Header(o, p, id));
    StructSizes();
    DivModUnique(|Serialize(Header(o, p, id))| + DataPage(o) - 1, DataPage(o), 1,
                 |Serialize(Header(o, p, id))| - 1);
  }

  // ---------- the os_version word ----------

  lemma WordSplits(v: nat, l: nat, k: nat)
    requires l < Pow2(k)
    ensures BitOr(Shl(v, k), l) == Pow2(k) * v + l
    ensures Shr(BitOr(Shl(v, k), l), k) == v && BitAnd(BitOr(Shl(v, k), l), Pow2(k) - 1) == l
  {
    OrDisjoint(v, l, k);
    ShlMultiplies(v, k);
    ShrDropsLowBits(v, l, k);
    AndLowBits(v, l, k);
  }

  lemma OsWordSplits(o: Options)
    requires o.osVersion < 0x20_0000 && o.osPatchLevel < 0x800
    ensures OsWord(o) < 0x1_0000_0000
    ensures Shr(OsWord(o), 11) == o.osVersion
    ensures BitAnd(OsWord(o), 0x7FF) == o.osPatchLevel
  {
    assert Pow2(11) == 0x800 by {
      assert Pow2(5) == 32;
    }
    WordSplits(o.osVersion, o.osPatchLevel, 11);
  }

  // ---------- versions 0 to 2 ----------

  // The sections in the order of bootimg.h, with nothing where a version has no such section.
  function LegacySections(header: bytes, version: int, p: Payload): seq<bytes> {
    [header, Content(p.kernel), Content(p.ramdisk), Content(p.second),
     if version > 0 then Content(p.recoveryDtbo) else [],
     if version == 2 then Content(p.dtb) else []]
  }

  lemma LegacyImage(header: bytes, o: Options, p: Payload, signature: bytes)
    requires PowerOfTwo(o.pagesize) && 0 <= o.headerVersion <= 2
    ensures Image([header] + DataParts(o, p, signature), o.pagesize)
         == Image(LegacySections(header, o.headerVersion, p), o.pagesize)
  {
    var first := [header, Content(p.kernel), Content(p.ramdisk), Content(p.second)];
    if o.headerVersion == 0 {
      assert [header] + DataParts(o, p, signature) == first;
      TwoEmptySections(first, o.pagesize);
      assert first + [[], []] == LegacySections(header, o.headerVersion, p);
    } else if o.headerVersion == 1 {
      var d := Content(p.recoveryDtbo);
      assert [header] + DataParts(o, p, signature) == first + [d] + [];
      ImageSkipsEmpty(first + [d], [], o.pagesize);
      assert first + [d] + [[]] + [] == LegacySections(header, o.headerVersion, p);
    } else {
      assert [header] + DataParts(o, p, signature) == LegacySections(header, o.headerVersion, p);
    }
  }

  lemma AppendTwo(a: seq<bytes>, b: bytes, c: bytes)
    ensures a + [b] + [c] == a + [b, c] && a + [b] + [] == a + [b] && a + [] == a
  {}

  lemma TwoEmptySections(a: seq<bytes>, p: nat)
    requires PowerOfTwo(p)
    ensures Image(a + [[], []], p) == Image(a, p)
  {
    ImageSkipsEmpty(a, [[]], p);
    ImageSkipsEmpty(a, [], p);
    AppendTwo(a, [], []);
  }

  // The offset computed before any payload exists is the position at which recovery_dtbo is later written.
  lemma RecoveryDtboPosition(o: Options, p: Payload, id: bytes, signature: bytes)
    requires PageChoice(o.pagesize) && 1 <= o.headerVersion <= 2
    ensures var before := [Serialize(Header(o, p, id)), Content(p.kernel), Content(p.ramdisk), Content(p.second)];
            RecoveryDtboOffset(o, p) == |Image(before, o.pagesize)|
    ensures Slice(ImageBytes(o, p, id, signature), RecoveryDtboOffset(o, p), FileSize(p.recoveryDtbo))
         == Some(Content(p.recoveryDtbo))
  {
    PageChoiceIsPowerOfTwo(o.pagesize);
    HeaderSize(o, p, id);
    DtboAfterOnePage(Serialize(Header(o, p, id)), o, p, signature);
  }

  lemma DtboAfterOnePage(header: bytes, o: Options, p: Payload, signature: bytes)
    requires PowerOfTwo(o.pagesize) && 1 <= o.headerVersion <= 2
    requires NumPages(|header|, o.pagesize) == 1
    ensures RecoveryDtboOffset(o, p)
         == |Image([header, Content(p.kernel), Content(p.ramdisk), Content(p.second)], o.pagesize)|
    ensures Slice(Image([header] + DataParts(o, p, signature), o.pagesize),
                  RecoveryDtboOffset(o, p), FileSize(p.recoveryDtbo))
         == Some(Content(p.recoveryDtbo))
  {
    var before := [header, Content(p.kernel), Content(p.ramdisk), Content(p.second)];
    var dtb := if o.headerVersion == 2 then Content(p.dtb) else [];
    SumFourPages(header, Content(p.kernel), Content(p.ramdisk), Content(p.second), o.pagesize);
    ImageLength(before, o.pagesize);
    SectionPosition(before, Content(p.recoveryDtbo), [dtb], o.pagesize);
    LegacyImage(header, o, p, signature);
    assert before + [Content(p.recoveryDtbo)] + [dtb] == LegacySections(header, o.headerVersion, p);
  }

  lemma {:induction false} SumPagesCons(a: bytes, rest: seq<bytes>, p: nat)
    requires p > 0
    ensures SumPages([a] + rest, p) == NumPages(|a|, p) + SumPages(rest, p)
  {
    assert ([a] + rest)[1..] == rest;
  }

  lemma SumFourPages(a: bytes, b: bytes, c: bytes, d: bytes, p: nat)
    requires p > 0
    ensures SumPages([a, b, c, d], p) == NumPages(|a|, p) + NumPages(|b|, p) + NumPages(|c|, p) + NumPages(|d|, p)
  {
    SumPagesCons(a, [b, c, d], p);
    SumPagesCons(b, [c, d], p);
    SumPagesCons(c, [d], p);
    SumPagesCons(d, [], p);
    assert [a] + [b, c, d] == [a, b, c, d];
    assert [b] + [c, d] == [b, c, d];
    assert [c] + [d] == [c, d];
    assert [d] + [] == [d];
  }

  lemma MagicFits()
    ensures Fit(8, BOOT_MAGIC) == BOOT_MAGIC
  {
    assert |BOOT_MAGIC| == 8;
  }

  // The raw reads a bootloader performs all succeed.
  lemma LegacyReads(hdr: seq<Field>, o: Options, p: Payload, signature: bytes)
    requires PowerOfTwo(o.pagesize) && 0 <= o.headerVersion <= 2
    requires AllPackable(hdr) && Kinds(hdr) == BootImgHdr(o.headerVersion)
    ensures var data := Image([Serialize(hdr)] + DataParts(o, p, signature), o.pagesize);
            var s := LegacySections(Serialize(hdr), o.headerVersion, p);
            && Unpack(PROLOGUE, data) == Some(Canonicals(hdr)[..10])
            && Unpack(BootImgHdr(o.headerVersion), data) == Some(Canonicals(hdr))
            && ReadSections(data, Sizes(s), o.pagesize) == Some(s)
  {
    var header := Serialize(hdr);
    var s := LegacySections(header, o.headerVersion, p);
    LegacyImage(header, o, p, signature);
    PrologueOf(o.headerVersion);
    ReadsHeader(hdr, 10, DataParts(o, p, signature), o.pagesize);
    ReadSectionsImage(s, o.pagesize, []);
    assert Image(s, o.pagesize) + [] == Image(s, o.pagesize);
  }

  lemma PrologueOf(version: int)
    requires 0 <= version <= 4
    ensures |BootImgHdr(version)| >= 10 && BootImgHdr(version)[..10] == PROLOGUE
  {}

  // What the decoded members of a version 0 to 2 header have to say.
  predicate CommonNumbers(h: seq<Field>, o: Options, p: Payload) {
    && |h| >= 15
    && Num(h[1]) == FileSize(p.kernel)
    && Num(h[2]) == o.base + o.kernelOffset
    && Num(h[3]) == FileSize(p.ramdisk)
    && Num(h[4]) == (if FileSize(p.ramdisk) > 0 then o.base + o.ramdiskOffset else 0)
    && Num(h[5]) == FileSize(p.second)
    && Num(h[6]) == (if FileSize(p.second) > 0 then o.base + o.secondOffset else 0)
    && Num(h[7]) == o.base + o.tagsOffset
    && Num(h[8]) == o.pagesize
    && Num(h[9]) == o.headerVersion
    && Num(h[10]) == OsWord(o)
  }

  predicate CommonStrings(h: seq<Field>, o: Options, id: bytes) {
    && |h| >= 15
    && Raw(h[0]) == BOOT_MAGIC
    && Raw(h[11]) == Fit(16, o.board)
    && Raw(h[12]) == Fit(512, o.cmdline)
    && Raw(h[13]) == id
    && Raw(h[14]) == Fit(1024, o.extraCmdline)
  }

  predicate TailValues(h: seq<Field>, o: Options, p: Payload)
    requires o.pagesize > 0
  {
    && |h| == (if o.headerVersion <= 0 then 15 else if o.headerVersion == 1 then 18 else 20)
    && (o.headerVersion >= 1 ==>
          && Num(h[15]) == FileSize(p.recoveryDtbo)
          && Num(h[16]) == (if p.recoveryDtbo.Some? then RecoveryDtboOffset(o, p) else 0)
          && Num(h[17]) == DeclaredHeaderSize(o.headerVersion))
    && (o.headerVersion >= 2 ==> Num(h[18]) == FileSize(p.dtb) && Num(h[19]) == o.base + o.dtbOffset)
  }

  lemma NumbersDecode(o: Options, p: Payload, id: bytes, tail: seq<Field>)
    requires AllPackable(LegacyCommon(o, p, id) + tail)
    ensures CommonNumbers(Canonicals(LegacyCommon(o, p, id) + tail), o, p)
  {
    var a := LegacyCommon(o, p, id);
    assert |a| == 15;
    Members(a + tail);
    assert (a + tail)[..15] == a;
  }

  lemma StringsDecode(o: Options, p: Payload, id: bytes, tail: seq<Field>)
    requires |id| == 32 && AllPackable(LegacyCommon(o, p, id) + tail)
    ensures CommonStrings(Canonicals(LegacyCommon(o, p, id) + tail), o, id)
  {
    var a := LegacyCommon(o, p, id);
    assert |a| == 15;
    Members(a + tail);
    MagicFits();
    assert Fit(32, id) == id;
  }

  lemma TailDecodes(common: seq<Field>, o: Options, p: Payload)
    requires o.pagesize > 0 && 0 <= o.headerVersion <= 2 && |common| == 15
    requires AllPackable(common + LegacyTail(o, p))
    ensures TailValues(Canonicals(common + LegacyTail(o, p)), o, p)
  {
    var b := LegacyTail(o, p);
    var h := common + b;
    assert forall i :: 0 <= i < |b| ==> h[15 + i] == b[i];
    Members(h);
  }

  lemma ReadDispatches(data: bytes, h: seq<Field>)
    requires Unpack(PROLOGUE, data) == Some(h) && Raw(h[0]) == BOOT_MAGIC
    ensures Num(h[9]) <= 2 ==> Read(data) == ReadLegacy(data, Num(h[9]))
    ensures 3 <= Num(h[9]) <= 4 ==> Read(data) == ReadV3(data, Num(h[9]))
  {}

  lemma SizesOfSix(s: seq<bytes>)
    requires |s| == 6
    ensures Sizes(s) == [|s[0]|, |s[1]|, |s[2]|, |s[3]|, |s[4]|, |s[5]|]
  {}

  lemma LegacyReadsBack(data: bytes, header: bytes, h: seq<Field>, o: Options, p: Payload, id: bytes)
    requires Parsed(o) && 0 <= o.headerVersion <= 2
    requires CommonNumbers(h, o, p) && CommonStrings(h, o, id) && TailValues(h, o, p)
    requires RawReads(data, header, h, o, p)
    ensures Read(data) == Some(Intended(o, p, id, []))
  {
    var s := LegacySections(header, o.headerVersion, p);
    SizesOfSix(s);
    assert LegacySizes(o.headerVersion, h) == Sizes(s);
    assert ReadLegacy(data, o.headerVersion) == Some(LegacyContents(o.headerVersion, h, s, s[4]));
    OsWordSplits(o);
    LegacyContentsIntended(header, h, o, p, id);
    ReadDispatches(data, h[..10]);
  }

  lemma LegacyContentsIntended(header: bytes, h: seq<Field>, o: Options, p: Payload, id: bytes)
    requires o.pagesize > 0 && 0 <= o.headerVersion <= 2
    requires CommonNumbers(h, o, p) && CommonStrings(h, o, id) && TailValues(h, o, p)
    requires Shr(OsWord(o), 11) == o.osVersion && BitAnd(OsWord(o), 0x7FF) == o.osPatchLevel
    ensures var s := LegacySections(header, o.headerVersion, p);
            LegacyContents(o.headerVersion, h, s, s[4]) == Intended(o, p, id, [])
  {}

  // The raw reads a bootloader performs.
  predicate RawReads(data: bytes, header: bytes, h: seq<Field>, o: Options, p: Payload)
    requires o.pagesize > 0 && 0 <= o.headerVersion <= 2 && |h| >= 10
  {
    var s := LegacySections(header, o.headerVersion, p);
    && |header| == SizeOfAll(BootImgHdr(o.headerVersion))
    && Unpack(PROLOGUE, data) == Some(h[..10])
    && Unpack(BootImgHdr(o.headerVersion), data) == Some(h)
    && ReadSections(data, Sizes(s), o.pagesize) == Some(s)
    && (o.headerVersion >= 1 ==>
          Slice(data, RecoveryDtboOffset(o, p), FileSize(p.recoveryDtbo)) == Some(Content(p.recoveryDtbo)))
  }

  lemma LegacyRawReads(hdr: seq<Field>, o: Options, p: Payload, signature: bytes)
    requires PageChoice(o.pagesize) && 0 <= o.headerVersion <= 2
    requires AllPackable(hdr) && |hdr| >= 10 && Kinds(hdr) == BootImgHdr(o.headerVersion)
    requires |Serialize(hdr)| == SizeOfAll(BootImgHdr(o.headerVersion)) && NumPages(|Serialize(hdr)|, o.pagesize) == 1
    ensures RawReads(Image([Serialize(hdr)] + DataParts(o, p, signature), o.pagesize),
                     Serialize(hdr), Canonicals(hdr), o, p)
  {
    PageChoiceIsPowerOfTwo(o.pagesize);
    LegacyReads(hdr, o, p, signature);
    if o.headerVersion >= 1 {
      DtboAfterOnePage(Serialize(hdr), o, p, signature);
    }
  }

  // Versions 0 to 2: whatever was given comes back from the image, through the header alone.
  lemma LegacyRoundTrip(o: Options, p: Payload, id: bytes, signature: bytes)
    requires Parsed(o) && 0 <= o.headerVersion <= 2 && |id| == 32 && HeaderWritable(o, p, id)
    ensures Read(ImageBytes(o, p, id, signature)) == Some(Intended(o, p, id, []))
  {
    var hdr := LegacyHeader(o, p, id);
    HeaderKinds(o, p, id);
    HeaderSize(o, p, id);
    NumbersDecode(o, p, id, LegacyTail(o, p));
    StringsDecode(o, p, id, LegacyTail(o, p));
    TailDecodes(LegacyCommon(o, p, id), o, p);
    LegacyRawReads(hdr, o, p, signature);
    LegacyReadsBack(ImageBytes(o, p, id, signature), Serialize(hdr), Canonicals(hdr), o, p, id);
  }

  // ---------- versions 3 and 4 ----------

  lemma SignatureFillsItsPage(signature: bytes, page: nat)
    requires PowerOfTwo(page) && 0 < |signature| <= page
    ensures Padded(signature, page) == Fit(page, signature) == Padded(Fit(page, signature), page)
  {
    PadByRemainder(|signature|, page);
    PadByRemainder(page, page);
    DivModUnique(page, page, 1, 0);
    if |signature| < page {
      DivModUnique(|signature|, page, 0, |signature|);
    }
  }

  // What a reader finds in the signature section.
  function SignatureSection(version: int, signature: bytes): bytes {
    if version == 4 then Fit(BOOT_IMAGE_V4_SIGNATURE_SIZE, signature) else []
  }

  lemma V3Image(header: bytes, o: Options, p: Payload, signature: bytes, page: nat)
    requires PowerOfTwo(page) && page == BOOT_IMAGE_V4_SIGNATURE_SIZE
    requires 3 <= o.headerVersion <= 4 && FileSize(p.second) == 0
    requires |signature| <= BOOT_IMAGE_V4_SIGNATURE_SIZE
    ensures Image([header] + DataParts(o, p, signature), page)
         == Image([header, Content(p.kernel), Content(p.ramdisk)]
                  + (if o.headerVersion == 4 && signature == [] then []
                     else [SignatureSection(o.headerVersion, signature)]), page)
  {
    var first := [header, Content(p.kernel), Content(p.ramdisk)];
    if o.headerVersion == 3 {
      assert [header] + DataParts(o, p, signature) == first + [[]];
    } else {
      assert [header] + DataParts(o, p, signature) == first + [[]] + [signature];
      ImageSkipsEmpty(first, [signature], page);
      if signature == [] {
        ImageSkipsEmpty(first, [], page);
        assert first + [[]] + [] == first + [signature];
      } else {
        SignatureFillsItsPage(signature, page);
        ImageConcat(first, [signature], page);
        ImageConcat(first, [Fit(page, signature)], page);
        ImageOfOne(signature, page);
        ImageOfOne(Fit(page, signature), page);
      }
    }
  }

  lemma ImageOfOne(s: bytes, page: nat)
    requires page > 0
    ensures Image([s], page) == Padded(s, page)
  {
    assert [s][1..] == [];
    assert Padded(s, page) + [] == Padded(s, page);
  }

  // A reader that expects one more non-empty section than the image has finds nothing.
  lemma {:induction false} ReadSectionsShort(parts: seq<bytes>, n: nat, p: nat)
    requires PowerOfTwo(p) && n > 0
    ensures ReadSections(Image(parts, p), Sizes(parts) + [n], p) == None
  {
    if parts == [] {
      NumPagesBounds(n, p);
    } else {
      ReadSectionsShort(parts[1..], n, p);
      PadFillsPages(|parts[0]|, p);
      assert Image(parts, p)[|Padded(parts[0], p)|..] == Image(parts[1..], p);
      assert (Sizes(parts) + [n])[1..] == Sizes(parts[1..]) + [n];
    }
  }

  predicate V3Values(h: seq<Field>, o: Options, p: Payload) {
    && |h| == (if o.headerVersion >= 4 then 12 else 11)
    && Raw(h[0]) == BOOT_MAGIC
    && Num(h[1]) == FileSize(p.kernel)
    && Num(h[2]) == FileSize(p.ramdisk)
    && Num(h[3]) == OsWord(o)
    && Num(h[4]) == DeclaredHeaderSize(o.headerVersion)
    && Num(h[9]) == o.headerVersion
    && Raw(h[10]) == Fit(1536, o.cmdline)
    && (o.headerVersion >= 4 ==> Num(h[11]) == BOOT_IMAGE_V4_SIGNATURE_SIZE)
  }

  lemma V3Decodes(o: Options, p: Payload)
    requires 3 <= o.headerVersion <= 4 && AllPackable(HeaderV3AndAbove(o, p))
    ensures V3Values(Canonicals(HeaderV3AndAbove(o, p)), o, p)
  {
    Members(HeaderV3AndAbove(o, p));
    MagicFits();
  }

  lemma SizesOfFour(s: seq<bytes>, last: bytes)
    requires |s| == 3
    ensures Sizes(s + [last]) == [|s[0]|, |s[1]|, |s[2]|, |last|] == Sizes(s) + [|last|]
  {}

  lemma V3ReadsBack(hdr: seq<Field>, o: Options, p: Payload, id: bytes, signature: bytes, page: nat)
    requires PowerOfTwo(page) && page == BOOT_IMAGE_V4_SIGNATURE_SIZE
    requires Parsed(o) && 3 <= o.headerVersion <= 4 && FileSize(p.second) == 0
    requires |signature| <= BOOT_IMAGE_V4_SIGNATURE_SIZE
    requires AllPackable(hdr) && Kinds(hdr) == BootImgHdr(o.headerVersion)
    requires |Serialize(hdr)| == SizeOfAll(BootImgHdr(o.headerVersion))
    requires V3Values(Canonicals(hdr), o, p)
    ensures Read(Image([Serialize(hdr)] + DataParts(o, p, signature), page))
         == if o.headerVersion == 4 && signature == [] then None
            else Some(Intended(o, p, id, SignatureSection(o.headerVersion, signature)))
  {
    var data := Image([Serialize(hdr)] + DataParts(o, p, signature), page);
    var last := SignatureSection(o.headerVersion, signature);
    PrologueOf(o.headerVersion);
    ReadsHeader(hdr, 10, DataParts(o, p, signature), page);
    V3SectionsRead(Serialize(hdr), o, p, signature, page);
    V3Assembles(data, Serialize(hdr), Canonicals(hdr), o, p, id, last);
  }

  // The sections after the header, where the image has them all.
  lemma V3SectionsRead(header: bytes, o: Options, p: Payload, signature: bytes, page: nat)
    requires PowerOfTwo(page) && page == BOOT_IMAGE_V4_SIGNATURE_SIZE
    requires 3 <= o.headerVersion <= 4 && FileSize(p.second) == 0 && |signature| <= BOOT_IMAGE_V4_SIGNATURE_SIZE
    ensures var parts := [header, Content(p.kernel), Content(p.ramdisk)]
                         + [SignatureSection(o.headerVersion, signature)];
            ReadSections(Image([header] + DataParts(o, p, signature), page), Sizes(parts), page)
            == if o.headerVersion == 4 && signature == [] then None else Some(parts)
  {
    var first := [header, Content(p.kernel), Content(p.ramdisk)];
    var last := SignatureSection(o.headerVersion, signature);
    V3Image(header, o, p, signature, page);
    SizesOfFour(first, last);
    if o.headerVersion == 4 && signature == [] {
      assert first + [] == first;
      ReadSectionsShort(first, |last|, page);
    } else {
      ReadSectionsImage(first + [last], page, []);
      assert Image(first + [last], page) + [] == Image(first + [last], page);
    }
  }

  // Given what the raw reads return, the reader assembles the intended contents.
  lemma V3Assembles(data: bytes, header: bytes, h: seq<Field>, o: Options, p: Payload, id: bytes, last: bytes)
    requires Parsed(o) && 3 <= o.headerVersion <= 4 && V3Values(h, o, p)
    requires |header| == SizeOfAll(BootImgHdr(o.headerVersion))
    requires |last| == if o.headerVersion == 4 then BOOT_IMAGE_V4_SIGNATURE_SIZE else 0
    requires Unpack(PROLOGUE, data) == Some(h[..10]) && Unpack(BootImgHdr(o.headerVersion), data) == Some(h)
    ensures var parts := [header, Content(p.kernel), Content(p.ramdisk)] + [last]; (
            && (ReadSections(data, Sizes(parts), 4096) == None ==> Read(data) == None)
            && (ReadSections(data, Sizes(parts), 4096) == Some(parts) ==> Read(data) == Some(Intended(o, p, id, last))))
  {
    SizesOfFour([header, Content(p.kernel), Content(p.ramdisk)], last);
    ReadDispatches(data, h[..10]);
    V3ContentsIntended(header, h, o, p, id, last);
  }

  lemma V3ContentsIntended(header: bytes, h: seq<Field>, o: Options, p: Payload, id: bytes, last: bytes)
    requires Parsed(o) && 3 <= o.headerVersion <= 4 && V3Values(h, o, p)
    ensures V3Contents(o.headerVersion, h, [header, Content(p.kernel), Content(p.ramdisk)] + [last])
         == Intended(o, p, id, last)
  {
    OsWordSplits(o);
  }

  // ---------- the main result ----------

  // From the header alone a reader recovers every payload file byte for byte and every other argument. The one
  // exception is a version 4 image whose signing tool produced no bytes: its header promises a signature that
  // is not there.
  lemma RoundTrip(o: Options, p: Payload, id: bytes, signature: bytes)
    requires Parsed(o) && |id| == 32 && HeaderWritable(o, p, id) && o.headerVersion >= 0
    requires o.headerVersion > 2 ==> FileSize(p.second) == 0
    requires |signature| <= BOOT_IMAGE_V4_SIGNATURE_SIZE
    ensures Read(ImageBytes(o, p, id, signature))
         == if o.headerVersion == 4 && signature == [] then None
            else Some(Intended(o, p, id, SignatureSection(o.headerVersion, signature)))
  {
    if o.headerVersion <= 2 {
      LegacyRoundTrip(o, p, id, signature);
    } else {
      PageChoiceIsPowerOfTwo(BOOT_IMAGE_V4_SIGNATURE_SIZE);
      HeaderKinds(o, p, id);
      HeaderSize(o, p, id);
      V3Decodes(o, p);
      V3ReadsBack(HeaderV3AndAbove(o, p), o, p, id, signature, BOOT_IMAGE_V4_SIGNATURE_SIZE);
    }
  }

  // A header that can be packed has a version no reader would refuse.
  lemma WritableVersion(o: Options, p: Payload, id: bytes)
    requires o.pagesize > 0 && HeaderWritable(o, p, id)
    ensures 0 <= o.headerVersion <= 4
  {
    assert Header(o, p, id)[9] == I(o.headerVersion);
  }

  // ---------- when a header can be written ----------

  // The offset of the recovery dtbo is never too large for its field.
  lemma DtboOffsetPacks(o: Options, p: Payload)
    requires PageChoice(o.pagesize)
    requires Word32(FileSize(p.kernel)) && Word32(FileSize(p.ramdisk)) && Word32(FileSize(p.second))
    ensures Packable(Q(RecoveryDtboOffset(o, p)))
  {
    var g, a, b, c := o.pagesize, NumPages(FileSize(p.kernel), o.pagesize),
                      NumPages(FileSize(p.ramdisk), o.pagesize), NumPages(FileSize(p.second), o.pagesize);
    NumPagesBounds(FileSize(p.kernel), g);
    NumPagesBounds(FileSize(p.ramdisk), g);
    NumPagesBounds(FileSize(p.second), g);
    FourTerms(g, a, b, c);
  }

  lemma FourTerms(g: nat, a: nat, b: nat, c: nat)
    ensures g * (1 + a + b + c) == g + g * a + g * b + g * c
  {}

  lemma LegacyStartPackableIff(o: Options, p: Payload)
    requires Parsed(o)
    ensures AllPackable(LegacyStart(o, p))
       <==> && 0 <= o.headerVersion < 0x1_0000_0000
            && Word32(FileSize(p.kernel)) && Word32(FileSize(p.ramdisk)) && Word32(FileSize(p.second))
            && Word32(o.base + o.kernelOffset) && Word32(o.base + o.tagsOffset)
            && (FileSize(p.ramdisk) > 0 ==> Word32(o.base + o.ramdiskOffset))
            && (FileSize(p.second) > 0 ==> Word32(o.base + o.secondOffset))
  {
    var h := LegacyStart(o, p);
    OsWordSplits(o);
    if AllPackable(h) {
      assert Packable(h[1]) && Packable(h[2]) && Packable(h[3]) && Packable(h[4]) && Packable(h[5]) && Packable(h[6])
          && Packable(h[7]) && Packable(h[9]);
    }
  }

  lemma LegacyTailPackableIff(o: Options, p: Payload)
    requires Parsed(o) && 0 <= o.headerVersion <= 2
    requires Word32(FileSize(p.kernel)) && Word32(FileSize(p.ramdisk)) && Word32(FileSize(p.second))
    ensures AllPackable(LegacyTail(o, p))
       <==> && (o.headerVersion >= 1 ==> Word32(FileSize(p.recoveryDtbo)))
            && (o.headerVersion == 2 ==> Word32(FileSize(p.dtb)) && Word64(o.base + o.dtbOffset))
  {
    var a := if o.headerVersion > 0 then DtboFields(o, p) else [];
    var b := if o.headerVersion > 1 then DtbFields(o, p) else [];
    DtboOffsetPacks(o, p);
    AllPackableConcat(a, b);
    if AllPackable(a) && o.headerVersion > 0 {
      assert Packable(a[0]);
    }
    if AllPackable(b) && o.headerVersion > 1 {
      assert Packable(b[0]) && Packable(b[1]);
    }
  }

  // A version 0 to 2 header can be written exactly when these numbers are in range and version 2 has a dtb. An
  // address without a file to load there does not matter.
  lemma LegacyWritableIff(o: Options, p: Payload, id: bytes)
    requires Parsed(o) && o.headerVersion <= 2
    ensures HeaderWritable(o, p, id)
       <==> && 0 <= o.headerVersion
            && Word32(FileSize(p.kernel)) && Word32(FileSize(p.ramdisk)) && Word32(FileSize(p.second))
            && Word32(o.base + o.kernelOffset) && Word32(o.base + o.tagsOffset)
            && (FileSize(p.ramdisk) > 0 ==> Word32(o.base + o.ramdiskOffset))
            && (FileSize(p.second) > 0 ==> Word32(o.base + o.secondOffset))
            && (o.headerVersion >= 1 ==> Word32(FileSize(p.recoveryDtbo)))
            && (o.headerVersion == 2 ==> 0 < FileSize(p.dtb) && Word32(FileSize(p.dtb)) && Word64(o.base + o.dtbOffset))
  {
    var middle := [S(32, id), S(BOOT_EXTRA_ARGS_SIZE, o.extraCmdline)];
    AllPackableConcat(LegacyStart(o, p) + middle, LegacyTail(o, p));
    AllPackableConcat(LegacyStart(o, p), middle);
    LegacyStartPackableIff(o, p);
    if AllPackable(LegacyStart(o, p)) {
      LegacyTailPackableIff(o, p);
    }
  }

  // For versions 3 and 4 only the two sizes matter.
  lemma V3WritableIff(o: Options, p: Payload, id: bytes)
    requires Parsed(o) && 3 <= o.headerVersion <= 4
    ensures HeaderWritable(o, p, id) <==> Word32(FileSize(p.kernel)) && Word32(FileSize(p.ramdisk))
  {
    var h := HeaderV3AndAbove(o, p);
    OsWordSplits(o);
    if AllPackable(h) {
      assert Packable(h[1]) && Packable(h[2]);
    }
  }
}
