/** Where the boot image reader finds what it reports: the absolute positions of `bootimg.h`, for any bytes. */
module BootLayout {
  import opened Outcomes
  import opened Bytes
  import opened Struct
  import opened Paging
  import opened Sections
  import opened Inputs
  import opened BootImage
  import opened Layout
  import BootRoundTrip

  // ---------- boot images of version 0 to 2 ----------

  lemma LegacyOffsets(ks: seq<Kind>)
    requires |ks| >= 15 && ks[..15] == BOOT_IMG_HDR_V0
    ensures Offset(ks, 0) == 0 && forall i :: 1 <= i <= 11 ==> Offset(ks, i) == 4 + 4 * i
    ensures Offset(ks, 12) == 64 && Offset(ks, 13) == 576 && Offset(ks, 14) == 608 && Offset(ks, 15) == 1632
  {
    LegacyKinds(ks);
    assert Offset(ks, 1) == Offset(ks, 0) + 8;
    forall i | 1 <= i <= 11 ensures Offset(ks, i) == 4 + 4 * i {
      OffsetOfWords(ks, 1, i - 1);
    }
    assert Offset(ks, 12) == Offset(ks, 11) + 16;
    assert Offset(ks, 13) == Offset(ks, 12) + 512;
    assert Offset(ks, 14) == Offset(ks, 13) + 32;
    assert Offset(ks, 15) == Offset(ks, 14) + 1024;
  }

  lemma LegacyKinds(ks: seq<Kind>)
    requires |ks| >= 15 && ks[..15] == BOOT_IMG_HDR_V0
    ensures ks[0] == Str(8) && (forall i :: 1 <= i <= 10 ==> ks[i] == U32)
    ensures ks[11] == Str(16) && ks[12] == Str(512) && ks[13] == Str(32) && ks[14] == Str(1024)
  {
    assert forall i :: 0 <= i < 15 ==> ks[i] == ks[..15][i];
  }

  // The members every version 0 to 2 header has, as bootimg.h places them.
  predicate LegacyHeaderAt(data: bytes, c: Contents) {
    && HasBytes(data, 0, [65, 78, 68, 82, 79, 73, 68, 33])
    && Has32(data, 8, |c.kernel|) && Has32(data, 12, c.kernelAddr)
    && Has32(data, 16, |c.ramdisk|) && Has32(data, 20, c.ramdiskAddr)
    && Has32(data, 24, |c.second|) && Has32(data, 28, c.secondAddr)
    && Has32(data, 32, c.tagsAddr) && Has32(data, 36, c.pagesize) && Has32(data, 40, c.headerVersion)
    && Has32(data, 44, 2048 * c.osVersion + c.osPatchLevel) && c.osPatchLevel < 2048
    && HasString(data, 48, 16, c.name)
    && 1632 <= |data| && c.cmdline == CStr(data[64..576]) + CStr(data[608..1632])
    && HasBytes(data, 576, c.id) && |c.id| == 32
  }

  predicate NumbersAt(data: bytes, h: seq<Field>)
    requires |h| >= 15
  {
    forall i :: 1 <= i <= 10 ==> Has32(data, 4 + 4 * i, Num(h[i]))
  }

  predicate TextsAt(data: bytes, h: seq<Field>)
    requires |h| >= 15
  {
    1632 <= |data|
    && Raw(h[0]) == data[0..8] && Raw(h[11]) == data[48..64] && Raw(h[12]) == data[64..576]
    && Raw(h[13]) == data[576..608] && Raw(h[14]) == data[608..1632]
  }

  lemma LegacyMembersAt(ks: seq<Kind>, data: bytes, h: seq<Field>)
    requires |ks| >= 15 && ks[..15] == BOOT_IMG_HDR_V0 && Unpack(ks, data) == Some(h)
    ensures |h| >= 15 && NumbersAt(data, h) && TextsAt(data, h)
  {
    LegacyKinds(ks);
    LegacyOffsets(ks);
    forall i | 1 <= i <= 10 ensures Has32(data, 4 + 4 * i, Num(h[i])) {
      NumberAt(ks, data, h, i);
    }
    TextAt(ks, data, h, 0);
    TextAt(ks, data, h, 11);
    TextAt(ks, data, h, 12);
    TextAt(ks, data, h, 13);
    TextAt(ks, data, h, 14);
  }

  // Versions 1 and 2: the recovery dtbo, which the header locates by an offset, and the header size.
  predicate LegacyTailAt(data: bytes, c: Contents) {
    && (c.headerVersion >= 1 ==>
          && Has32(data, 1632, |c.recoveryDtbo|)
          && 1644 <= |data| && Value64(data, 1636) >= 0 && HasBytes(data, Value64(data, 1636), c.recoveryDtbo)
          && Has32(data, 1644, c.headerSize))
    && (c.headerVersion == 2 ==> Has32(data, 1648, |c.dtb|) && Has64(data, 1652, c.dtbAddr))
  }

  lemma LegacyTailMembersAt(ks: seq<Kind>, data: bytes, h: seq<Field>)
    requires |ks| >= 18 && ks[..15] == BOOT_IMG_HDR_V0 && Unpack(ks, data) == Some(h)
    requires ks[15] == U32 && ks[16] == U64 && ks[17] == U32
    ensures Has32(data, 1632, Num(h[15])) && Has64(data, 1636, Num(h[16])) && Has32(data, 1644, Num(h[17]))
    ensures |ks| == 20 && ks[18] == U32 && ks[19] == U64 ==>
              Has32(data, 1648, Num(h[18])) && Has64(data, 1652, Num(h[19]))
  {
    LegacyOffsets(ks);
    assert Offset(ks, 16) == Offset(ks, 15) + 4;
    assert Offset(ks, 17) == Offset(ks, 16) + 8;
    NumberAt(ks, data, h, 15);
    LongNumberAt(ks, data, h, 16);
    NumberAt(ks, data, h, 17);
    if |ks| == 20 && ks[18] == U32 && ks[19] == U64 {
      assert Offset(ks, 18) == Offset(ks, 17) + 4;
      assert Offset(ks, 19) == Offset(ks, 18) + 4;
      NumberAt(ks, data, h, 18);
      LongNumberAt(ks, data, h, 19);
    }
  }

  lemma WordParts(q: nat, r: nat, k: nat)
    requires r < Pow2(k)
    ensures Shr(Pow2(k) * q + r, k) == q && BitAnd(Pow2(k) * q + r, Pow2(k) - 1) == r
  {
    ShlMultiplies(q, k);
    ShrDropsLowBits(q, r, k);
    AndLowBits(q, r, k);
  }

  lemma OsWordParts(w: nat)
    ensures w == 2048 * Shr(w, 11) + BitAnd(w, 0x7FF) && BitAnd(w, 0x7FF) < 2048
  {
    assert Pow2(5) == 32;
    assert Pow2(11) == 2048;
    WordParts(w / 2048, w % 2048, 11);
  }

  // The sections after the header: each starts where the pages of the ones before it end.
  predicate LegacySectionsAt(data: bytes, c: Contents, headerSize: nat) {
    && c.pagesize > 0
    && var k := NumPages(headerSize, c.pagesize);
       var r := k + NumPages(|c.kernel|, c.pagesize);
       var s := r + NumPages(|c.ramdisk|, c.pagesize);
       var d := s + NumPages(|c.second|, c.pagesize) + NumPages(|c.recoveryDtbo|, c.pagesize);
       && HasBytes(data, c.pagesize * k, c.kernel)
       && HasBytes(data, c.pagesize * r, c.ramdisk)
       && HasBytes(data, c.pagesize * s, c.second)
       && HasBytes(data, c.pagesize * d, c.dtb)
  }

  lemma PagesOfSix(sizes: seq<nat>, page: nat)
    requires page > 0 && |sizes| == 6
    ensures PagesBefore(sizes, 1, page) == NumPages(sizes[0], page)
    ensures PagesBefore(sizes, 2, page) == PagesBefore(sizes, 1, page) + NumPages(sizes[1], page)
    ensures PagesBefore(sizes, 3, page) == PagesBefore(sizes, 2, page) + NumPages(sizes[2], page)
    ensures PagesBefore(sizes, 5, page)
         == PagesBefore(sizes, 3, page) + NumPages(sizes[3], page) + NumPages(sizes[4], page)
  {
    assert PagesBefore(sizes, 4, page) == PagesBefore(sizes, 3, page) + NumPages(sizes[3], page);
  }

  lemma FiveSectionsAt(data: bytes, sizes: seq<nat>, page: nat, s: seq<bytes>)
    requires page > 0 && |sizes| == 6 && ReadSections(data, sizes, page) == Some(s)
    ensures forall i :: 0 <= i < 6 ==> |s[i]| == sizes[i] && HasBytes(data, page * PagesBefore(sizes, i, page), s[i])
  {
    forall i | 0 <= i < 6
      ensures |s[i]| == sizes[i] && HasBytes(data, page * PagesBefore(sizes, i, page), s[i])
    {
      SectionAt(data, sizes, page, s, i);
    }
  }

  // What a successful read is made of.
  lemma LegacyReadParts(data: bytes, version: nat) returns (h: seq<Field>, s: seq<bytes>, dtbo: bytes)
    requires version <= 2 && ReadLegacy(data, version).Some?
    ensures Unpack(BootImgHdr(version), data) == Some(h) && Num(h[8]) > 0
    ensures ReadSections(data, LegacySizes(version, h), Num(h[8])) == Some(s)
    ensures Slice(data, if version >= 1 then Num(h[16]) else 0, if version >= 1 then Num(h[15]) else 0) == Some(dtbo)
    ensures ReadLegacy(data, version) == Some(LegacyContents(version, h, s, dtbo))
  {
    h := Unpack(BootImgHdr(version), data).value;
    s := ReadSections(data, LegacySizes(version, h), Num(h[8])).value;
    dtbo := Slice(data, if version >= 1 then Num(h[16]) else 0, if version >= 1 then Num(h[15]) else 0).value;
  }

  lemma FirstTenAt(ks: seq<Kind>, data: bytes, p: seq<Field>)
    requires Unpack(ks, data) == Some(p) && |ks| == 10 && ks[0] == Str(8) && forall i :: 1 <= i < 10 ==> ks[i] == U32
    ensures 8 <= |data| && Raw(p[0]) == data[0..8] && Has32(data, 40, Num(p[9]))
  {
    OffsetOfWords(ks, 1, 8);
    TextAt(ks, data, p, 0);
    NumberAt(ks, data, p, 9);
  }

  lemma PrologueKinds()
    ensures var ks := PROLOGUE;
            |ks| == 10 && ks[0] == Str(8) && forall i :: 1 <= i < 10 ==> ks[i] == U32
  {}

  // The magic and the version that every reader looks at first.
  lemma PrologueAt(data: bytes, p: seq<Field>)
    requires Unpack(PROLOGUE, data) == Some(p)
    ensures 8 <= |data| && Raw(p[0]) == data[0..8] && Has32(data, 40, Num(p[9]))
  {
    PrologueKinds();
    FirstTenAt(PROLOGUE, data, p);
  }

  lemma HeaderOfContents(data: bytes, version: nat, h: seq<Field>, s: seq<bytes>, dtbo: bytes)
    requires version <= 2 && |h| == |BootImgHdr(version)| && |s| == 6
    requires NumbersAt(data, h) && TextsAt(data, h)
    requires |s[1]| == Num(h[1]) && |s[2]| == Num(h[3]) && |s[3]| == Num(h[5])
    requires HasBytes(data, 0, [65, 78, 68, 82, 79, 73, 68, 33]) && Has32(data, 40, version)
    ensures LegacyHeaderAt(data, LegacyContents(version, h, s, dtbo))
  {
    OsWordParts(Num(h[10]));
    assert forall i :: 1 <= i <= 10 ==> Has32(data, 4 + 4 * i, Num(h[i]));
  }

  lemma TailOfContents(data: bytes, version: nat, h: seq<Field>, s: seq<bytes>, dtbo: bytes)
    requires version <= 2 && |h| == |BootImgHdr(version)| && |s| == 6
    requires version >= 1 ==>
               && Has32(data, 1632, Num(h[15])) && Has64(data, 1636, Num(h[16])) && Has32(data, 1644, Num(h[17]))
               && Slice(data, Num(h[16]), Num(h[15])) == Some(dtbo)
    requires version == 2 ==>
               Has32(data, 1648, Num(h[18])) && Has64(data, 1652, Num(h[19])) && |s[5]| == Num(h[18])
    ensures LegacyTailAt(data, LegacyContents(version, h, s, dtbo))
  {}

  lemma SectionsOfContents(data: bytes, page: nat, s: seq<bytes>, sizes: seq<nat>, c: Contents)
    requires |s| == 6 && |sizes| == 6 && page > 0 && c.pagesize == page
    requires c.kernel == s[1] && c.ramdisk == s[2] && c.second == s[3] && c.dtb == s[5] && |c.recoveryDtbo| == sizes[4]
    requires forall i :: 0 <= i < 6 ==> |s[i]| == sizes[i] && HasBytes(data, page * PagesBefore(sizes, i, page), s[i])
    ensures LegacySectionsAt(data, c, sizes[0])
  {
    PagesOfSix(sizes, page);
    assert HasBytes(data, page * PagesBefore(sizes, 1, page), c.kernel);
    assert HasBytes(data, page * PagesBefore(sizes, 2, page), c.ramdisk);
    assert HasBytes(data, page * PagesBefore(sizes, 3, page), c.second);
    assert HasBytes(data, page * PagesBefore(sizes, 5, page), c.dtb);
  }

  function LegacyStructSize(version: int): nat {
    if version == 0 then 1632 else if version == 1 then 1648 else 1660
  }

  predicate LegacyKindsOf(ks: seq<Kind>, version: nat) {
    && |ks| == (if version == 0 then 15 else if version == 1 then 18 else 20)
    && ks[..15] == BOOT_IMG_HDR_V0
    && (version >= 1 ==> ks[15] == U32 && ks[16] == U64 && ks[17] == U32)
    && (version >= 2 ==> ks[18] == U32 && ks[19] == U64)
  }

  lemma LegacyHdrKinds(version: nat)
    requires version <= 2
    ensures LegacyKindsOf(BootImgHdr(version), version)
    ensures SizeOfAll(BootImgHdr(version)) == LegacyStructSize(version)
  {
    BootRoundTrip.StructSizes();
  }

  // Given the raw reads, every member is where the struct places it.
  lemma LegacyContentsAt(ks: seq<Kind>, data: bytes, version: nat, h: seq<Field>, s: seq<bytes>, dtbo: bytes,
                         sizes: seq<nat>)
    requires version <= 2 && LegacyKindsOf(ks, version) && Unpack(ks, data) == Some(h)
    requires |h| == |BootImgHdr(version)| && sizes == LegacySizes(version, h)
    requires Num(h[8]) > 0 && ReadSections(data, sizes, Num(h[8])) == Some(s)
    requires Slice(data, if version >= 1 then Num(h[16]) else 0, if version >= 1 then Num(h[15]) else 0) == Some(dtbo)
    requires HasBytes(data, 0, [65, 78, 68, 82, 79, 73, 68, 33]) && Has32(data, 40, version)
    ensures var c := LegacyContents(version, h, s, dtbo);
            LegacyHeaderAt(data, c) && LegacyTailAt(data, c) && LegacySectionsAt(data, c, sizes[0])
  {
    FiveSectionsAt(data, sizes, Num(h[8]), s);
    LegacyMembersAt(ks, data, h);
    HeaderOfContents(data, version, h, s, dtbo);
    if version >= 1 {
      LegacyTailMembersAt(ks, data, h);
    }
    TailOfContents(data, version, h, s, dtbo);
    SectionsOfContents(data, Num(h[8]), s, sizes, LegacyContents(version, h, s, dtbo));
  }

  lemma LegacyReadFollows(data: bytes, version: nat)
    requires version <= 2 && ReadLegacy(data, version).Some?
    requires HasBytes(data, 0, [65, 78, 68, 82, 79, 73, 68, 33]) && Has32(data, 40, version)
    ensures var c := ReadLegacy(data, version).value;
            LegacyHeaderAt(data, c) && LegacyTailAt(data, c) && LegacySectionsAt(data, c, LegacyStructSize(version))
  {
    LegacyHdrKinds(version);
    var h, s, dtbo := LegacyReadParts(data, version);
    LegacyContentsAt(BootImgHdr(version), data, version, h, s, dtbo, LegacySizes(version, h));
  }

  // ---------- boot images of version 3 and 4 ----------

  predicate V3KindsOf(ks: seq<Kind>, version: nat) {
    && |ks| == (if version == 3 then 11 else 12)
    && ks[0] == Str(8) && (forall i :: 1 <= i < 10 ==> ks[i] == U32) && ks[10] == Str(1536)
    && (version == 4 ==> ks[11] == U32)
  }

  lemma V3HdrKinds(version: nat)
    requires 3 <= version <= 4
    ensures V3KindsOf(BootImgHdr(version), version)
    ensures SizeOfAll(BootImgHdr(version)) == if version == 3 then 1580 else 1584
  {
    BootRoundTrip.StructSizes();
  }

  // The members and the sections of versions 3 and 4, on pages of 4096 bytes.
  predicate V3At(data: bytes, c: Contents) {
    V3HeaderAt(data, c) && V3SectionsAt(data, c)
  }

  predicate V3HeaderAt(data: bytes, c: Contents) {
    && HasBytes(data, 0, [65, 78, 68, 82, 79, 73, 68, 33])
    && Has32(data, 8, |c.kernel|) && Has32(data, 12, |c.ramdisk|)
    && Has32(data, 16, 2048 * c.osVersion + c.osPatchLevel) && c.osPatchLevel < 2048
    && Has32(data, 20, c.headerSize) && Has32(data, 40, c.headerVersion)
    && HasString(data, 44, 1536, c.cmdline)
    && (c.headerVersion == 4 ==> Has32(data, 1580, |c.signature|))
  }

  predicate V3SectionsAt(data: bytes, c: Contents) {
    var r := 1 + NumPages(|c.kernel|, 4096);
    && HasBytes(data, 4096, c.kernel)
    && HasBytes(data, 4096 * r, c.ramdisk)
    && HasBytes(data, 4096 * (r + NumPages(|c.ramdisk|, 4096)), c.signature)
  }

  lemma V3MembersAt(ks: seq<Kind>, version: nat, data: bytes, h: seq<Field>)
    requires V3KindsOf(ks, version) && Unpack(ks, data) == Some(h)
    ensures forall i :: 1 <= i < 10 ==> Has32(data, 4 + 4 * i, Num(h[i]))
    ensures 1580 <= |data| && Raw(h[10]) == data[44..1580]
    ensures version == 4 ==> Has32(data, 1580, Num(h[11]))
  {
    forall i | 1 <= i <= 10 ensures Offset(ks, i) == 4 + 4 * i {
      OffsetOfWords(ks, 1, i - 1);
    }
    forall i | 1 <= i < 10 ensures Has32(data, 4 + 4 * i, Num(h[i])) {
      NumberAt(ks, data, h, i);
    }
    TextAt(ks, data, h, 10);
    if version == 4 {
      assert Offset(ks, 11) == Offset(ks, 10) + 1536;
      NumberAt(ks, data, h, 11);
    }
  }

  lemma ThreeSectionsAt(data: bytes, sizes: seq<nat>, page: nat, s: seq<bytes>)
    requires page > 0 && |sizes| == 4 && ReadSections(data, sizes, page) == Some(s) && 0 < sizes[0] <= page
    ensures |s[1]| == sizes[1] && |s[2]| == sizes[2] && |s[3]| == sizes[3]
    ensures var r := 1 + NumPages(sizes[1], page); (
            && HasBytes(data, page, s[1]) && HasBytes(data, page * r, s[2])
            && HasBytes(data, page * (r + NumPages(sizes[2], page)), s[3]))
  {
    DivModUnique(sizes[0] + page - 1, page, 1, sizes[0] - 1);
    assert PagesBefore(sizes, 1, page) == 1;
    assert PagesBefore(sizes, 2, page) == 1 + NumPages(sizes[1], page);
    assert PagesBefore(sizes, 3, page) == 1 + NumPages(sizes[1], page) + NumPages(sizes[2], page);
    SectionAt(data, sizes, page, s, 1);
    SectionAt(data, sizes, page, s, 2);
    SectionAt(data, sizes, page, s, 3);
  }

  // What a successful read is made of.
  lemma V3ReadParts(data: bytes, version: nat) returns (h: seq<Field>, s: seq<bytes>)
    requires 3 <= version <= 4 && ReadV3(data, version).Some?
    ensures Unpack(BootImgHdr(version), data) == Some(h)
    ensures ReadSections(data, V3Sizes(version, h), 4096) == Some(s)
    ensures ReadV3(data, version) == Some(V3Contents(version, h, s))
  {
    h := Unpack(BootImgHdr(version), data).value;
    s := ReadSections(data, V3Sizes(version, h), 4096).value;
  }

  lemma V3HeaderOfContents(data: bytes, version: nat, h: seq<Field>, s: seq<bytes>)
    requires 3 <= version <= 4 && |h| == |BootImgHdr(version)| && |s| == 4
    requires forall i :: 1 <= i < 10 ==> Has32(data, 4 + 4 * i, Num(h[i]))
    requires 1580 <= |data| && Raw(h[10]) == data[44..1580]
    requires version == 4 ==> Has32(data, 1580, |s[3]|)
    requires |s[1]| == Num(h[1]) && |s[2]| == Num(h[2])
    requires HasBytes(data, 0, [65, 78, 68, 82, 79, 73, 68, 33]) && Has32(data, 40, version)
    ensures V3HeaderAt(data, V3Contents(version, h, s))
  {
    OsWordParts(Num(h[3]));
    assert Has32(data, 4 + 4 * 1, Num(h[1])) && Has32(data, 4 + 4 * 2, Num(h[2]));
    assert Has32(data, 4 + 4 * 3, Num(h[3])) && Has32(data, 4 + 4 * 4, Num(h[4]));
  }

  lemma V3SectionsOfContents(data: bytes, version: nat, h: seq<Field>, s: seq<bytes>, sizes: seq<nat>, page: nat)
    requires 3 <= version <= 4 && |h| == |BootImgHdr(version)| && |sizes| == 4 && page == 4096
    requires 0 < sizes[0] <= page && ReadSections(data, sizes, page) == Some(s)
    ensures |s[1]| == sizes[1] && |s[2]| == sizes[2] && |s[3]| == sizes[3]
    ensures V3SectionsAt(data, V3Contents(version, h, s))
  {
    ThreeSectionsAt(data, sizes, page, s);
  }

  lemma V3ContentsAt(ks: seq<Kind>, data: bytes, version: nat, h: seq<Field>, s: seq<bytes>, sizes: seq<nat>)
    requires 3 <= version <= 4 && V3KindsOf(ks, version) && Unpack(ks, data) == Some(h)
    requires |h| == |BootImgHdr(version)| && sizes == V3Sizes(version, h) && 0 < sizes[0] <= 4096
    requires ReadSections(data, sizes, 4096) == Some(s)
    requires HasBytes(data, 0, [65, 78, 68, 82, 79, 73, 68, 33]) && Has32(data, 40, version)
    ensures V3At(data, V3Contents(version, h, s))
  {
    V3MembersAt(ks, version, data, h);
    V3SectionsOfContents(data, version, h, s, sizes, 4096);
    V3HeaderOfContents(data, version, h, s);
  }

  lemma V3ReadFollows(data: bytes, version: nat)
    requires 3 <= version <= 4 && ReadV3(data, version).Some?
    requires HasBytes(data, 0, [65, 78, 68, 82, 79, 73, 68, 33]) && Has32(data, 40, version)
    ensures V3At(data, ReadV3(data, version).value)
  {
    V3HdrKinds(version);
    var h, s := V3ReadParts(data, version);
    V3ContentsAt(BootImgHdr(version), data, version, h, s, V3Sizes(version, h));
  }

  // ---------- any version ----------

  predicate FollowsBootimgH(data: bytes, c: Contents) {
    if c.headerVersion <= 2 then
      && LegacyHeaderAt(data, c) && LegacyTailAt(data, c)
      && LegacySectionsAt(data, c, if c.headerVersion == 0 then 1632 else if c.headerVersion == 1 then 1648 else 1660)
    else V3At(data, c)
  }

  lemma ReadParts(data: bytes) returns (p: seq<Field>)
    requires Read(data).Some?
    ensures Unpack(PROLOGUE, data) == Some(p) && Raw(p[0]) == BOOT_MAGIC && Num(p[9]) <= 4
    ensures Read(data) == if Num(p[9]) <= 2 then ReadLegacy(data, Num(p[9])) else ReadV3(data, Num(p[9]))
  {
    p := Unpack(PROLOGUE, data).value;
  }

  lemma VersionsRead(data: bytes, version: nat)
    ensures version <= 2 && ReadLegacy(data, version).Some? ==> ReadLegacy(data, version).value.headerVersion == version
    ensures 3 <= version <= 4 && ReadV3(data, version).Some? ==> ReadV3(data, version).value.headerVersion == version
  {}

  // Whatever bytes the reader accepts, each thing it reports is at the position bootimg.h gives it.
  lemma ReaderFollowsBootimgH(data: bytes)
    requires Read(data).Some?
    ensures 0 <= Read(data).value.headerVersion <= 4 && FollowsBootimgH(data, Read(data).value)
  {
    var p := ReadParts(data);
    PrologueAt(data, p);
    VersionsRead(data, Num(p[9]));
    if Num(p[9]) <= 2 {
      LegacyReadFollows(data, Num(p[9]));
    } else {
      V3ReadFollows(data, Num(p[9]));
    }
  }

  // ---------- the reserved words ----------

  // The four words between the header size and the version.
  predicate ReservedZero(data: bytes) {
    Has32(data, 24, 0) && Has32(data, 28, 0) && Has32(data, 32, 0) && Has32(data, 36, 0)
  }

  lemma ReservedMembers(o: Options, p: Payload)
    requires 3 <= o.headerVersion <= 4 && AllPackable(HeaderV3AndAbove(o, p))
    ensures var h := Canonicals(HeaderV3AndAbove(o, p));
            |h| >= 11 && forall i :: 5 <= i <= 8 ==> Num(h[i]) == 0
  {
    var hdr := HeaderV3AndAbove(o, p);
    Members(hdr);
    assert forall i :: 5 <= i <= 8 ==> hdr[i] == I(0);
  }

  lemma ReservedAt(ks: seq<Kind>, version: nat, data: bytes, h: seq<Field>)
    requires V3KindsOf(ks, version) && Unpack(ks, data) == Some(h) && forall i :: 5 <= i <= 8 ==> Num(h[i]) == 0
    ensures ReservedZero(data)
  {
    V3MembersAt(ks, version, data, h);
    assert Has32(data, 4 + 4 * 5, Num(h[5])) && Has32(data, 4 + 4 * 6, Num(h[6]));
    assert Has32(data, 4 + 4 * 7, Num(h[7])) && Has32(data, 4 + 4 * 8, Num(h[8]));
  }

  // They are zero in every version 3 or 4 image.
  lemma ReservedAreZero(o: Options, p: Payload, parts: seq<bytes>, page: nat)
    requires 3 <= o.headerVersion <= 4 && AllPackable(HeaderV3AndAbove(o, p)) && page > 0
    ensures ReservedZero(Image([Serialize(HeaderV3AndAbove(o, p))] + parts, page))
  {
    var hdr := HeaderV3AndAbove(o, p);
    BootRoundTrip.HeaderV3Kinds(o, p);
    V3HdrKinds(o.headerVersion);
    ReadsHeader(hdr, 0, parts, page);
    ReservedMembers(o, p);
    ReservedAt(Kinds(hdr), o.headerVersion, Image([Serialize(hdr)] + parts, page), Canonicals(hdr));
  }
}
