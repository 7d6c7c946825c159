/** Where the vendor boot image reader finds what it reports: the absolute positions of `bootimg.h`, for any bytes. */
module VendorLayout {
  import opened Outcomes
  import opened Bytes
  import opened Struct
  import opened Paging
  import opened Sections
  import opened Inputs
  import opened VendorTable
  import opened VendorImage
  import opened Layout
  import VendorRoundTrip

  // ---------- the header ----------

  predicate HdrKindsOf(ks: seq<Kind>, version: nat) {
    && |ks| == (if version == 3 then 12 else 16)
    && ks[0] == Str(8) && (forall i :: 1 <= i < 6 ==> ks[i] == U32)
    && ks[6] == Str(2048) && ks[7] == U32 && ks[8] == Str(16) && ks[9] == U32 && ks[10] == U32 && ks[11] == U64
    && forall i :: 12 <= i < |ks| ==> ks[i] == U32
  }

  lemma HdrKinds(version: nat)
    requires 3 <= version <= 4
    ensures HdrKindsOf(VendorBootImgHdr(version), version)
    ensures SizeOfAll(VendorBootImgHdr(version)) == if version == 3 then 2112 else 2128
  {
    VendorRoundTrip.StructSizes();
  }

  lemma HdrOffsets(ks: seq<Kind>, version: nat)
    requires HdrKindsOf(ks, version)
    ensures Offset(ks, 0) == 0 && forall i :: 1 <= i <= 6 ==> Offset(ks, i) == 4 + 4 * i
    ensures Offset(ks, 7) == 2076 && Offset(ks, 8) == 2080 && Offset(ks, 9) == 2096
    ensures Offset(ks, 10) == 2100 && Offset(ks, 11) == 2104
    ensures forall i :: 12 <= i < |ks| ==> Offset(ks, i) == 2112 + 4 * (i - 12)
  {
    forall i | 1 <= i <= 6 ensures Offset(ks, i) == 4 + 4 * i {
      OffsetOfWords(ks, 1, i - 1);
    }
    assert Offset(ks, 7) == Offset(ks, 6) + 2048;
    assert Offset(ks, 8) == Offset(ks, 7) + 4;
    assert Offset(ks, 9) == Offset(ks, 8) + 16;
    assert Offset(ks, 10) == Offset(ks, 9) + 4;
    assert Offset(ks, 11) == Offset(ks, 10) + 4;
    assert Offset(ks, 12) == Offset(ks, 11) + 8;
    forall i | 12 <= i < |ks| ensures Offset(ks, i) == 2112 + 4 * (i - 12) {
      OffsetOfWords(ks, 12, i - 12);
    }
  }

  predicate MembersAt(data: bytes, h: seq<Field>)
    requires |h| >= 12
  {
    && (forall i :: 1 <= i < 6 ==> Has32(data, 4 + 4 * i, Num(h[i])))
    && 2112 <= |data| && Raw(h[6]) == data[28..2076] && Raw(h[8]) == data[2080..2096]
    && Has32(data, 2076, Num(h[7])) && Has32(data, 2096, Num(h[9])) && Has32(data, 2100, Num(h[10]))
    && Has64(data, 2104, Num(h[11]))
    && forall i :: 12 <= i < |h| ==> Has32(data, 2112 + 4 * (i - 12), Num(h[i]))
  }

  lemma HdrMembersAt(ks: seq<Kind>, version: nat, data: bytes, h: seq<Field>)
    requires HdrKindsOf(ks, version) && Unpack(ks, data) == Some(h)
    ensures MembersAt(data, h)
  {
    HdrOffsets(ks, version);
    forall i | 1 <= i < 6 ensures Has32(data, 4 + 4 * i, Num(h[i])) {
      NumberAt(ks, data, h, i);
    }
    TextAt(ks, data, h, 6);
    NumberAt(ks, data, h, 7);
    TextAt(ks, data, h, 8);
    NumberAt(ks, data, h, 9);
    NumberAt(ks, data, h, 10);
    LongNumberAt(ks, data, h, 11);
    forall i | 12 <= i < |h| ensures Has32(data, 2112 + 4 * (i - 12), Num(h[i])) {
      NumberAt(ks, data, h, i);
    }
  }

  // ---------- table entries ----------

  predicate EntryKindsOf(ks: seq<Kind>) {
    && |ks| == 20 && ks[0] == U32 && ks[1] == U32 && ks[2] == U32 && ks[3] == Str(32)
    && forall i :: 4 <= i < 20 ==> ks[i] == U32
  }

  lemma EntryKinds()
    ensures EntryKindsOf(TABLE_ENTRY)
  {}

  // One table entry: size, offset in the ramdisk section, type, name, board id.
  predicate EntryAt(entry: bytes, section: bytes, f: Fragment) {
    && Has32(entry, 0, |f.ramdisk|)
    && 108 <= |entry| && Value32(entry, 4) >= 0 && HasBytes(section, Value32(entry, 4), f.ramdisk)
    && Has32(entry, 8, f.rtype)
    && HasString(entry, 12, 32, f.name)
    && |f.boardId| == 16 && forall j :: 0 <= j < 16 ==> Has32(entry, 44 + 4 * j, f.boardId[j])
  }

  lemma EntryOffsets(ks: seq<Kind>)
    requires EntryKindsOf(ks)
    ensures Offset(ks, 0) == 0 && Offset(ks, 1) == 4 && Offset(ks, 2) == 8 && Offset(ks, 3) == 12
    ensures forall j :: 4 <= j < 20 ==> Offset(ks, j) == 44 + 4 * (j - 4)
  {
    assert Offset(ks, 1) == Offset(ks, 0) + 4;
    assert Offset(ks, 2) == Offset(ks, 1) + 4;
    assert Offset(ks, 3) == Offset(ks, 2) + 4;
    assert Offset(ks, 4) == Offset(ks, 3) + 32;
    forall j | 4 <= j < 20 ensures Offset(ks, j) == 44 + 4 * (j - 4) {
      OffsetOfWords(ks, 4, j - 4);
    }
  }

  lemma EntryMembersAt(ks: seq<Kind>, entry: bytes, e: seq<Field>)
    requires EntryKindsOf(ks) && Unpack(ks, entry) == Some(e)
    ensures Has32(entry, 0, Num(e[0])) && Has32(entry, 4, Num(e[1])) && Has32(entry, 8, Num(e[2]))
    ensures 44 <= |entry| && Raw(e[3]) == entry[12..44]
    ensures forall j :: 0 <= j < 16 ==> Has32(entry, 44 + 4 * j, Num(e[4 + j]))
  {
    EntryOffsets(ks);
    NumberAt(ks, entry, e, 0);
    NumberAt(ks, entry, e, 1);
    NumberAt(ks, entry, e, 2);
    TextAt(ks, entry, e, 3);
    forall j | 0 <= j < 16 ensures Has32(entry, 44 + 4 * j, Num(e[4 + j])) {
      NumberAt(ks, entry, e, 4 + j);
    }
  }

  lemma FragmentParts(section: bytes, entry: bytes, f: Fragment) returns (e: seq<Field>)
    requires ReadFragment(section, entry) == Some(f)
    ensures Unpack(TABLE_ENTRY, entry) == Some(e)
    ensures Slice(section, Num(e[1]), Num(e[0])) == Some(f.ramdisk)
    ensures f.rtype == Num(e[2]) && f.name == CStr(Raw(e[3])) && f.boardId == BoardIdIn(e)
  {
    e := Unpack(TABLE_ENTRY, entry).value;
  }

  lemma FragmentAt(section: bytes, entry: bytes, f: Fragment)
    requires ReadFragment(section, entry) == Some(f)
    ensures EntryAt(entry, section, f)
  {
    EntryKinds();
    var e := FragmentParts(section, entry, f);
    EntryMembersAt(TABLE_ENTRY, entry, e);
    EntryOfMembers(section, entry, e, f);
  }

  lemma EntryOfMembers(section: bytes, entry: bytes, e: seq<Field>, f: Fragment)
    requires |e| == 20
    requires Slice(section, Num(e[1]), Num(e[0])) == Some(f.ramdisk)
    requires f.rtype == Num(e[2]) && f.name == CStr(Raw(e[3])) && f.boardId == BoardIdIn(e)
    requires Has32(entry, 0, Num(e[0])) && Has32(entry, 4, Num(e[1])) && Has32(entry, 8, Num(e[2]))
    requires 44 <= |entry| && Raw(e[3]) == entry[12..44]
    requires forall j :: 0 <= j < 16 ==> Has32(entry, 44 + 4 * j, Num(e[4 + j]))
    ensures EntryAt(entry, section, f)
  {
    assert Has32(entry, 44 + 4 * 15, Num(e[4 + 15]));
    forall j | 0 <= j < 16 ensures Has32(entry, 44 + 4 * j, f.boardId[j]) {
      assert Has32(entry, 44 + 4 * j, Num(e[4 + j]));
    }
  }

  // As many entries as there are fragments, one after the other.
  predicate EntriesAt(table: bytes, size: nat, section: bytes, fragments: seq<Fragment>) {
    fragments == [] ||
    var n := |fragments| - 1;
    && EntriesAt(table, size, section, fragments[..n])
    && Place(n, size) + size <= |table|
    && EntryAt(table[Place(n, size)..Place(n, size) + size], section, fragments[n])
  }

  lemma LastEntryAt(section: bytes, table: bytes, size: nat, fragments: seq<Fragment>)
    requires fragments != [] && EntriesAt(table, size, section, fragments[..|fragments| - 1])
    requires LastReads(EntriesIn(section), table, size, fragments)
    ensures EntriesAt(table, size, section, fragments)
  {
    var at := Place(|fragments| - 1, size);
    FragmentAt(section, table[at..at + size], fragments[|fragments| - 1]);
  }

  lemma {:induction false} EntriesReadAt(table: bytes, size: nat, section: bytes, fragments: seq<Fragment>)
    requires EntriesRead(EntriesIn(section), table, size, fragments)
    ensures EntriesAt(table, size, section, fragments)
  {
    if fragments != [] {
      EntriesReadAt(table, size, section, fragments[..|fragments| - 1]);
      LastEntryRead(EntriesIn(section), table, size, fragments);
      LastEntryAt(section, table, size, fragments);
    }
  }

  // The reader reports as many fragments as the table has entries, each from its entry.
  lemma FragmentsAt(section: bytes, table: bytes, n: nat, size: nat)
    requires ReadFragments(EntriesIn(section), table, n, size).Some?
    ensures |ReadFragments(EntriesIn(section), table, n, size).value| == n
    ensures EntriesAt(table, size, section, ReadFragments(EntriesIn(section), table, n, size).value)
  {
    ReadFragmentsIff(EntriesIn(section), table, n, size, ReadFragments(EntriesIn(section), table, n, size).value);
    EntriesReadAt(table, size, section, ReadFragments(EntriesIn(section), table, n, size).value);
  }

  // ---------- the image ----------

  // Every member of the header that the reader reports, and the sections on pages of the size the header gives.
  predicate HeaderAt(data: bytes, c: Contents) {
    && HasBytes(data, 0, [86, 78, 68, 82, 66, 79, 79, 84])
    && Has32(data, 8, c.headerVersion) && Has32(data, 12, c.pagesize)
    && Has32(data, 16, c.kernelAddr) && Has32(data, 20, c.ramdiskAddr) && Has32(data, 24, |c.ramdisk|)
    && HasString(data, 28, 2048, c.cmdline) && Has32(data, 2076, c.tagsAddr) && HasString(data, 2080, 16, c.name)
    && Has32(data, 2096, c.headerSize) && Has32(data, 2100, |c.dtb|) && Has64(data, 2104, c.dtbAddr)
  }

  predicate SectionsAt(data: bytes, c: Contents, structSize: nat) {
    && c.pagesize > 0
    && var r := NumPages(structSize, c.pagesize);
       && HasBytes(data, c.pagesize * r, c.ramdisk)
       && HasBytes(data, c.pagesize * (r + NumPages(|c.ramdisk|, c.pagesize)), c.dtb)
  }

  // The entries in the bytes from base on.
  predicate TableIn(data: bytes, base: nat, tableSize: nat, size: nat, section: bytes, fragments: seq<Fragment>) {
    base + tableSize <= |data| && EntriesAt(data[base..base + tableSize], size, section, fragments)
  }

  // Version 4: after the dtb the table, with as many entries as the header says, and the bootconfig.
  predicate TableAt(data: bytes, c: Contents) {
    && c.pagesize > 0 && 2128 <= |data|
    && Value32(data, 2112) >= 0 && Value32(data, 2120) >= 0
    && Has32(data, 2116, |c.fragments|) && Has32(data, 2124, |c.bootconfig|)
    && var t := NumPages(2128, c.pagesize) + NumPages(|c.ramdisk|, c.pagesize) + NumPages(|c.dtb|, c.pagesize);
       && TableIn(data, Place(t, c.pagesize), Value32(data, 2112), Value32(data, 2120), c.ramdisk, c.fragments)
       && HasBytes(data, Place(t + NumPages(Value32(data, 2112), c.pagesize), c.pagesize), c.bootconfig)
  }

  predicate FollowsBootimgH(data: bytes, c: Contents) {
    && HeaderAt(data, c)
    && SectionsAt(data, c, if c.headerVersion == 3 then 2112 else 2128)
    && (c.headerVersion == 4 ==> TableAt(data, c))
  }

  lemma FirstTwoAt(ks: seq<Kind>, data: bytes, p: seq<Field>)
    requires Unpack(ks, data) == Some(p) && |ks| == 2 && ks[0] == Str(8) && ks[1] == U32
    ensures 8 <= |data| && Raw(p[0]) == data[0..8] && Has32(data, 8, Num(p[1]))
  {
    assert Offset(ks, 1) == Offset(ks, 0) + 8;
    TextAt(ks, data, p, 0);
    NumberAt(ks, data, p, 1);
  }

  lemma ReadParts(data: bytes) returns (p: seq<Field>)
    requires Read(data).Some?
    ensures Unpack(PROLOGUE, data) == Some(p) && Raw(p[0]) == VENDOR_BOOT_MAGIC && 3 <= Num(p[1]) <= 4
    ensures Read(data) == ReadVersion(data, Num(p[1]))
  {
    p := Unpack(PROLOGUE, data).value;
  }

  lemma PrologueAt(data: bytes, p: seq<Field>)
    requires Unpack(PROLOGUE, data) == Some(p)
    ensures 8 <= |data| && Raw(p[0]) == data[0..8] && Has32(data, 8, Num(p[1]))
  {
    FirstTwoAt(PROLOGUE, data, p);
  }

  // What a successful read is made of.
  lemma VersionReadParts(data: bytes, version: nat)
    returns (h: seq<Field>, s: seq<bytes>, fragments: seq<Fragment>)
    requires 3 <= version <= 4 && ReadVersion(data, version).Some?
    ensures Unpack(VendorBootImgHdr(version), data) == Some(h) && Num(h[2]) > 0
    ensures ReadSections(data, SectionSizes(version, h), Num(h[2])) == Some(s)
    ensures version == 4 ==> ReadFragments(EntriesIn(s[1]), s[3], Num(h[13]), Num(h[14])) == Some(fragments)
    ensures ReadVersion(data, version)
         == Some(if version == 3 then ContentsOf(h, s[1], s[2], [], []) else ContentsOf(h, s[1], s[2], fragments, s[4]))
  {
    h := Unpack(VendorBootImgHdr(version), data).value;
    s := ReadSections(data, SectionSizes(version, h), Num(h[2])).value;
    fragments := if version == 3 then [] else ReadFragments(EntriesIn(s[1]), s[3], Num(h[13]), Num(h[14])).value;
  }

  lemma HeaderOfContents(data: bytes, h: seq<Field>, s: seq<bytes>, fragments: seq<Fragment>, bootconfig: bytes)
    requires |h| >= 12 && |s| >= 3 && MembersAt(data, h) && |s[1]| == Num(h[5]) && |s[2]| == Num(h[10])
    requires HasBytes(data, 0, [86, 78, 68, 82, 66, 79, 79, 84])
    ensures HeaderAt(data, ContentsOf(h, s[1], s[2], fragments, bootconfig))
  {
    assert Has32(data, 4 + 4 * 1, Num(h[1])) && Has32(data, 4 + 4 * 2, Num(h[2]));
    assert Has32(data, 4 + 4 * 3, Num(h[3])) && Has32(data, 4 + 4 * 4, Num(h[4])) && Has32(data, 4 + 4 * 5, Num(h[5]));
  }

  lemma SectionsOfContents(data: bytes, page: nat, sizes: seq<nat>, s: seq<bytes>, c: Contents)
    requires page > 0 && |sizes| >= 3 && ReadSections(data, sizes, page) == Some(s) && c.pagesize == page
    requires c.ramdisk == s[1] && c.dtb == s[2]
    ensures |s[1]| == sizes[1] && |s[2]| == sizes[2] && SectionsAt(data, c, sizes[0])
  {
    assert PagesBefore(sizes, 1, page) == NumPages(sizes[0], page);
    assert PagesBefore(sizes, 2, page) == PagesBefore(sizes, 1, page) + NumPages(sizes[1], page);
    SectionAt(data, sizes, page, s, 1);
    SectionAt(data, sizes, page, s, 2);
  }

  lemma SectionIn(data: bytes, page: nat, sizes: seq<nat>, s: seq<bytes>, i: nat)
    requires page > 0 && i < |sizes| && ReadSections(data, sizes, page) == Some(s)
    ensures |s[i]| == sizes[i] && HasBytes(data, Place(PagesBefore(sizes, i, page), page), s[i])
  {
    SectionAt(data, sizes, page, s, i);
    Commutes(page, PagesBefore(sizes, i, page));
  }

  lemma Commutes(page: nat, n: nat)
    ensures page * n == Place(n, page)
  {
    PlaceIsProduct(n, page);
  }

  lemma PagesOfFour(sizes: seq<nat>, page: nat)
    requires page > 0 && |sizes| == 5
    ensures PagesBefore(sizes, 3, page)
         == NumPages(sizes[0], page) + NumPages(sizes[1], page) + NumPages(sizes[2], page)
    ensures PagesBefore(sizes, 4, page) == PagesBefore(sizes, 3, page) + NumPages(sizes[3], page)
  {
    assert PagesBefore(sizes, 1, page) == NumPages(sizes[0], page);
    assert PagesBefore(sizes, 2, page) == PagesBefore(sizes, 1, page) + NumPages(sizes[1], page);
  }

  lemma LaterSectionsAt(data: bytes, page: nat, sizes: seq<nat>, s: seq<bytes>) returns (base: nat)
    requires page > 0 && |sizes| == 5 && ReadSections(data, sizes, page) == Some(s)
    ensures var t := NumPages(sizes[0], page) + NumPages(sizes[1], page) + NumPages(sizes[2], page); (
            && base == Place(t, page) && |s[3]| == sizes[3] && |s[4]| == sizes[4] && HasBytes(data, base, s[3])
            && HasBytes(data, Place(t + NumPages(sizes[3], page), page), s[4]))
  {
    PagesOfFour(sizes, page);
    SectionIn(data, page, sizes, s, 3);
    SectionIn(data, page, sizes, s, 4);
    base := Place(PagesBefore(sizes, 3, page), page);
  }

  lemma TableSlice(data: bytes, base: nat, table: bytes, size: nat, section: bytes, fragments: seq<Fragment>)
    requires HasBytes(data, base, table) && EntriesAt(table, size, section, fragments)
    ensures TableIn(data, base, |table|, size, section, fragments)
  {}

  lemma TableOfContents(data: bytes, c: Contents, base: nat, tableSize: nat, size: nat)
    requires c.pagesize > 0 && Has32(data, 2112, tableSize) && Has32(data, 2116, |c.fragments|)
    requires Has32(data, 2120, size) && Has32(data, 2124, |c.bootconfig|)
    requires var t := NumPages(2128, c.pagesize) + NumPages(|c.ramdisk|, c.pagesize) + NumPages(|c.dtb|, c.pagesize);
             base == Place(t, c.pagesize)
             && HasBytes(data, Place(t + NumPages(tableSize, c.pagesize), c.pagesize), c.bootconfig)
    requires TableIn(data, base, tableSize, size, c.ramdisk, c.fragments)
    ensures TableAt(data, c)
  {}

  lemma LaterMembers(data: bytes, h: seq<Field>)
    requires |h| == 16 && MembersAt(data, h)
    ensures Has32(data, 2112, Num(h[12])) && Has32(data, 2116, Num(h[13]))
    ensures Has32(data, 2120, Num(h[14])) && Has32(data, 2124, Num(h[15]))
  {
    assert Has32(data, 2112 + 4 * (12 - 12), Num(h[12])) && Has32(data, 2112 + 4 * (13 - 12), Num(h[13]));
    assert Has32(data, 2112 + 4 * (14 - 12), Num(h[14])) && Has32(data, 2112 + 4 * (15 - 12), Num(h[15]));
  }

  lemma TableFollows(data: bytes, h: seq<Field>, s: seq<bytes>, sizes: seq<nat>, fragments: seq<Fragment>)
    requires |h| == 16 && MembersAt(data, h) && Num(h[2]) > 0 && |s| == 5
    requires sizes == [2128, Num(h[5]), Num(h[10]), Num(h[12]), Num(h[15])]
    requires |s[1]| == sizes[1] && |s[2]| == sizes[2]
    requires ReadSections(data, sizes, Num(h[2])) == Some(s)
    requires ReadFragments(EntriesIn(s[1]), s[3], Num(h[13]), Num(h[14])) == Some(fragments)
    ensures TableAt(data, ContentsOf(h, s[1], s[2], fragments, s[4]))
  {
    var base := LaterSectionsAt(data, Num(h[2]), sizes, s);
    LaterMembers(data, h);
    FragmentsAt(s[1], s[3], Num(h[13]), Num(h[14]));
    TableSlice(data, base, s[3], Num(h[14]), s[1], fragments);
    TableOfContents(data, ContentsOf(h, s[1], s[2], fragments, s[4]), base, Num(h[12]), Num(h[14]));
  }

  lemma VersionFollows(data: bytes, version: nat)
    requires 3 <= version <= 4 && ReadVersion(data, version).Some?
    requires HasBytes(data, 0, [86, 78, 68, 82, 66, 79, 79, 84]) && Has32(data, 8, version)
    ensures ReadVersion(data, version).value.headerVersion == version
    ensures FollowsBootimgH(data, ReadVersion(data, version).value)
  {
    HdrKinds(version);
    var h, s, fragments := VersionReadParts(data, version);
    ContentsFollow(VendorBootImgHdr(version), data, version, h, s, SectionSizes(version, h), fragments);
  }

  // Given the raw reads, every member is where the struct places it.
  lemma ContentsFollow(ks: seq<Kind>, data: bytes, version: nat, h: seq<Field>, s: seq<bytes>, sizes: seq<nat>,
                       fragments: seq<Fragment>)
    requires 3 <= version <= 4 && HdrKindsOf(ks, version) && Unpack(ks, data) == Some(h) && Num(h[2]) > 0
    requires sizes == [if version == 3 then 2112 else 2128, Num(h[5]), Num(h[10])]
                      + (if version == 3 then [] else [Num(h[12]), Num(h[15])])
    requires ReadSections(data, sizes, Num(h[2])) == Some(s)
    requires version == 4 ==> ReadFragments(EntriesIn(s[1]), s[3], Num(h[13]), Num(h[14])) == Some(fragments)
    requires HasBytes(data, 0, [86, 78, 68, 82, 66, 79, 79, 84]) && Has32(data, 8, version)
    ensures var c := if version == 3 then ContentsOf(h, s[1], s[2], [], [])
                     else ContentsOf(h, s[1], s[2], fragments, s[4]);
            c.headerVersion == version && FollowsBootimgH(data, c)
  {
    var c := if version == 3 then ContentsOf(h, s[1], s[2], [], []) else ContentsOf(h, s[1], s[2], fragments, s[4]);
    HdrMembersAt(ks, version, data, h);
    assert Has32(data, 4 + 4 * 1, Num(h[1]));
    SectionsOfContents(data, Num(h[2]), sizes, s, c);
    HeaderOfContents(data, h, s, c.fragments, c.bootconfig);
    if version == 4 {
      assert Has32(data, 2112 + 4 * (15 - 12), Num(h[15]));
      TableFollows(data, h, s, sizes, fragments);
    }
  }

  // Whatever bytes the reader accepts, each thing it reports is at the position bootimg.h gives it.
  lemma ReaderFollowsBootimgH(data: bytes)
    requires Read(data).Some?
    ensures 3 <= Read(data).value.headerVersion <= 4 && FollowsBootimgH(data, Read(data).value)
  {
    var p := ReadParts(data);
    PrologueAt(data, p);
    VersionFollows(data, Num(p[1]));
  }

  // The table members that the writer puts into a version 4 header.
  lemma TableMembersWritten(o: Options, p: Payload, t: Table, parts: seq<bytes>)
    requires Parsed(o) && o.headerVersion == 4 && AllPackable(Header(o, p, t))
    ensures var data := Image([Serialize(Header(o, p, t))] + parts, o.pagesize);
            Has32(data, 2112, 108 * |t.entries|) && Has32(data, 2120, 108)
  {
    var hdr := Header(o, p, t);
    VendorRoundTrip.HeaderKinds(o, p, t);
    VendorRoundTrip.HeaderDecodes(o, p, t);
    HdrKinds(4);
    ReadsHeader(hdr, 0, parts, o.pagesize);
    TableMembersAt(Kinds(hdr), Image([Serialize(hdr)] + parts, o.pagesize), Canonicals(hdr), p, t);
  }

  lemma TableMembersAt(ks: seq<Kind>, data: bytes, h: seq<Field>, p: Payload, t: Table)
    requires HdrKindsOf(ks, 4) && Unpack(ks, data) == Some(h) && VendorRoundTrip.TableValues(h, p, t)
    ensures Has32(data, 2112, 108 * |t.entries|) && Has32(data, 2120, 108)
  {
    HdrMembersAt(ks, 4, data, h);
    LaterMembers(data, h);
  }
}
