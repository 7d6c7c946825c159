/** The header-driven reader recovers everything the vendor_boot writer was given. */
module VendorRoundTrip {
  import opened Outcomes
  import opened Bytes
  import opened Struct
  import opened Paging
  import opened Sections
  import opened Inputs
  import opened VendorTable
  import opened VendorImage

  // ---------- sizes ----------

  lemma HeaderKinds(o: Options, p: Payload, t: Table)
    requires 3 <= o.headerVersion <= 4
    ensures Kinds(Header(o, p, t)) == VendorBootImgHdr(o.headerVersion)
  {}

  lemma HeaderStringsSize()
    ensures SizeOfAll(VENDOR_BOOT_IMG_HDR_V3) == VENDOR_BOOT_IMAGE_HEADER_V3_SIZE
  {
    var a := [Str(8)] + Words(5);
    var b := [Str(2048), U32, Str(16)];
    var c := [U32, U32, U64];
    assert VENDOR_BOOT_IMG_HDR_V3 == a + b + c;
    SizeOfConcat(a + b, c);
    SizeOfConcat(a, b);
    SizeOfConcat([Str(8)], Words(5));
    SizeOfOne(Str(8));
    SizeOfWords(5);
    SizeOfThree(Str(2048), U32, Str(16));
    SizeOfThree(U32, U32, U64);
  }

  lemma StructSizes()
    ensures SizeOfAll(VENDOR_BOOT_IMG_HDR_V3) == VENDOR_BOOT_IMAGE_HEADER_V3_SIZE
    ensures SizeOfAll(VENDOR_BOOT_IMG_HDR_V4) == VENDOR_BOOT_IMAGE_HEADER_V4_SIZE
  {
    HeaderStringsSize();
    SizeOfConcat(VENDOR_BOOT_IMG_HDR_V3, [U32, U32, U32, U32]);
    assert [U32, U32, U32, U32] == Words(4);
    SizeOfWords(4);
  }

  lemma EntrySize()
    ensures SizeOfAll(TABLE_ENTRY) == VENDOR_RAMDISK_TABLE_ENTRY_V4_SIZE
  {
    SizeOfConcat([U32, U32, U32, Str(32)], Words(16));
    SizeOfWords(16);
    assert [U32, U32, U32, Str(32)] == [U32] + [U32, U32, Str(32)];
    SizeOfConcat([U32], [U32, U32, Str(32)]);
    SizeOfOne(U32);
    SizeOfThree(U32, U32, Str(32));
  }

  // The header is as long as it declares; at the smallest page size that is two pages, otherwise one.
  lemma HeaderSize(o: Options, p: Payload, t: Table)
    requires PageChoice(o.pagesize) && 3 <= o.headerVersion <= 4
    ensures |Serialize(Header(o, p, t))| == SizeOfAll(VendorBootImgHdr(o.headerVersion))
         == if o.headerVersion == 3 then VENDOR_BOOT_IMAGE_HEADER_V3_SIZE else VENDOR_BOOT_IMAGE_HEADER_V4_SIZE
    ensures NumPages(|Serialize(Header(o, p, t))|, o.pagesize) == if o.pagesize == 2048 then 2 else 1
  {
    HeaderKinds(o, p, t);
    SerializedSize(Header(o, p, t));
    StructSizes();
    var n := |Serialize(Header(o, p, t))|;
    var q := if o.pagesize == 2048 then 2 else 1;
    DivModUnique(n + o.pagesize - 1, o.pagesize, q, n + o.pagesize - 1 - o.pagesize * q);
  }

  // ---------- the table ----------

  lemma EntryKinds(e: Entry)
    requires BoardIdOk(e.boardId)
    ensures Kinds(EntryFields(e)) == TABLE_ENTRY
  {
    var a := [I(e.size), I(e.offset), I(e.rtype), S(VENDOR_RAMDISK_NAME_SIZE, e.name)];
    KindsConcat(a, BoardFields(e.boardId));
    assert Kinds(a) == [U32, U32, U32, Str(32)];
    assert Kinds(BoardFields(e.boardId)) == Words(16);
  }

  lemma EntryLength(e: Entry)
    requires BoardIdOk(e.boardId)
    ensures |EntryBytes(e)| == VENDOR_RAMDISK_TABLE_ENTRY_V4_SIZE
  {
    EntryKinds(e);
    EntrySize();
    SerializedSize(EntryFields(e));
  }

  lemma TableLength(fs: FileSystem, es: seq<Entry>)
    requires LaidOut(fs, es)
    ensures |TableBytes(es)| == |es| * VENDOR_RAMDISK_TABLE_ENTRY_V4_SIZE
  {
    forall i | 0 <= i < |es|
      ensures |EncodedEntries(es)[i]| == VENDOR_RAMDISK_TABLE_ENTRY_V4_SIZE
    {
      LaidOutPrefix(fs, es, i);
      EntryLength(es[i]);
    }
    ConcatUniform(EncodedEntries(es), VENDOR_RAMDISK_TABLE_ENTRY_V4_SIZE);
  }

  lemma EntryPosition(fs: FileSystem, es: seq<Entry>, i: nat)
    requires LaidOut(fs, es) && i < |es|
    ensures Slice(TableBytes(es), i * VENDOR_RAMDISK_TABLE_ENTRY_V4_SIZE, VENDOR_RAMDISK_TABLE_ENTRY_V4_SIZE)
         == Some(EntryBytes(es[i]))
  {
    LaidOutPrefix(fs, es, i);
    TableLength(fs, es[..i]);
    EntryLength(es[i]);
    EncodedPrefix(es, i);
    ConcatSlice(EncodedEntries(es), i);
  }

  lemma EntryUnpacks(e: Entry)
    requires BoardIdOk(e.boardId) && AllPackable(EntryFields(e))
    ensures Unpack(TABLE_ENTRY, EntryBytes(e)) == Some(Canonicals(EntryFields(e)))
  {
    EntryKinds(e);
    UnpackSerialize(EntryFields(e), []);
    assert EntryBytes(e) + [] == EntryBytes(e);
  }

  predicate EntryValues(h: seq<Field>, e: Entry) {
    && |h| == 20
    && Num(h[0]) == e.size
    && Num(h[1]) == e.offset
    && Num(h[2]) == e.rtype
    && Raw(h[3]) == Fit(VENDOR_RAMDISK_NAME_SIZE, e.name)
    && BoardIdIn(h) == e.boardId
  }

  lemma BoardIdDecodes(a: seq<Field>, b: seq<int>)
    requires |a| == 4 && BoardIdOk(b) && AllPackable(a + BoardFields(b))
    ensures BoardIdIn(Canonicals(a + BoardFields(b))) == b
  {
    var fs := a + BoardFields(b);
    Members(fs);
    forall i | 0 <= i < 16 ensures Num(Canonicals(fs)[4 + i]) == b[i] {
      assert fs[4 + i] == BoardFields(b)[i];
    }
  }

  lemma EntryDecodes(e: Entry)
    requires BoardIdOk(e.boardId) && AllPackable(EntryFields(e))
    ensures EntryValues(Canonicals(EntryFields(e)), e)
  {
    var a := [I(e.size), I(e.offset), I(e.rtype), S(VENDOR_RAMDISK_NAME_SIZE, e.name)];
    assert EntryFields(e) == a + BoardFields(e.boardId);
    Members(EntryFields(e));
    BoardIdDecodes(a, e.boardId);
  }

  lemma FragmentReadsBack(fs: FileSystem, section: bytes, e: Entry)
    requires BoardIdOk(e.boardId) && AllPackable(EntryFields(e))
    requires Slice(section, e.offset, e.size) == Some(FileOf(fs, e.path))
    ensures ReadFragment(section, EntryBytes(e)) == Some(FragmentOf(fs, e))
  {
    EntryUnpacks(e);
    EntryDecodes(e);
  }

  lemma SlicePlaced(table: bytes, i: nat, size: nat, entry: bytes)
    requires Slice(table, i * size, size) == Some(entry)
    ensures Slice(table, Place(i, size), size) == Some(entry)
  {
    PlaceIsProduct(i, size);
  }

  // Entry i is found in the table and leads to this fragment.
  predicate Leads(read: EntryReader, table: bytes, size: nat, i: nat, f: Fragment) {
    Slice(table, Place(i, size), size).Some? && read(Slice(table, Place(i, size), size).value) == Some(f)
  }

  lemma LeadsTo(section: bytes, table: bytes, size: nat, i: nat, entry: bytes, f: Fragment)
    requires Slice(table, i * size, size) == Some(entry) && ReadFragment(section, entry) == Some(f)
    ensures Leads(EntriesIn(section), table, size, i, f)
  {
    SlicePlaced(table, i, size, entry);
  }

  // Entry i of the table is found and leads to its ramdisk.
  lemma EntryLeadsToFile(fs: FileSystem, es: seq<Entry>, i: nat)
    requires LaidOut(fs, es) && EntriesPackable(es) && i < |es|
    ensures Leads(EntriesIn(Ramdisks(fs, es)), TableBytes(es), VENDOR_RAMDISK_TABLE_ENTRY_V4_SIZE, i,
                  FragmentOf(fs, es[i]))
  {
    EntryPosition(fs, es, i);
    LaidOutPrefix(fs, es, i);
    EntrySlice(fs, es, i);
    FragmentReadsBack(fs, Ramdisks(fs, es), es[i]);
    LeadsTo(Ramdisks(fs, es), TableBytes(es), VENDOR_RAMDISK_TABLE_ENTRY_V4_SIZE, i, EntryBytes(es[i]),
            FragmentOf(fs, es[i]));
  }

  predicate AllLead(read: EntryReader, table: bytes, size: nat, fragments: seq<Fragment>) {
    forall i :: 0 <= i < |fragments| ==> Leads(read, table, size, i, fragments[i])
  }

  lemma LastLeads(read: EntryReader, table: bytes, size: nat, fragments: seq<Fragment>)
    requires fragments != [] && Leads(read, table, size, |fragments| - 1, fragments[|fragments| - 1])
    ensures LastReads(read, table, size, fragments)
  {}

  lemma {:induction false} EntriesReadBack(read: EntryReader, table: bytes, size: nat, fragments: seq<Fragment>)
    requires AllLead(read, table, size, fragments)
    ensures EntriesRead(read, table, size, fragments)
  {
    if fragments != [] {
      var front := fragments[..|fragments| - 1];
      assert forall i :: 0 <= i < |front| ==> front[i] == fragments[i];
      EntriesReadBack(read, table, size, front);
      LastLeads(read, table, size, fragments);
    }
  }

  // Through the table a reader finds every ramdisk, with its type, name and board id, in order.
  lemma FragmentsReadBack(fs: FileSystem, es: seq<Entry>)
    requires LaidOut(fs, es) && EntriesPackable(es)
    ensures ReadFragments(EntriesIn(Ramdisks(fs, es)), TableBytes(es), |es|, VENDOR_RAMDISK_TABLE_ENTRY_V4_SIZE)
         == Some(FragmentsOf(fs, es))
  {
    var read, fragments, size := EntriesIn(Ramdisks(fs, es)), FragmentsOf(fs, es), VENDOR_RAMDISK_TABLE_ENTRY_V4_SIZE;
    forall i | 0 <= i < |es| ensures Leads(read, TableBytes(es), size, i, fragments[i]) {
      EntryLeadsToFile(fs, es, i);
    }
    EntriesReadBack(read, TableBytes(es), size, fragments);
    ReadFragmentsIff(read, TableBytes(es), |es|, size, fragments);
  }

  // ---------- the image ----------

  predicate BaseValues(h: seq<Field>, o: Options, p: Payload, t: Table) {
    && |h| == (if o.headerVersion > 3 then 16 else 12)
    && Raw(h[0]) == VENDOR_BOOT_MAGIC
    && Num(h[1]) == o.headerVersion
    && Num(h[2]) == o.pagesize
    && Num(h[3]) == o.base + o.kernelOffset
    && Num(h[4]) == o.base + o.ramdiskOffset
    && Num(h[5]) == (if o.headerVersion > 3 then t.totalSize else FileSize(p.vendorRamdisk))
    && Raw(h[6]) == Fit(2048, o.vendorCmdline)
    && Num(h[7]) == o.base + o.tagsOffset
    && Raw(h[8]) == Fit(16, o.board)
    && Num(h[9]) == (if o.headerVersion > 3 then VENDOR_BOOT_IMAGE_HEADER_V4_SIZE
                     else VENDOR_BOOT_IMAGE_HEADER_V3_SIZE)
    && Num(h[10]) == FileSize(p.dtb)
    && Num(h[11]) == o.base + o.dtbOffset
  }

  predicate TableValues(h: seq<Field>, p: Payload, t: Table) {
    && |h| == 16
    && Num(h[12]) == |t.entries| * VENDOR_RAMDISK_TABLE_ENTRY_V4_SIZE
    && Num(h[13]) == |t.entries|
    && Num(h[14]) == VENDOR_RAMDISK_TABLE_ENTRY_V4_SIZE
    && Num(h[15]) == FileSize(p.vendorBootconfig)
  }

  predicate HeaderValues(h: seq<Field>, o: Options, p: Payload, t: Table) {
    BaseValues(h, o, p, t) && (o.headerVersion > 3 ==> TableValues(h, p, t))
  }

  lemma MagicFits()
    ensures Fit(8, VENDOR_BOOT_MAGIC) == VENDOR_BOOT_MAGIC
  {
    assert |VENDOR_BOOT_MAGIC| == 8;
  }

  lemma BaseDecodes(o: Options, p: Payload, t: Table, tail: seq<Field>)
    requires AllPackable(BaseFields(o, p, t) + tail) && |tail| == if o.headerVersion > 3 then 4 else 0
    ensures BaseValues(Canonicals(BaseFields(o, p, t) + tail), o, p, t)
  {
    var a := BaseFields(o, p, t);
    assert |a| == 12;
    Members(a + tail);
    assert (a + tail)[..12] == a;
    MagicFits();
  }

  lemma TableFieldsDecode(base: seq<Field>, p: Payload, t: Table)
    requires |base| == 12 && AllPackable(base + TableFields(p, t))
    ensures TableValues(Canonicals(base + TableFields(p, t)), p, t)
  {
    var b := TableFields(p, t);
    assert forall i :: 0 <= i < 4 ==> (base + b)[12 + i] == b[i];
    Members(base + b);
  }

  lemma HeaderDecodes(o: Options, p: Payload, t: Table)
    requires AllPackable(Header(o, p, t))
    ensures HeaderValues(Canonicals(Header(o, p, t)), o, p, t)
  {
    var tail := if o.headerVersion > 3 then TableFields(p, t) else [];
    BaseDecodes(o, p, t, tail);
    if o.headerVersion > 3 {
      TableFieldsDecode(BaseFields(o, p, t), p, t);
    }
  }

  lemma ReadDispatches(data: bytes, h: seq<Field>)
    requires Unpack(PROLOGUE, data) == Some(h) && Raw(h[0]) == VENDOR_BOOT_MAGIC && 3 <= Num(h[1]) <= 4
    ensures Read(data) == ReadVersion(data, Num(h[1]))
  {}

  lemma SectionSizesMatch(header: bytes, h: seq<Field>, fs: FileSystem, o: Options, p: Payload, t: Table)
    requires 3 <= o.headerVersion <= 4 && HeaderValues(h, o, p, t)
    requires |header| == SizeOfAll(VendorBootImgHdr(o.headerVersion))
    requires o.headerVersion > 3 ==> |Ramdisks(fs, t.entries)| == t.totalSize
    requires o.headerVersion > 3 ==> |TableBytes(t.entries)| == |t.entries| * VENDOR_RAMDISK_TABLE_ENTRY_V4_SIZE
    ensures SectionSizes(o.headerVersion, h) == Sizes([header] + DataParts(fs, o, p, t))
  {}

  predicate FragmentsRead(fs: FileSystem, es: seq<Entry>) {
    ReadFragments(EntriesIn(Ramdisks(fs, es)), TableBytes(es), |es|, VENDOR_RAMDISK_TABLE_ENTRY_V4_SIZE)
    == Some(FragmentsOf(fs, es))
  }

  // What the reader makes of the raw reads.
  lemma ReadVersionGiven(data: bytes, version: nat, h: seq<Field>, s: seq<bytes>, fragments: seq<Fragment>)
    requires 3 <= version <= 4 && Unpack(VendorBootImgHdr(version), data) == Some(h) && Num(h[2]) != 0
    requires ReadSections(data, SectionSizes(version, h), Num(h[2])) == Some(s)
    requires version == 4 ==> ReadFragments(EntriesIn(s[1]), s[3], Num(h[13]), Num(h[14])) == Some(fragments)
    ensures ReadVersion(data, version)
         == Some(if version == 3 then ContentsOf(h, s[1], s[2], [], []) else ContentsOf(h, s[1], s[2], fragments, s[4]))
  {}

  lemma ContentsIntended(h: seq<Field>, fs: FileSystem, o: Options, p: Payload, t: Table)
    requires 3 <= o.headerVersion <= 4 && BaseValues(h, o, p, t)
    ensures Intended(fs, o, p, t)
         == if o.headerVersion == 3 then ContentsOf(h, Content(p.vendorRamdisk), Content(p.dtb), [], [])
            else ContentsOf(h, Ramdisks(fs, t.entries), Content(p.dtb), FragmentsOf(fs, t.entries),
                            Content(p.vendorBootconfig))
  {}

  // Given what the raw reads return, the reader assembles the intended contents.
  lemma Assembles(data: bytes, header: bytes, h: seq<Field>, fs: FileSystem, o: Options, p: Payload, t: Table)
    requires o.pagesize > 0 && 3 <= o.headerVersion <= 4 && HeaderValues(h, o, p, t)
    requires Unpack(PROLOGUE, data) == Some(h[..2])
    requires Unpack(VendorBootImgHdr(o.headerVersion), data) == Some(h)
    requires var parts := [header] + DataParts(fs, o, p, t);
             && SectionSizes(o.headerVersion, h) == Sizes(parts)
             && ReadSections(data, Sizes(parts), o.pagesize) == Some(parts)
    requires o.headerVersion > 3 ==> FragmentsRead(fs, t.entries)
    ensures Read(data) == Some(Intended(fs, o, p, t))
  {
    ReadDispatches(data, h[..2]);
    ReadVersionGiven(data, o.headerVersion, h, [header] + DataParts(fs, o, p, t), FragmentsOf(fs, t.entries));
    ContentsIntended(h, fs, o, p, t);
  }

  // What the version 4 sections say about themselves.
  predicate TableReads(fs: FileSystem, t: Table) {
    && |Ramdisks(fs, t.entries)| == t.totalSize
    && |TableBytes(t.entries)| == |t.entries| * VENDOR_RAMDISK_TABLE_ENTRY_V4_SIZE
    && FragmentsRead(fs, t.entries)
  }

  lemma TableReadsBack(fs: FileSystem, t: Table)
    requires TableInv(fs, t) && EntriesPackable(t.entries)
    ensures TableReads(fs, t)
  {
    TableLength(fs, t.entries);
    FragmentsReadBack(fs, t.entries);
  }

  lemma ReadsBack(hdr: seq<Field>, fs: FileSystem, o: Options, p: Payload, t: Table)
    requires PageChoice(o.pagesize) && 3 <= o.headerVersion <= 4
    requires AllPackable(hdr) && Kinds(hdr) == VendorBootImgHdr(o.headerVersion)
    requires |Serialize(hdr)| == SizeOfAll(VendorBootImgHdr(o.headerVersion))
    requires HeaderValues(Canonicals(hdr), o, p, t)
    requires o.headerVersion > 3 ==> TableReads(fs, t)
    ensures Read(Image([Serialize(hdr)] + DataParts(fs, o, p, t), o.pagesize)) == Some(Intended(fs, o, p, t))
  {
    var header, h := Serialize(hdr), Canonicals(hdr);
    PageChoiceIsPowerOfTwo(o.pagesize);
    HeaderReads(hdr, DataParts(fs, o, p, t), o.headerVersion, o.pagesize);
    SectionSizesMatch(header, h, fs, o, p, t);
    Assembles(Image([header] + DataParts(fs, o, p, t), o.pagesize), header, h, fs, o, p, t);
  }

  lemma HeaderReads(hdr: seq<Field>, rest: seq<bytes>, version: int, page: nat)
    requires PowerOfTwo(page) && 3 <= version <= 4
    requires AllPackable(hdr) && Kinds(hdr) == VendorBootImgHdr(version)
    ensures var data := Image([Serialize(hdr)] + rest, page);
            && |hdr| >= 12
            && Unpack(PROLOGUE, data) == Some(Canonicals(hdr)[..2])
            && Unpack(Kinds(hdr), data) == Some(Canonicals(hdr))
            && ReadSections(data, Sizes([Serialize(hdr)] + rest), page) == Some([Serialize(hdr)] + rest)
  {
    var parts := [Serialize(hdr)] + rest;
    assert |hdr| == |Kinds(hdr)|;
    assert Kinds(hdr)[..2] == PROLOGUE;
    ReadsHeader(hdr, 2, rest, page);
    ReadSectionsImage(parts, page, []);
    assert Image(parts, page) + [] == Image(parts, page);
  }

  // From the header alone a reader recovers the ramdisk section, every ramdisk with its table entry, the dtb,
  // the bootconfig and every other argument, for any number of entries.
  lemma RoundTrip(fs: FileSystem, o: Options, p: Payload, t: Table)
    requires Parsed(o) && 3 <= o.headerVersion <= 4 && Writable(o, p, t)
    requires o.headerVersion > 3 ==> TableInv(fs, t)
    ensures Read(ImageBytes(fs, o, p, t)) == Some(Intended(fs, o, p, t))
  {
    HeaderKinds(o, p, t);
    HeaderSize(o, p, t);
    HeaderDecodes(o, p, t);
    if o.headerVersion > 3 {
      TableReadsBack(fs, t);
    }
    ReadsBack(Header(o, p, t), fs, o, p, t);
  }

  // Once the header is packed, a type is the only value of a table entry that can still be out of range.
  lemma OnlyTypesCanFail(fs: FileSystem, o: Options, p: Payload, t: Table)
    requires o.headerVersion > 3 && TableInv(fs, t) && AllPackable(Header(o, p, t))
    ensures EntriesPackable(t.entries) <==> forall i :: 0 <= i < |t.entries| ==> Packable(I(t.entries[i].rtype))
  {
    assert Header(o, p, t)[5] == I(t.totalSize);
    assert Packable(I(t.totalSize));
    forall i | 0 <= i < |t.entries|
      ensures AllPackable(EntryFields(t.entries[i])) <==> Packable(I(t.entries[i].rtype))
    {
      EntryRange(fs, t, i);
      EntryPackable(t.entries[i]);
    }
  }

  lemma EntryRange(fs: FileSystem, t: Table, i: nat)
    requires TableInv(fs, t) && i < |t.entries|
    ensures t.entries[i].offset + t.entries[i].size <= t.totalSize && BoardIdOk(t.entries[i].boardId)
  {
    LaidOutPrefix(fs, t.entries, i);
    EntrySlice(fs, t.entries, i);
  }

  lemma EntryPackable(e: Entry)
    requires e.size < 0x1_0000_0000 && e.offset < 0x1_0000_0000 && BoardIdOk(e.boardId)
    ensures AllPackable(EntryFields(e)) <==> Packable(I(e.rtype))
  {
    var f := EntryFields(e);
    assert f[2] == I(e.rtype);
    assert forall i :: 4 <= i < |f| ==> f[i] == BoardFields(e.boardId)[i - 4];
  }

  lemma BasePackableIff(o: Options, p: Payload, t: Table)
    requires Parsed(o) && 3 <= o.headerVersion <= 4
    ensures AllPackable(BaseFields(o, p, t))
       <==> && Word32(o.base + o.kernelOffset) && Word32(o.base + o.ramdiskOffset) && Word32(o.base + o.tagsOffset)
            && Word64(o.base + o.dtbOffset) && Word32(FileSize(p.dtb))
            && Word32(if o.headerVersion > 3 then t.totalSize else FileSize(p.vendorRamdisk))
  {
    var h := BaseFields(o, p, t);
    if AllPackable(h) {
      assert Packable(h[3]) && Packable(h[4]) && Packable(h[5]) && Packable(h[7]) && Packable(h[10]) && Packable(h[11]);
    }
  }

  lemma TableFieldsPackableIff(p: Payload, t: Table)
    ensures AllPackable(TableFields(p, t))
       <==> Word32(108 * |t.entries|) && Word32(FileSize(p.vendorBootconfig))
  {
    var h := TableFields(p, t);
    if AllPackable(h) {
      assert Packable(h[0]) && Packable(h[3]);
    }
  }

  // A vendor boot image can be written exactly when there is a dtb and these numbers are in range.
  lemma WritableIff(fs: FileSystem, o: Options, p: Payload, t: Table)
    requires Parsed(o) && 3 <= o.headerVersion <= 4 && (o.headerVersion > 3 ==> TableInv(fs, t))
    ensures Writable(o, p, t)
       <==> && 0 < FileSize(p.dtb) && Word32(FileSize(p.dtb))
            && Word32(o.base + o.kernelOffset) && Word32(o.base + o.ramdiskOffset) && Word32(o.base + o.tagsOffset)
            && Word64(o.base + o.dtbOffset)
            && (o.headerVersion == 3 ==> Word32(FileSize(p.vendorRamdisk)))
            && (o.headerVersion == 4 ==>
                  && Word32(t.totalSize) && Word32(108 * |t.entries|) && Word32(FileSize(p.vendorBootconfig))
                  && forall i :: 0 <= i < |t.entries| ==> Word32(t.entries[i].rtype))
  {
    BasePackableIff(o, p, t);
    if o.headerVersion == 4 {
      TableFieldsPackableIff(p, t);
      AllPackableConcat(BaseFields(o, p, t), TableFields(p, t));
      if AllPackable(Header(o, p, t)) {
        OnlyTypesCanFail(fs, o, p, t);
        assert forall i :: 0 <= i < |t.entries| ==> (Packable(I(t.entries[i].rtype)) <==> Word32(t.entries[i].rtype));
      }
    } else {
      assert Header(o, p, t) == BaseFields(o, p, t) + [] == BaseFields(o, p, t);
    }
  }
}
