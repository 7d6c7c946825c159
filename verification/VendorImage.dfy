/** The bytes of a vendor_boot image, and a reader that works from the header alone. */
module VendorImage {
  import opened Outcomes
  import opened Bytes
  import opened Struct
  import opened Paging
  import opened Inputs
  import opened VendorTable

  // "VNDRBOOT"
  const VENDOR_BOOT_MAGIC: bytes := [86, 78, 68, 82, 66, 79, 79, 84]
  const VENDOR_BOOT_MAGIC_SIZE: nat := 8
  const VENDOR_BOOT_NAME_SIZE: nat := 16
  const VENDOR_BOOT_ARGS_SIZE: nat := 2048
  const VENDOR_BOOT_IMAGE_HEADER_V3_SIZE: nat := 2112
  const VENDOR_BOOT_IMAGE_HEADER_V4_SIZE: nat := 2128

  // ---------- what the writer packs ----------

  function BaseFields(o: Options, p: Payload, t: Table): seq<Field> {
    [S(VENDOR_BOOT_MAGIC_SIZE, VENDOR_BOOT_MAGIC),
     I(o.headerVersion),
     I(o.pagesize),
     I(o.base + o.kernelOffset),
     I(o.base + o.ramdiskOffset),
     I(if o.headerVersion > 3 then t.totalSize else FileSize(p.vendorRamdisk)),
     S(VENDOR_BOOT_ARGS_SIZE, o.vendorCmdline),
     I(o.base + o.tagsOffset),
     S(VENDOR_BOOT_NAME_SIZE, o.board),
     I(if o.headerVersion > 3 then VENDOR_BOOT_IMAGE_HEADER_V4_SIZE else VENDOR_BOOT_IMAGE_HEADER_V3_SIZE),
     I(FileSize(p.dtb)),
     Q(o.base + o.dtbOffset)]
  }

  function TableFields(p: Payload, t: Table): seq<Field> {
    [I(|t.entries| * VENDOR_RAMDISK_TABLE_ENTRY_V4_SIZE),
     I(|t.entries|),
     I(VENDOR_RAMDISK_TABLE_ENTRY_V4_SIZE),
     I(FileSize(p.vendorBootconfig))]
  }

  function Header(o: Options, p: Payload, t: Table): seq<Field> {
    BaseFields(o, p, t) + (if o.headerVersion > 3 then TableFields(p, t) else [])
  }

  function DataParts(fs: FileSystem, o: Options, p: Payload, t: Table): seq<bytes> {
    if o.headerVersion > 3 then
      [Ramdisks(fs, t.entries), Content(p.dtb), TableBytes(t.entries), Content(p.vendorBootconfig)]
    else
      [Content(p.vendorRamdisk), Content(p.dtb)]
  }

  function ImageBytes(fs: FileSystem, o: Options, p: Payload, t: Table): bytes
    requires o.pagesize > 0
  {
    Image([Serialize(Header(o, p, t))] + DataParts(fs, o, p, t), o.pagesize)
  }

  predicate EntriesPackable(es: seq<Entry>) {
    forall i :: 0 <= i < |es| ==> AllPackable(EntryFields(es[i]))
  }

  lemma EntriesPackableStep(es: seq<Entry>, i: nat)
    requires i < |es|
    ensures EntriesPackable(es[..i + 1]) <==> EntriesPackable(es[..i]) && AllPackable(EntryFields(es[i]))
    ensures EntriesPackable(es) ==> EntriesPackable(es[..i + 1])
  {
    assert es[..i + 1][i] == es[i];
    assert forall j :: 0 <= j < i ==> es[..i][j] == es[..i + 1][j];
  }

  // Exactly when every step of the vendor boot writer goes through.
  predicate Writable(o: Options, p: Payload, t: Table) {
    && FileSize(p.dtb) > 0
    && AllPackable(Header(o, p, t))
    && (o.headerVersion > 3 ==> EntriesPackable(t.entries))
  }

  // ---------- the layout of bootimg.h ----------

  // magic, header_version
  const PROLOGUE: seq<Kind> := [Str(8), U32]

  // + page_size, kernel_addr, ramdisk_addr, vendor_ramdisk_size, cmdline, tags_addr, name, header_size,
  // dtb_size, dtb_addr
  const VENDOR_BOOT_IMG_HDR_V3: seq<Kind> :=
    PROLOGUE + [U32, U32, U32, U32, Str(2048), U32, Str(16), U32, U32, U64]

  // + vendor_ramdisk_table_size, vendor_ramdisk_table_entry_num, vendor_ramdisk_table_entry_size, bootconfig_size
  const VENDOR_BOOT_IMG_HDR_V4: seq<Kind> := VENDOR_BOOT_IMG_HDR_V3 + [U32, U32, U32, U32]

  // ramdisk_size, ramdisk_offset, ramdisk_type, ramdisk_name, board_id[16]
  const TABLE_ENTRY: seq<Kind> := [U32, U32, U32, Str(32)] + Words(16)

  function VendorBootImgHdr(version: nat): seq<Kind> {
    if version <= 3 then VENDOR_BOOT_IMG_HDR_V3 else VENDOR_BOOT_IMG_HDR_V4
  }

  // One vendor ramdisk as the bootloader finds it through the table.
  datatype Fragment = Fragment(ramdisk: bytes, rtype: int, name: bytes, boardId: seq<int>)

  datatype Contents = Contents(
    headerVersion: int,
    pagesize: nat,
    kernelAddr: int,
    ramdiskAddr: int,
    tagsAddr: int,
    dtbAddr: int,
    cmdline: bytes,
    name: bytes,
    headerSize: nat,
    ramdisk: bytes,
    dtb: bytes,
    fragments: seq<Fragment>,
    bootconfig: bytes)

  function Read(data: bytes): Option<Contents> {
    match Unpack(PROLOGUE, data)
    case None => None
    case Some(h) =>
      if Raw(h[0]) == VENDOR_BOOT_MAGIC && 3 <= Num(h[1]) <= 4 then ReadVersion(data, Num(h[1])) else None
  }

  function ReadVersion(data: bytes, version: nat): Option<Contents>
    requires 3 <= version <= 4
  {
    match Unpack(VendorBootImgHdr(version), data)
    case None => None
    case Some(h) =>
      if Num(h[2]) == 0 then None
      else
        match ReadSections(data, SectionSizes(version, h), Num(h[2]))
        case None => None
        case Some(s) =>
          if version == 3 then Some(ContentsOf(h, s[1], s[2], [], []))
          else
            match ReadFragments(EntriesIn(s[1]), s[3], Num(h[13]), Num(h[14]))
            case None => None
            case Some(fragments) => Some(ContentsOf(h, s[1], s[2], fragments, s[4]))
  }

  // header, vendor ramdisk section, dtb, and in version 4 the table and the bootconfig
  function SectionSizes(version: nat, h: seq<Field>): (sizes: seq<nat>)
    requires 3 <= version <= 4 && |h| == |VendorBootImgHdr(version)|
    ensures |sizes| == if version == 3 then 3 else 5
  {
    [SizeOfAll(VendorBootImgHdr(version)), Num(h[5]), Num(h[10])]
    + (if version == 3 then [] else [Num(h[12]), Num(h[15])])
  }

  function ContentsOf(h: seq<Field>, ramdisk: bytes, dtb: bytes, fragments: seq<Fragment>, bootconfig: bytes): Contents
    requires |h| >= 12
  {
    Contents(
      Num(h[1]), Num(h[2]), Num(h[3]), Num(h[4]), Num(h[7]), Num(h[11]),
      CStr(Raw(h[6])), CStr(Raw(h[8])), Num(h[9]), ramdisk, dtb, fragments, bootconfig)
  }

  // Where item k of a run of items of one size is.
  function Place(k: nat, size: nat): nat {
    if k == 0 then 0 else Place(k - 1, size) + size
  }

  lemma {:induction false} PlaceIsProduct(k: nat, size: nat)
    ensures Place(k, size) == k * size
  {
    if k > 0 {
      PlaceIsProduct(k - 1, size);
      assert (k - 1) * size + size == k * size;
    }
  }

  // What a reader makes of one entry.
  type EntryReader = bytes -> Option<Fragment>

  // The table has n entries of entrySize bytes.
  function ReadFragments(read: EntryReader, table: bytes, n: nat, entrySize: nat): Option<seq<Fragment>> {
    if n == 0 then Some([])
    else
      match ReadFragments(read, table, n - 1, entrySize)
      case None => None
      case Some(front) =>
        match Slice(table, Place(n - 1, entrySize), entrySize)
        case None => None
        case Some(entry) =>
          match read(entry)
          case None => None
          case Some(f) => Some(front + [f])
  }

  // The last entry, where it can be read.
  predicate LastReads(read: EntryReader, table: bytes, size: nat, fragments: seq<Fragment>)
    requires fragments != []
  {
    var at := Place(|fragments| - 1, size);
    at + size <= |table| && read(table[at..at + size]) == Some(fragments[|fragments| - 1])
  }

  // Every entry leads to its fragment.
  predicate EntriesRead(read: EntryReader, table: bytes, size: nat, fragments: seq<Fragment>) {
    fragments == []
    || (EntriesRead(read, table, size, fragments[..|fragments| - 1]) && LastReads(read, table, size, fragments))
  }

  lemma LastEntryRead(read: EntryReader, table: bytes, size: nat, fragments: seq<Fragment>)
    requires fragments != [] && EntriesRead(read, table, size, fragments)
    ensures EntriesRead(read, table, size, fragments[..|fragments| - 1]) && LastReads(read, table, size, fragments)
  {}

  lemma NextFragment(read: EntryReader, table: bytes, n: nat, size: nat, fragments: seq<Fragment>)
    requires n > 0
    ensures ReadFragments(read, table, n, size) == Some(fragments)
       <==> && fragments != [] && LastReadsAt(read, table, n, size, fragments)
            && ReadFragments(read, table, n - 1, size) == Some(fragments[..|fragments| - 1])
  {
    if fragments != [] {
      assert fragments == fragments[..|fragments| - 1] + [fragments[|fragments| - 1]];
    }
  }

  predicate LastReadsAt(read: EntryReader, table: bytes, n: nat, size: nat, fragments: seq<Fragment>)
    requires n > 0 && fragments != []
  {
    var at := Place(n - 1, size);
    at + size <= |table| && read(table[at..at + size]) == Some(fragments[|fragments| - 1])
  }

  // A reader of n entries reports these fragments exactly when there are n and every entry leads to its fragment.
  lemma {:induction false} ReadFragmentsIff(read: EntryReader, table: bytes, n: nat, size: nat,
                                            fragments: seq<Fragment>)
    ensures ReadFragments(read, table, n, size) == Some(fragments)
       <==> |fragments| == n && EntriesRead(read, table, size, fragments)
  {
    if n > 0 {
      NextFragment(read, table, n, size, fragments);
      if fragments != [] {
        ReadFragmentsIff(read, table, n - 1, size, fragments[..|fragments| - 1]);
      }
    }
  }

  // Entries whose ramdisks are in this section.
  function EntriesIn(section: bytes): EntryReader {
    entry => ReadFragment(section, entry)
  }

  function ReadFragment(section: bytes, entry: bytes): Option<Fragment> {
    match Unpack(TABLE_ENTRY, entry)
    case None => None
    case Some(e) =>
      match Slice(section, Num(e[1]), Num(e[0]))
      case None => None
      case Some(ramdisk) => Some(Fragment(ramdisk, Num(e[2]), CStr(Raw(e[3])), BoardIdIn(e)))
  }

  function BoardIdIn(e: seq<Field>): (b: seq<int>)
    requires |e| == 20
    ensures |b| == 16 && forall i :: 0 <= i < 16 ==> b[i] == Num(e[4 + i])
  {
    seq(16, i requires 0 <= i < 16 => Num(e[4 + i]))
  }

  // ---------- what the arguments say the reader should find ----------

  function FragmentOf(fs: FileSystem, e: Entry): Fragment {
    Fragment(FileOf(fs, e.path), e.rtype, CStr(Fit(VENDOR_RAMDISK_NAME_SIZE, e.name)), e.boardId)
  }

  function FragmentsOf(fs: FileSystem, es: seq<Entry>): (r: seq<Fragment>)
    ensures |r| == |es| && forall i :: 0 <= i < |es| ==> r[i] == FragmentOf(fs, es[i])
  {
    seq(|es|, i requires 0 <= i < |es| => FragmentOf(fs, es[i]))
  }

  function Intended(fs: FileSystem, o: Options, p: Payload, t: Table): Contents {
    var v4 := o.headerVersion > 3;
    Contents(
      o.headerVersion, o.pagesize, o.base + o.kernelOffset, o.base + o.ramdiskOffset, o.base + o.tagsOffset,
      o.base + o.dtbOffset, CStr(Fit(2048, o.vendorCmdline)), CStr(Fit(16, o.board)),
      if v4 then VENDOR_BOOT_IMAGE_HEADER_V4_SIZE else VENDOR_BOOT_IMAGE_HEADER_V3_SIZE,
      if v4 then Ramdisks(fs, t.entries) else Content(p.vendorRamdisk),
      Content(p.dtb),
      if v4 then FragmentsOf(fs, t.entries) else [],
      if v4 then Content(p.vendorBootconfig) else [])
  }
}
