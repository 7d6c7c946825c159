/** The bytes of a boot image, and a reader that works from the header alone. */
module BootImage {
  import opened Outcomes
  import opened Bytes
  import opened Struct
  import opened Paging
  import opened Inputs
  import opened ImageId

  // "ANDROID!"
  const BOOT_MAGIC: bytes := [65, 78, 68, 82, 79, 73, 68, 33]
  const BOOT_MAGIC_SIZE: nat := 8
  const BOOT_NAME_SIZE: nat := 16
  const BOOT_ARGS_SIZE: nat := 512
  const BOOT_EXTRA_ARGS_SIZE: nat := 1024
  const BOOT_IMAGE_HEADER_V1_SIZE: nat := 1648
  const BOOT_IMAGE_HEADER_V2_SIZE: nat := 1660
  const BOOT_IMAGE_HEADER_V3_SIZE: nat := 1580
  const BOOT_IMAGE_HEADER_V3_PAGESIZE: nat := 4096
  const BOOT_IMAGE_HEADER_V4_SIZE: nat := 1584
  const BOOT_IMAGE_V4_SIGNATURE_SIZE: nat := 4096

  // ---------- what the writer packs ----------

  function OsWord(o: Options): nat {
    BitOr(Shl(o.osVersion, 11), o.osPatchLevel)
  }

  // Computed from file sizes alone, while the header is being written.
  function RecoveryDtboOffset(o: Options, p: Payload): nat
    requires o.pagesize > 0
  {
    o.pagesize * (1 + NumPages(FileSize(p.kernel), o.pagesize)
                  + NumPages(FileSize(p.ramdisk), o.pagesize)
                  + NumPages(FileSize(p.second), o.pagesize))
  }

  // The members up to the command line.
  function LegacyStart(o: Options, p: Payload): seq<Field> {
    [S(BOOT_MAGIC_SIZE, BOOT_MAGIC),
     I(FileSize(p.kernel)),
     I(o.base + o.kernelOffset),
     I(FileSize(p.ramdisk)),
     I(if FileSize(p.ramdisk) > 0 then o.base + o.ramdiskOffset else 0),
     I(FileSize(p.second)),
     I(if FileSize(p.second) > 0 then o.base + o.secondOffset else 0),
     I(o.base + o.tagsOffset),
     I(o.pagesize),
     I(o.headerVersion),
     I(OsWord(o)),
     S(BOOT_NAME_SIZE, o.board),
     S(BOOT_ARGS_SIZE, o.cmdline)]
  }

  // The members every header of version 0 to 2 has.
  function LegacyCommon(o: Options, p: Payload, id: bytes): seq<Field> {
    LegacyStart(o, p) + [S(32, id), S(BOOT_EXTRA_ARGS_SIZE, o.extraCmdline)]
  }

  // Versions 1 and 2: the recovery dtbo and the header size.
  function DtboFields(o: Options, p: Payload): seq<Field>
    requires o.pagesize > 0
  {
    [I(FileSize(p.recoveryDtbo)),
     Q(if p.recoveryDtbo.Some? then RecoveryDtboOffset(o, p) else 0),
     I(if o.headerVersion == 1 then BOOT_IMAGE_HEADER_V1_SIZE else BOOT_IMAGE_HEADER_V2_SIZE)]
  }

  function DtbFields(o: Options, p: Payload): seq<Field> {
    [I(FileSize(p.dtb)), Q(o.base + o.dtbOffset)]
  }

  function LegacyTail(o: Options, p: Payload): seq<Field>
    requires o.pagesize > 0
  {
    (if o.headerVersion > 0 then DtboFields(o, p) else [])
    + (if o.headerVersion > 1 then DtbFields(o, p) else [])
  }

  function LegacyHeader(o: Options, p: Payload, id: bytes): seq<Field>
    requires o.pagesize > 0
  {
    LegacyCommon(o, p, id) + LegacyTail(o, p)
  }

  function HeaderV3AndAbove(o: Options, p: Payload): seq<Field> {
    [S(BOOT_MAGIC_SIZE, BOOT_MAGIC),
     I(FileSize(p.kernel)),
     I(FileSize(p.ramdisk)),
     I(OsWord(o)),
     I(if o.headerVersion > 3 then BOOT_IMAGE_HEADER_V4_SIZE else BOOT_IMAGE_HEADER_V3_SIZE),
     I(0), I(0), I(0), I(0),
     I(o.headerVersion),
     S(BOOT_ARGS_SIZE + BOOT_EXTRA_ARGS_SIZE, o.cmdline)]
    + (if o.headerVersion >= 4 then [I(BOOT_IMAGE_V4_SIGNATURE_SIZE)] else [])
  }

  // The digest of the components, in a 32-byte slot.
  function ImageIdOf(sha1: Sha1, o: Options, p: Payload): (id: bytes)
    ensures |id| == 32
  {
    Fit(32, sha1(Preimage(Components(o.headerVersion, p))))
  }

  function Header(o: Options, p: Payload, id: bytes): seq<Field>
    requires o.pagesize > 0
  {
    if o.headerVersion == 3 || o.headerVersion == 4 then HeaderV3AndAbove(o, p)
    else LegacyHeader(o, p, id)
  }

  // Headers of version 3 and above ignore --pagesize.
  function DataPage(o: Options): nat {
    if o.headerVersion > 2 then BOOT_IMAGE_HEADER_V3_PAGESIZE else o.pagesize
  }

  // The payload sections in file order; signature is what add_boot_image_signature appends.
  function DataParts(o: Options, p: Payload, signature: bytes): seq<bytes> {
    [Content(p.kernel), Content(p.ramdisk), Content(p.second)]
    + (if 0 < o.headerVersion < 3 then [Content(p.recoveryDtbo)] else [])
    + (if o.headerVersion == 2 then [Content(p.dtb)] else [])
    + (if o.headerVersion >= 4 then [signature] else [])
  }

  function ImageBytes(o: Options, p: Payload, id: bytes, signature: bytes): bytes
    requires o.pagesize > 0
  {
    Image([Serialize(Header(o, p, id))] + DataParts(o, p, signature), DataPage(o))
  }

  // Exactly when every step of write_header goes through.
  predicate HeaderWritable(o: Options, p: Payload, id: bytes)
    requires o.pagesize > 0
  {
    && o.headerVersion <= 4
    && AllPackable(Header(o, p, id))
    && (o.headerVersion == 2 ==> FileSize(p.dtb) > 0)
  }

  // ---------- the layout of bootimg.h ----------

  // magic and nine words; header_version is the last of them in every version.
  const PROLOGUE: seq<Kind> := [Str(8), U32, U32, U32, U32, U32, U32, U32, U32, U32]

  // boot_img_hdr_v0: magic, kernel_size, kernel_addr, ramdisk_size, ramdisk_addr, second_size, second_addr,
  // tags_addr, page_size, header_version, os_version, name, cmdline, id, extra_cmdline
  const BOOT_IMG_HDR_V0: seq<Kind> := PROLOGUE + [U32, Str(16), Str(512), Str(32), Str(1024)]
  // + recovery_dtbo_size, recovery_dtbo_offset, header_size
  const BOOT_IMG_HDR_V1: seq<Kind> := BOOT_IMG_HDR_V0 + [U32, U64, U32]
  // + dtb_size, dtb_addr
  const BOOT_IMG_HDR_V2: seq<Kind> := BOOT_IMG_HDR_V1 + [U32, U64]
  // magic, kernel_size, ramdisk_size, os_version, header_size, reserved[4], header_version, cmdline
  const BOOT_IMG_HDR_V3: seq<Kind> := PROLOGUE + [Str(1536)]
  // + signature_size
  const BOOT_IMG_HDR_V4: seq<Kind> := BOOT_IMG_HDR_V3 + [U32]

  function BootImgHdr(version: nat): seq<Kind> {
    if version == 0 then BOOT_IMG_HDR_V0
    else if version == 1 then BOOT_IMG_HDR_V1
    else if version == 2 then BOOT_IMG_HDR_V2
    else if version == 3 then BOOT_IMG_HDR_V3
    else BOOT_IMG_HDR_V4
  }

  // What a bootloader learns from an image; members a version does not have are empty or zero.
  datatype Contents = Contents(
    headerVersion: int,
    pagesize: nat,
    kernel: bytes,
    ramdisk: bytes,
    second: bytes,
    recoveryDtbo: bytes,
    dtb: bytes,
    signature: bytes,
    kernelAddr: int,
    ramdiskAddr: int,
    secondAddr: int,
    tagsAddr: int,
    dtbAddr: int,
    osVersion: nat,
    osPatchLevel: nat,
    name: bytes,
    cmdline: bytes,
    id: bytes,
    headerSize: nat)

  function Read(data: bytes): Option<Contents> {
    match Unpack(PROLOGUE, data)
    case None => None
    case Some(h) =>
      if Raw(h[0]) != BOOT_MAGIC then None
      else if Num(h[9]) <= 2 then ReadLegacy(data, Num(h[9]))
      else if Num(h[9]) <= 4 then ReadV3(data, Num(h[9]))
      else None
  }

  function ReadLegacy(data: bytes, version: nat): Option<Contents>
    requires version <= 2
  {
    match Unpack(BootImgHdr(version), data)
    case None => None
    case Some(h) =>
      var page := Num(h[8]);
      if page == 0 then None
      else
        var dtboSize := if version >= 1 then Num(h[15]) else 0;
        var dtboOffset := if version >= 1 then Num(h[16]) else 0;
        match (ReadSections(data, LegacySizes(version, h), page), Slice(data, dtboOffset, dtboSize))
        case (Some(s), Some(dtbo)) => Some(LegacyContents(version, h, s, dtbo))
        case _ => None
  }

  // header, kernel, ramdisk, second, recovery_dtbo, dtb
  function LegacySizes(version: nat, h: seq<Field>): (sizes: seq<nat>)
    requires version <= 2 && |h| == |BootImgHdr(version)|
    ensures |sizes| == 6
  {
    [SizeOfAll(BootImgHdr(version)), Num(h[1]), Num(h[3]), Num(h[5]),
     if version >= 1 then Num(h[15]) else 0, if version == 2 then Num(h[18]) else 0]
  }

  function LegacyContents(version: nat, h: seq<Field>, s: seq<bytes>, dtbo: bytes): Contents
    requires version <= 2 && |h| == |BootImgHdr(version)| && |s| == 6
  {
    Contents(
      version, Num(h[8]), s[1], s[2], s[3], dtbo, s[5], [],
      Num(h[2]), Num(h[4]), Num(h[6]), Num(h[7]), if version == 2 then Num(h[19]) else 0,
      Shr(Num(h[10]), 11), BitAnd(Num(h[10]), 0x7FF),
      CStr(Raw(h[11])), CStr(Raw(h[12])) + CStr(Raw(h[14])), Raw(h[13]),
      if version >= 1 then Num(h[17]) else 0)
  }

  function ReadV3(data: bytes, version: nat): Option<Contents>
    requires 3 <= version <= 4
  {
    match Unpack(BootImgHdr(version), data)
    case None => None
    case Some(h) =>
      match ReadSections(data, V3Sizes(version, h), 4096)
      case None => None
      case Some(s) => Some(V3Contents(version, h, s))
  }

  // header, kernel, ramdisk, signature
  function V3Sizes(version: nat, h: seq<Field>): (sizes: seq<nat>)
    requires 3 <= version <= 4 && |h| == |BootImgHdr(version)|
    ensures |sizes| == 4
  {
    [SizeOfAll(BootImgHdr(version)), Num(h[1]), Num(h[2]), if version == 4 then Num(h[11]) else 0]
  }

  function V3Contents(version: nat, h: seq<Field>, s: seq<bytes>): Contents
    requires 3 <= version <= 4 && |h| == |BootImgHdr(version)| && |s| == 4
  {
    Contents(
      version, 4096, s[1], s[2], [], [], [], s[3], 0, 0, 0, 0, 0,
      Shr(Num(h[3]), 11), BitAnd(Num(h[3]), 0x7FF), [], CStr(Raw(h[10])), [], Num(h[4]))
  }

  // The header size a version declares; version 0 declares none.
  function DeclaredHeaderSize(version: int): nat {
    if version <= 0 then 0
    else if version == 1 then BOOT_IMAGE_HEADER_V1_SIZE
    else if version == 2 then BOOT_IMAGE_HEADER_V2_SIZE
    else if version == 3 then BOOT_IMAGE_HEADER_V3_SIZE
    else BOOT_IMAGE_HEADER_V4_SIZE
  }

  // What the arguments say the reader should find.
  function Intended(o: Options, p: Payload, id: bytes, signature: bytes): Contents {
    var v := o.headerVersion;
    if v <= 2 then
      Contents(
        v, o.pagesize, Content(p.kernel), Content(p.ramdisk), Content(p.second),
        if v > 0 then Content(p.recoveryDtbo) else [], if v == 2 then Content(p.dtb) else [], [],
        o.base + o.kernelOffset,
        if FileSize(p.ramdisk) > 0 then o.base + o.ramdiskOffset else 0,
        if FileSize(p.second) > 0 then o.base + o.secondOffset else 0,
        o.base + o.tagsOffset,
        if v == 2 then o.base + o.dtbOffset else 0,
        o.osVersion, o.osPatchLevel,
        CStr(Fit(16, o.board)), CStr(Fit(512, o.cmdline)) + CStr(Fit(1024, o.extraCmdline)), id,
        DeclaredHeaderSize(v))
    else
      Contents(
        v, 4096, Content(p.kernel), Content(p.ramdisk), [], [], [], signature, 0, 0, 0, 0, 0,
        o.osVersion, o.osPatchLevel, [], CStr(Fit(1536, o.cmdline)), [], DeclaredHeaderSize(v))
  }
}
