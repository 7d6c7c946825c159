/** A command line, and what it means for the images and for success, in terms of what was typed alone. */
module Invocations {
  import opened Outcomes
  import opened Bytes
  import opened Paging
  import opened Inputs
  import opened VendorTable
  import opened OsVersion
  import opened CommandLine
  import opened RamdiskArgs
  import opened Mkbootimg
  import BootImage
  import BootLayout
  import Layout
  import VendorImage
  import VendorLayout

  // The paths given to the file options.
  datatype Paths = Paths(
    kernel: Option<string>,
    ramdisk: Option<string>,
    second: Option<string>,
    recoveryDtbo: Option<string>,
    dtb: Option<string>,
    vendorRamdisk: Option<string>,
    vendorBootconfig: Option<string>)

  // One command line; rest are the arguments the main parser does not know.
  datatype Invocation = Invocation(
    opts: RawOptions,
    paths: Paths,
    output: bool,
    vendorBoot: bool,
    printId: bool,
    signing: Signing,
    rest: seq<string>)

  // ---------- the files and texts that were named ----------

  // Nothing for an option that was left out.
  function TypedFile(fs: FileSystem, path: Option<string>): bytes {
    if path.Some? && path.value in fs then fs[path.value] else []
  }

  // Seven bits each for the three parts of the version.
  function TypedVersion(r: RawOptions): nat {
    var (a, b, c) := VersionNumbers(TextOf(r.osVersion));
    0x4000 * a + 0x80 * b + c
  }

  // The year from 2000 on, and four bits for the month.
  function TypedPatchLevel(r: RawOptions): int {
    var (year, month) := PatchNumbers(TextOf(r.osPatchLevel));
    0x10 * (year - 2000) + month
  }

  // Up to size bytes, filled up with NULs.
  function Filled(s: bytes, size: nat): bytes {
    (s + Zeros(size))[..size]
  }

  // ---------- the image id ----------

  // A component of the hash: its bytes, then its size in four bytes, least significant first.
  function Sized(c: bytes): bytes {
    c + [|c| % 0x100, |c| / 0x100 % 0x100, |c| / 0x1_0000 % 0x100, |c| / 0x100_0000 % 0x100]
  }

  function TypedId(i: Invocation, fs: FileSystem, sha1: Sha1): bytes {
    var p := i.paths;
    Filled(sha1(Sized(TypedFile(fs, p.kernel)) + Sized(TypedFile(fs, p.ramdisk)) + Sized(TypedFile(fs, p.second))
                + (if i.opts.headerVersion > 0 then Sized(TypedFile(fs, p.recoveryDtbo)) else [])
                + (if i.opts.headerVersion > 1 then Sized(TypedFile(fs, p.dtb)) else [])), 32)
  }

  // ---------- what the boot image says ----------

  // What the signing tool wrote, or zeros where nothing is signed.
  function TypedSignature(signing: Signing): bytes {
    if signing.key && signing.algorithm && signing.vbmeta.Some? then Filled(signing.vbmeta.value, 4096) else Zeros(4096)
  }

  predicate EmptySignature(i: Invocation) {
    i.opts.headerVersion == 4 && i.signing.key && i.signing.algorithm && i.signing.vbmeta == Some([])
  }

  predicate BootFilesSay(image: BootImage.Contents, i: Invocation, fs: FileSystem) {
    var v := i.opts.headerVersion;
    && image.kernel == TypedFile(fs, i.paths.kernel)
    && image.ramdisk == TypedFile(fs, i.paths.ramdisk)
    && image.second == TypedFile(fs, i.paths.second)
    && image.recoveryDtbo == (if 1 <= v <= 2 then TypedFile(fs, i.paths.recoveryDtbo) else [])
    && image.dtb == (if v == 2 then TypedFile(fs, i.paths.dtb) else [])
    && image.signature == (if v == 4 then TypedSignature(i.signing) else [])
  }

  // Versions 3 and 4 have no addresses, and an address for an empty file is 0.
  predicate BootNumbersSay(image: BootImage.Contents, i: Invocation) {
    var r := i.opts;
    var v := r.headerVersion;
    && image.headerVersion == v
    && image.pagesize == (if v <= 2 then r.pagesize else 4096)
    && image.kernelAddr == (if v <= 2 then r.base + r.kernelOffset else 0)
    && image.ramdiskAddr == (if v <= 2 && image.ramdisk != [] then r.base + r.ramdiskOffset else 0)
    && image.secondAddr == (if v <= 2 && image.second != [] then r.base + r.secondOffset else 0)
    && image.tagsAddr == (if v <= 2 then r.base + r.tagsOffset else 0)
    && image.dtbAddr == (if v == 2 then r.base + r.dtbOffset else 0)
    && image.osVersion == TypedVersion(r)
    && image.osPatchLevel == TypedPatchLevel(r)
    && image.headerSize
       == (if v == 0 then 0 else if v == 1 then 1648 else if v == 2 then 1660 else if v == 3 then 1580 else 1584)
  }

  predicate BootTextsSay(image: BootImage.Contents, i: Invocation, fs: FileSystem, sha1: Sha1) {
    var v := i.opts.headerVersion;
    && image.cmdline == i.opts.cmdline
    && image.name == (if v <= 2 then i.opts.board else [])
    && image.id == (if v <= 2 then TypedId(i, fs, sha1) else [])
  }

  // The sections after the header.
  function TypedSections(i: Invocation, fs: FileSystem): seq<bytes> {
    var p, v := i.paths, i.opts.headerVersion;
    [TypedFile(fs, p.kernel), TypedFile(fs, p.ramdisk)]
    + (if v <= 2 then [TypedFile(fs, p.second)] else [])
    + (if 1 <= v <= 2 then [TypedFile(fs, p.recoveryDtbo)] else [])
    + (if v == 2 then [TypedFile(fs, p.dtb)] else [])
    + (if v == 4 && !EmptySignature(i) then [TypedSignature(i.signing)] else [])
  }

  // The image is its header and these sections, each padded with NULs to its page, and nothing else.
  predicate BootSectionsSay(data: bytes, i: Invocation, fs: FileSystem)
    requires i.opts.pagesize > 0
  {
    var v := i.opts.headerVersion;
    var n := if v == 0 then 1632 else if v == 1 then 1648 else if v == 2 then 1660 else if v == 3 then 1580 else 1584;
    n <= |data| && data == Image([data[..n]] + TypedSections(i, fs), if v <= 2 then i.opts.pagesize else 4096)
  }

  // The reader finds what was typed, at the positions of bootimg.h; the only image it does not accept is one of
  // version 4 whose signing tool wrote nothing.
  predicate BootOutcome(data: bytes, i: Invocation, fs: FileSystem, sha1: Sha1)
    requires i.opts.pagesize > 0
  {
    && BootSectionsSay(data, i, fs)
    && (i.opts.headerVersion > 2 ==> BootLayout.ReservedZero(data))
    && (if EmptySignature(i) then BootImage.Read(data) == None
        else
          && BootImage.Read(data).Some?
          && var image := BootImage.Read(data).value;
             && BootFilesSay(image, i, fs) && BootNumbersSay(image, i) && BootTextsSay(image, i, fs, sha1)
             && BootLayout.FollowsBootimgH(data, image))
  }

  // ---------- what the vendor boot image says ----------

  predicate FragmentSays(f: VendorImage.Fragment, fs: FileSystem, r: Request) {
    && f.ramdisk == TypedFile(fs, Some(r.path))
    && f.rtype == r.rtype
    && f.name == CStr(Filled(r.name, 32))
    && f.boardId == BoardWords(r)
  }

  // The ramdisks of the fragments, one after the other.
  function Joined(fragments: seq<VendorImage.Fragment>): bytes {
    if fragments == [] then [] else Joined(fragments[..|fragments| - 1]) + fragments[|fragments| - 1].ramdisk
  }

  predicate VendorNumbersSay(image: VendorImage.Contents, i: Invocation, fs: FileSystem) {
    var r := i.opts;
    && image.headerVersion == r.headerVersion
    && image.pagesize == r.pagesize
    && image.kernelAddr == r.base + r.kernelOffset
    && image.ramdiskAddr == r.base + r.ramdiskOffset
    && image.tagsAddr == r.base + r.tagsOffset
    && image.dtbAddr == r.base + r.dtbOffset
    && image.headerSize == (if r.headerVersion == 3 then 2112 else 2128)
    && image.cmdline == r.vendorCmdline
    && image.name == r.board
    && image.dtb == TypedFile(fs, i.paths.dtb)
  }

  predicate VendorRamdisksSay(image: VendorImage.Contents, i: Invocation, fs: FileSystem, parse: GroupParser) {
    if i.opts.headerVersion == 3 then
      image.ramdisk == TypedFile(fs, i.paths.vendorRamdisk) && image.fragments == [] && image.bootconfig == []
    else
      var rs := TypedRequests(parse, i.paths.vendorRamdisk, i.rest);
      && |image.fragments| == |rs|
      && (forall k :: 0 <= k < |rs| ==> FragmentSays(image.fragments[k], fs, rs[k]))
      && image.ramdisk == Joined(image.fragments)
      && image.bootconfig == TypedFile(fs, i.paths.vendorBootconfig)
  }

  // The image is its header and its sections, each padded with NULs to its page, and nothing else; the table has 108
  // bytes for each fragment.
  ghost predicate VendorSectionsSay(data: bytes, image: VendorImage.Contents) {
    && image.pagesize > 0
    && if image.headerVersion == 3 then
         2112 <= |data| && data == Image([data[..2112], image.ramdisk, image.dtb], image.pagesize)
       else
         && 2128 <= |data|
         && Layout.Has32(data, 2112, 108 * |image.fragments|) && Layout.Has32(data, 2120, 108)
         && exists table ::
              && |table| == 108 * |image.fragments|
              && data == Image([data[..2128], image.ramdisk, image.dtb, table, image.bootconfig], image.pagesize)
  }

  ghost predicate VendorOutcome(data: bytes, i: Invocation, fs: FileSystem, parse: GroupParser) {
    && VendorImage.Read(data).Some?
    && var image := VendorImage.Read(data).value;
       && VendorNumbersSay(image, i, fs) && VendorRamdisksSay(image, i, fs, parse)
       && VendorSectionsSay(data, image) && VendorLayout.FollowsBootimgH(data, image)
  }

  // ---------- when a run raises nothing ----------

  predicate FilesExist(fs: FileSystem, p: Paths) {
    forall f :: f in [p.kernel, p.ramdisk, p.second, p.recoveryDtbo, p.dtb, p.vendorRamdisk, p.vendorBootconfig] ==>
      f.Some? ==> f.value in fs
  }

  predicate CommandLineFits(i: Invocation, fs: FileSystem, parse: GroupParser) {
    && OptionsFit(i.opts)
    && FilesExist(fs, i.paths)
    && (if i.vendorBoot && i.opts.headerVersion > 3
        then GroupsFit(fs, parse, i.paths.vendorRamdisk, i.rest)
        else i.rest == [])
  }

  predicate BootFits(i: Invocation, fs: FileSystem) {
    var r, v := i.opts, i.opts.headerVersion;
    && 0 <= v <= 4
    && Word32(|TypedFile(fs, i.paths.kernel)|) && Word32(|TypedFile(fs, i.paths.ramdisk)|)
    && (v <= 2 ==> LegacyFits(i, fs))
    && (v > 2 ==> i.paths.second == None)
    && (v == 4 ==> SigningFits(i.signing))
  }

  predicate LegacyFits(i: Invocation, fs: FileSystem) {
    var r, v := i.opts, i.opts.headerVersion;
    var second, dtb := TypedFile(fs, i.paths.second), TypedFile(fs, i.paths.dtb);
    && Word32(|second|)
    && Word32(r.base + r.kernelOffset) && Word32(r.base + r.tagsOffset)
    && (TypedFile(fs, i.paths.ramdisk) != [] ==> Word32(r.base + r.ramdiskOffset))
    && (second != [] ==> Word32(r.base + r.secondOffset))
    && (v >= 1 ==> Word32(|TypedFile(fs, i.paths.recoveryDtbo)|))
    && (v == 2 ==> dtb != [] && Word32(|dtb|) && Word64(r.base + r.dtbOffset))
  }

  predicate VendorFits(i: Invocation, fs: FileSystem, parse: GroupParser) {
    var r, v, dtb := i.opts, i.opts.headerVersion, TypedFile(fs, i.paths.dtb);
    && 3 <= v <= 4 && (v == 3 ==> i.paths.vendorRamdisk.Some?)
    && dtb != [] && Word32(|dtb|)
    && Word32(r.base + r.kernelOffset) && Word32(r.base + r.ramdiskOffset) && Word32(r.base + r.tagsOffset)
    && Word64(r.base + r.dtbOffset)
    && (v == 3 ==> Word32(|TypedFile(fs, i.paths.vendorRamdisk)|))
    && (v == 4 ==>
          var rs := TypedRequests(parse, i.paths.vendorRamdisk, i.rest);
          && Word32(TotalSize(fs, rs)) && Word32(108 * |rs|) && Word32(|TypedFile(fs, i.paths.vendorBootconfig)|)
          && forall k :: 0 <= k < |rs| ==> Word32(rs[k].rtype))
  }

  predicate ToolFits(i: Invocation, fs: FileSystem, parse: GroupParser) {
    && CommandLineFits(i, fs, parse)
    && (i.vendorBoot ==> VendorFits(i, fs, parse))
    && (i.output ==> BootFits(i, fs))
  }
}
