/** From a compiled UEFI volume and a device configuration to the Android boot image. */
module BuildImage {
  import opened Outcomes
  import opened Bytes
  import opened Inputs
  import opened CommandLine
  import opened RamdiskArgs
  import opened Mkbootimg
  import opened Invocations
  import opened EndToEnd
  import opened OsVersion
  import BootImage
  import BootLayout

  // Where the files of a build are.
  datatype Where = Where(
    shim: string,
    fd: string,
    fdGz: string,
    shimFd: string,
    shimFdGz: string,
    kernel: string,
    dtb: string)

  const RAMDISK: string := "Resources/ramdisk"

  // [boot_image_kernel]
  datatype KernelConfig = KernelConfig(compression: Option<string>, appendDtb: bool)

  // [boot_image]; a key that is not there is None.
  datatype ImageConfig = ImageConfig(
    base: Option<int>,
    cmdline: Option<bytes>,
    dtb: Option<string>,
    dtbOffset: Option<int>,
    headerVersion: Option<int>,
    kernelOffset: Option<int>,
    osPatchLevel: Option<string>,
    osVersion: Option<string>,
    ramdiskOffset: Option<int>,
    secondOffset: Option<int>,
    tagsOffset: Option<int>)

  // A number is forwarded unless it is missing or zero; otherwise the tool uses its default.
  function ForwardedNumber(value: Option<int>, default: int): int {
    match value
    case None => default
    case Some(n) => if n == 0 then default else n
  }

  // A string is forwarded unless it is missing or empty.
  function Forwarded<T(==)>(value: Option<seq<T>>): Option<seq<T>> {
    if value == Some([]) then None else value
  }

  const BASE: int := 0x1000_0000
  const KERNEL_OFFSET: int := 0x8000
  const RAMDISK_OFFSET: int := 0x0100_0000
  const SECOND_OFFSET: int := 0x00f0_0000
  const TAGS_OFFSET: int := 0x100
  const DTB_OFFSET: int := 0x01f0_0000
  const PAGE: nat := 2048

  // The command that is run, as the tool parses it.
  function Command(kernel: string, c: ImageConfig): Invocation {
    Invocation(
      RawOptions(
        ForwardedNumber(c.headerVersion, 0), PAGE, ForwardedNumber(c.base, BASE),
        ForwardedNumber(c.kernelOffset, KERNEL_OFFSET), ForwardedNumber(c.ramdiskOffset, RAMDISK_OFFSET),
        ForwardedNumber(c.secondOffset, SECOND_OFFSET), ForwardedNumber(c.tagsOffset, TAGS_OFFSET),
        ForwardedNumber(c.dtbOffset, DTB_OFFSET), Forwarded(c.osVersion), Forwarded(c.osPatchLevel),
        [], Content(Forwarded(c.cmdline)), []),
      Paths(Some(kernel), Some(RAMDISK), None, None, Forwarded(c.dtb), None, None),
      true, false, false, Signing(false, false, None), [])
  }

  // What becomes the kernel of the image.
  function KernelBlob(shim: Option<bytes>, fd: bytes, compression: string, dtb: Option<bytes>, gzip: bytes -> bytes)
    : bytes
  {
    var volume := Content(shim) + fd;
    (if compression == "gzip" then gzip(volume) else volume) + Content(dtb)
  }

  // Undoing the steps recovers the volume.
  lemma BlobUnpacks(shim: Option<bytes>, fd: bytes, compression: string, dtb: Option<bytes>,
                    gzip: bytes -> bytes, gunzip: bytes -> bytes)
    requires gunzip(gzip(Content(shim) + fd)) == Content(shim) + fd
    ensures var blob := KernelBlob(shim, fd, compression, dtb, gzip);
            var n := |blob| - |Content(dtb)|;
            && blob[n..] == Content(dtb)
            && var volume := if compression == "gzip" then gunzip(blob[..n]) else blob[..n];
               |volume| >= |Content(shim)| && volume[..|Content(shim)|] == Content(shim)
               && volume[|Content(shim)|..] == fd
  {
    var blob := KernelBlob(shim, fd, compression, dtb, gzip);
    var volume := Content(shim) + fd;
    var packed := if compression == "gzip" then gzip(volume) else volume;
    assert blob == packed + Content(dtb);
    assert blob[..|packed|] == packed;
  }

  // Exactly when the kernel file gets written.
  predicate KernelReady(files: FileSystem, w: Where, k: KernelConfig, appendShim: bool) {
    && w.fd in files
    && (appendShim ==> w.shim in files)
    && (k.compression == Some("gzip") || k.compression == Some("none"))
    && (k.appendDtb ==> w.dtb in files)
  }

  // The kernel file, in terms of the files before it was made.
  function KernelOf(files: FileSystem, w: Where, k: KernelConfig, appendShim: bool, gzip: bytes -> bytes): bytes
    requires KernelReady(files, w, k, appendShim)
  {
    KernelBlob(if appendShim then Some(files[w.shim]) else None, files[w.fd], k.compression.value,
               if k.appendDtb then Some(files[w.dtb]) else None, gzip)
  }

  // The files of a build are different files, and none that is written is an input of the image.
  predicate SeparateFiles(w: Where, c: ImageConfig) {
    && w.shimFd != w.dtb && w.fdGz != w.dtb && w.shimFdGz != w.dtb
    && forall p :: p in [w.fdGz, w.shimFd, w.shimFdGz, w.kernel] ==> p != RAMDISK && c.dtb != Some(p)
  }

  // ---------- what the image says, in terms of the configuration ----------

  // The base address plus an offset.
  function Address(base: Option<int>, offset: Option<int>, default: int): int {
    ForwardedNumber(base, 0x1000_0000) + ForwardedNumber(offset, default)
  }

  // The dtb the configuration names.
  function NamedDtb(c: ImageConfig, fs: FileSystem): bytes {
    TypedFile(fs, if c.dtb == Some([]) then None else c.dtb)
  }

  // The digest of kernel, ramdisk, an empty second stage, and what later versions add.
  function ConfiguredId(v: int, kernel: bytes, ramdisk: bytes, dtb: bytes, sha1: Sha1): bytes {
    Filled(sha1(Sized(kernel) + Sized(ramdisk) + Sized([]) + (if v > 0 then Sized([]) else [])
                + (if v > 1 then Sized(dtb) else [])), 32)
  }

  // Everything a reader finds. No second stage and no recovery dtbo is ever passed; the dtb keys matter to version 2
  // only, and versions 3 and 4 have no addresses at all.
  function ConfiguredImage(c: ImageConfig, kernel: bytes, ramdisk: bytes, dtb: bytes, sha1: Sha1): BootImage.Contents {
    var v := ForwardedNumber(c.headerVersion, 0);
    var legacy := v <= 2;
    var (x, y, z) := VersionNumbers(TextOf(c.osVersion));
    var (year, month) := PatchNumbers(TextOf(c.osPatchLevel));
    BootImage.Contents(
      v, if legacy then 2048 else 4096, kernel, ramdisk, [], [], if v == 2 then dtb else [],
      if v == 4 then Zeros(4096) else [],
      if legacy then Address(c.base, c.kernelOffset, 0x8000) else 0,
      if legacy && ramdisk != [] then Address(c.base, c.ramdiskOffset, 0x0100_0000) else 0,
      0,
      if legacy then Address(c.base, c.tagsOffset, 0x100) else 0,
      if v == 2 then Address(c.base, c.dtbOffset, 0x01f0_0000) else 0,
      0x4000 * x + 0x80 * y + z, if year < 2000 then 0 else 0x10 * (year - 2000) + month,
      [], Content(c.cmdline), if legacy then ConfiguredId(v, kernel, ramdisk, dtb, sha1) else [],
      if v <= 0 then 0 else if v == 1 then 1648 else if v == 2 then 1660 else if v == 3 then 1580 else 1584)
  }

  predicate ImageFor(data: bytes, c: ImageConfig, kernel: bytes, ramdisk: bytes, dtb: bytes, sha1: Sha1) {
    && BootImage.Read(data) == Some(ConfiguredImage(c, kernel, ramdisk, dtb, sha1))
    && BootLayout.FollowsBootimgH(data, ConfiguredImage(c, kernel, ramdisk, dtb, sha1))
  }

  // The command completed and left this image.
  predicate Completed(kernel: string, c: ImageConfig, fs: FileSystem, sha1: Sha1, data: bytes) {
    ToolFits(Command(kernel, c), fs, NoGroups) && BootOutcome(data, Command(kernel, c), fs, sha1)
  }

  lemma CommandFiles(kernel: string, c: ImageConfig, fs: FileSystem)
    requires kernel in fs && RAMDISK in fs
    ensures var p := Command(kernel, c).paths;
            && TypedFile(fs, p.kernel) == fs[kernel] && TypedFile(fs, p.ramdisk) == fs["Resources/ramdisk"]
            && TypedFile(fs, p.second) == [] && TypedFile(fs, p.recoveryDtbo) == []
            && TypedFile(fs, p.dtb) == NamedDtb(c, fs)
  {}

  lemma CommandNamesFiles(kernel: string, c: ImageConfig, fs: FileSystem)
    ensures FilesExist(fs, Command(kernel, c).paths)
       <==> && kernel in fs && "Resources/ramdisk" in fs
            && (c.dtb.Some? && c.dtb.value != [] ==> c.dtb.value in fs)
  {
    var p := Command(kernel, c).paths;
    var all := [p.kernel, p.ramdisk, p.second, p.recoveryDtbo, p.dtb, p.vendorRamdisk, p.vendorBootconfig];
    assert all[0] == Some(kernel) && all[1] == Some(RAMDISK) && all[4] == Forwarded(c.dtb);
  }

  // Everything a reader finds in the image of a completed command, each at the position bootimg.h gives it.
  lemma CommandImage(kernel: string, c: ImageConfig, fs: FileSystem, sha1: Sha1, data: bytes)
    requires Completed(kernel, c, fs, sha1, data)
    ensures kernel in fs && "Resources/ramdisk" in fs
    ensures ImageFor(data, c, fs[kernel], fs["Resources/ramdisk"], NamedDtb(c, fs), sha1)
  {
    CommandNamesFiles(kernel, c, fs);
    CommandFiles(kernel, c, fs);
    OutcomeIsConfigured(BootImage.Read(data).value, kernel, c, fs, sha1);
  }

  lemma OutcomeIsConfigured(image: BootImage.Contents, kernel: string, c: ImageConfig, fs: FileSystem, sha1: Sha1)
    requires kernel in fs && RAMDISK in fs && ToolFits(Command(kernel, c), fs, NoGroups)
    requires var i := Command(kernel, c);
             BootFilesSay(image, i, fs) && BootNumbersSay(image, i) && BootTextsSay(image, i, fs, sha1)
    ensures image == ConfiguredImage(c, fs[kernel], fs[RAMDISK], NamedDtb(c, fs), sha1)
  {
    CommandFiles(kernel, c, fs);
    assert TextOf(Forwarded(c.osVersion)) == TextOf(c.osVersion);
    assert TextOf(Forwarded(c.osPatchLevel)) == TextOf(c.osPatchLevel);
    assert Content(Forwarded(c.cmdline)) == Content(c.cmdline);
  }

  // ---------- which configured values reach the image ----------

  // An address of the image is what the two keys say exactly when neither is zero: a zero is not forwarded, and the
  // tool's own value is used for it as for a key that is not there.
  predicate AddressReaches(address: int, base: Option<int>, offset: Option<int>, default: int) {
    && (base.Some? && offset.Some? ==>
          (address == base.value + offset.value <==> base.value != 0 && offset.value != 0))
    && (base.Some? && base.value != 0 && (offset == None || offset == Some(0)) ==> address == base.value + default)
    && ((base == None || base == Some(0)) && offset.Some? && offset.value != 0 ==>
          address == 0x1000_0000 + offset.value)
    && ((base == None || base == Some(0)) && (offset == None || offset == Some(0)) ==> address == 0x1000_0000 + default)
  }

  lemma AddressReachesIff(base: Option<int>, offset: Option<int>, default: int)
    requires default > 0
    ensures AddressReaches(Address(base, offset, default), base, offset, default)
  {}

  // The addresses: up to version 2 only, the one of the dtb in version 2 only, and never one of a second stage.
  predicate AddressesReach(image: BootImage.Contents, c: ImageConfig) {
    && (image.headerVersion <= 2 ==>
          && AddressReaches(image.kernelAddr, c.base, c.kernelOffset, 0x8000)
          && AddressReaches(image.tagsAddr, c.base, c.tagsOffset, 0x100)
          && (image.ramdisk != [] ==> AddressReaches(image.ramdiskAddr, c.base, c.ramdiskOffset, 0x0100_0000)))
    && (image.headerVersion == 2 ==> AddressReaches(image.dtbAddr, c.base, c.dtbOffset, 0x01f0_0000))
    && (image.headerVersion != 2 ==> image.dtbAddr == 0)
    && (image.headerVersion > 2 || image.ramdisk == [] ==> image.ramdiskAddr == 0)
    && (image.headerVersion > 2 ==> image.kernelAddr == 0 && image.tagsAddr == 0)
    && image.secondAddr == 0
  }

  lemma ConfiguredAddressesReach(c: ImageConfig, kernel: bytes, ramdisk: bytes, dtb: bytes, sha1: Sha1)
    ensures AddressesReach(ConfiguredImage(c, kernel, ramdisk, dtb, sha1), c)
  {
    AddressReachesIff(c.base, c.kernelOffset, 0x8000);
    AddressReachesIff(c.base, c.tagsOffset, 0x100);
    AddressReachesIff(c.base, c.ramdiskOffset, 0x0100_0000);
    AddressReachesIff(c.base, c.dtbOffset, 0x01f0_0000);
  }

  // Key by key, which configured values a reader finds in the image of a completed command.
  lemma KeysReachImageIff(kernel: string, c: ImageConfig, fs: FileSystem, sha1: Sha1, data: bytes)
    requires Completed(kernel, c, fs, sha1, data)
    ensures BootImage.Read(data).Some?
    ensures var image := BootImage.Read(data).value; (
            && image.headerVersion == (if c.headerVersion.Some? then c.headerVersion.value else 0)
            && image.cmdline == Content(c.cmdline)
            && AddressesReach(image, c)
            && (image.headerVersion == 2 ==>
                  c.dtb.Some? && c.dtb.value in fs && image.dtb == fs[c.dtb.value])
            && (image.headerVersion != 2 ==> image.dtb == [])
            && image.second == [])
  {
    CommandImage(kernel, c, fs, sha1, data);
    CommandCompletesIff(kernel, c, fs);
    ConfiguredAddressesReach(c, fs[kernel], fs["Resources/ramdisk"], NamedDtb(c, fs), sha1);
  }

  // Exactly when the command completes, in terms of the configuration and the files.
  predicate ConfigFits(c: ImageConfig, kernel: bytes, fs: FileSystem) {
    var v := ForwardedNumber(c.headerVersion, 0);
    && "Resources/ramdisk" in fs && (c.dtb.Some? && c.dtb.value != [] ==> c.dtb.value in fs)
    && |Content(c.cmdline)| < (if v < 3 then 1535 else 1536)
    && VersionFits(TextOf(c.osVersion)) && PatchLevelFits(TextOf(c.osPatchLevel))
    && 0 <= v <= 4 && Word32(|kernel|) && Word32(|fs["Resources/ramdisk"]|)
    && (v <= 2 ==>
          && Word32(Address(c.base, c.kernelOffset, 0x8000)) && Word32(Address(c.base, c.tagsOffset, 0x100))
          && (fs["Resources/ramdisk"] != [] ==> Word32(Address(c.base, c.ramdiskOffset, 0x0100_0000))))
    && (v == 2 ==>
          && NamedDtb(c, fs) != [] && Word32(|NamedDtb(c, fs)|)
          && Word64(Address(c.base, c.dtbOffset, 0x01f0_0000)))
  }

  lemma CommandCompletesIff(kernel: string, c: ImageConfig, fs: FileSystem)
    ensures ToolFits(Command(kernel, c), fs, NoGroups) <==> kernel in fs && ConfigFits(c, fs[kernel], fs)
  {
    CommandNamesFiles(kernel, c, fs);
    if kernel in fs && RAMDISK in fs {
      CommandFiles(kernel, c, fs);
    }
    assert TextOf(Forwarded(c.osVersion)) == TextOf(c.osVersion);
    assert TextOf(Forwarded(c.osPatchLevel)) == TextOf(c.osPatchLevel);
    assert Content(Forwarded(c.cmdline)) == Content(c.cmdline);
  }

  // ---------- configurations that do not reach the image ----------

  const NO_KEYS: ImageConfig := ImageConfig(None, None, None, None, None, None, None, None, None, None, None)

  lemma NoVersions()
    ensures VersionFits(TextOf(None)) && PatchLevelFits(TextOf(None))
  {}

  // A zero offset: the command completes, and its image has the kernel where the default offset puts it.
  lemma ZeroOffsetIsLost(kernel: string, fs: FileSystem, sha1: Sha1, data: bytes)
    requires kernel in fs && "Resources/ramdisk" in fs && fs[kernel] == [1] && fs["Resources/ramdisk"] == [2]
    ensures var c := NO_KEYS.(base := Some(0x4000_0000), kernelOffset := Some(0));
            && ToolFits(Command(kernel, c), fs, NoGroups)
            && (Completed(kernel, c, fs, sha1, data) ==>
                  BootImage.Read(data).Some? && BootImage.Read(data).value.kernelAddr == 0x4000_8000)
  {
    var c := NO_KEYS.(base := Some(0x4000_0000), kernelOffset := Some(0));
    NoVersions();
    CommandCompletesIff(kernel, c, fs);
    if Completed(kernel, c, fs, sha1, data) {
      KeysReachImageIff(kernel, c, fs, sha1, data);
    }
  }

  // The addresses that Resources/Configs/lancelot.toml gives: the second offset is not zero and still does not
  // reach the image, because no second stage is passed.
  lemma SecondOffsetIsLost(kernel: string, dtb: string, c: ImageConfig, fs: FileSystem, sha1: Sha1, data: bytes)
    requires kernel in fs && "Resources/ramdisk" in fs && dtb in fs && dtb != [] && c == LancelotConfig(dtb)
    requires fs[kernel] == [1] && fs["Resources/ramdisk"] == [2] && fs[dtb] == [3]
    ensures ToolFits(Command(kernel, c), fs, NoGroups)
    ensures Completed(kernel, c, fs, sha1, data) ==>
              && BootImage.Read(data).Some?
              && BootImage.Read(data).value.secondAddr == 0 != c.base.value + c.secondOffset.value
  {
    NoVersions();
    CommandCompletesIff(kernel, c, fs);
    if Completed(kernel, c, fs, sha1, data) {
      KeysReachImageIff(kernel, c, fs, sha1, data);
    }
  }

  function LancelotConfig(dtb: string): ImageConfig {
    NO_KEYS.(base := Some(0x4007_8000), dtb := Some(dtb), dtbOffset := Some(0x0BC0_8000), headerVersion := Some(2),
             kernelOffset := Some(0x8000), ramdiskOffset := Some(0x07C0_8000), secondOffset := Some(0xBFF8_8000),
             tagsOffset := Some(0x0BC0_8000))
  }

  function NoGroups(g: seq<string>): Option<Group> {
    None
  }

  // ---------- the kernel ----------

  // The volume, with the boot shim in front of it if there is one, compressed if that is configured, and the dtb of
  // the device behind it if it is to be appended.
  lemma KernelIs(files: FileSystem, w: Where, k: KernelConfig, appendShim: bool, gzip: bytes -> bytes)
    requires KernelReady(files, w, k, appendShim)
    ensures var volume := (if appendShim then files[w.shim] else []) + files[w.fd]; (
            KernelOf(files, w, k, appendShim, gzip)
            == (if k.compression == Some("gzip") then gzip(volume) else volume)
               + (if k.appendDtb then files[w.dtb] else []))
  {}

  // Only files of the build itself differ.
  ghost predicate SameOthers(before: FileSystem, after: FileSystem, w: Where) {
    forall p :: p !in [w.fdGz, w.shimFd, w.shimFdGz, w.kernel] ==>
      (p in after <==> p in before) && (p in after ==> after[p] == before[p])
  }

  lemma InputsKept(before: FileSystem, after: FileSystem, w: Where, c: ImageConfig)
    requires SeparateFiles(w, c) && SameOthers(before, after, w)
    ensures RAMDISK in after <==> RAMDISK in before
    ensures RAMDISK in after ==> after[RAMDISK] == before[RAMDISK]
    ensures (c.dtb.Some? ==> (c.dtb.value in after <==> c.dtb.value in before))
    ensures NamedDtb(c, after) == NamedDtb(c, before)
    ensures forall kernel :: ConfigFits(c, kernel, after) <==> ConfigFits(c, kernel, before)
  {}

  // Runs the tool; the image is handed back where there is one.
  method RunCommand(kernel: string, c: ImageConfig, fs: FileSystem, sha1: Sha1) returns (ok: bool, image: Option<bytes>)
    ensures ok <==> NulFree(Content(c.cmdline)) && kernel in fs && ConfigFits(c, fs[kernel], fs)
    ensures ok ==> image.Some? && ImageFor(image.value, c, fs[kernel], fs["Resources/ramdisk"], NamedDtb(c, fs), sha1)
  {
    image := None;
    var command := Command(kernel, c);
    assert Content(Forwarded(c.cmdline)) == Content(c.cmdline);
    if !CleanStrings(command.opts) {
      // A process cannot be given an argument with a NUL in it.
      ok := false;
      return;
    }
    CommandCompletesIff(kernel, c, fs);
    var s, img, vendor, printed := RunTool(command, fs, NoGroups, sha1);
    image := img;
    ok := s.Ok?;
    if ok {
      CommandImage(kernel, c, fs, sha1, image.value);
    }
  }

  // The files on disk.
  class Disk {
    var files: FileSystem

    // Boot shim, compression and device tree, into the kernel file.
    method MakeKernel(w: Where, k: KernelConfig, c: ImageConfig, appendShim: bool, gzip: bytes -> bytes)
      returns (ok: bool)
      requires SeparateFiles(w, c)
      modifies this
      ensures ok <==>
                      && w.fd in old(files) && (appendShim ==> w.shim in old(files))
                      && (k.compression == Some("gzip") || k.compression == Some("none"))
                      && (k.appendDtb ==> w.dtb in old(files))
      ensures ok ==>
                var volume := (if appendShim then old(files)[w.shim] else []) + old(files)[w.fd];
                && w.kernel in files
                && files[w.kernel]
                   == (if k.compression == Some("gzip") then gzip(volume) else volume)
                      + (if k.appendDtb then old(files)[w.dtb] else [])
      ensures ok ==> KernelReady(old(files), w, k, appendShim)
      ensures ok ==> files[w.kernel] == KernelOf(old(files), w, k, appendShim, gzip)
      ensures SameOthers(old(files), files, w)
    {
      if KernelReady(files, w, k, appendShim) {
        KernelIs(files, w, k, appendShim, gzip);
      }
      var uefiFd, uefiFdGz := w.fd, w.fdGz;
      if appendShim {
        if w.shim !in files || w.fd !in files {
          return false;
        }
        files := files[w.shimFd := files[w.shim] + files[w.fd]];
        uefiFd, uefiFdGz := w.shimFd, w.shimFdGz;
      }
      if k.compression == None {
        return false;
      }
      if k.compression.value == "gzip" {
        if uefiFd !in files {
          return false;
        }
        files := files[uefiFdGz := gzip(files[uefiFd])];
        uefiFd := uefiFdGz;
      } else if k.compression.value != "none" {
        return false;
      }
      if uefiFd !in files {
        return false;
      }
      if k.appendDtb {
        if w.dtb !in files {
          return false;
        }
        files := files[w.kernel := files[uefiFd] + files[w.dtb]];
      } else {
        files := files[w.kernel := files[uefiFd]];
        assert files[w.kernel] + [] == files[w.kernel];
      }
      assert !appendShim ==> [] + old(files)[w.fd] == old(files)[w.fd];
      return true;
    }

    // create_android_boot_img; the tool's image is handed back where there is one.
    method CreateAndroidBootImg(w: Where, k: KernelConfig, c: ImageConfig, appendShim: bool, gzip: bytes -> bytes,
                                sha1: Sha1)
      returns (ok: bool, image: Option<bytes>)
      requires SeparateFiles(w, c)
      modifies this
      ensures ok <==>
                      && w.fd in old(files) && (appendShim ==> w.shim in old(files))
                      && (k.compression == Some("gzip") || k.compression == Some("none"))
                      && (k.appendDtb ==> w.dtb in old(files))
                      && NulFree(Content(c.cmdline))
                      && ConfigFits(c, KernelOf(old(files), w, k, appendShim, gzip), old(files))
      ensures ok ==>
                var volume := (if appendShim then old(files)[w.shim] else []) + old(files)[w.fd];
                && image.Some?
                && ImageFor(image.value, c,
                            (if k.compression == Some("gzip") then gzip(volume) else volume)
                            + (if k.appendDtb then old(files)[w.dtb] else []),
                            old(files)["Resources/ramdisk"], NamedDtb(c, old(files)), sha1)
    {
      image := None;
      ok := MakeKernel(w, k, c, appendShim, gzip);
      if !ok {
        return;
      }
      InputsKept(old(files), files, w, c);
      ok, image := RunCommand(w.kernel, c, files, sha1);
    }
  }
}
