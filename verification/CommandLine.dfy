/** Turning option values into the arguments the writer works on. */
module CommandLine {
  import opened Outcomes
  import opened Bytes
  import opened Struct
  import opened Paging
  import opened Inputs
  import opened OsVersion
  import BootImage
  import VendorImage

  // The option values as given; a default stands for an option that was left out.
  datatype RawOptions = RawOptions(
    headerVersion: int,
    pagesize: int,
    base: int,
    kernelOffset: int,
    ramdiskOffset: int,
    secondOffset: int,
    tagsOffset: int,
    dtbOffset: int,
    osVersion: Option<string>,
    osPatchLevel: Option<string>,
    board: bytes,
    cmdline: bytes,
    vendorCmdline: bytes)

  // AsciizBytes(bufsize)(arg) on the encoded argument.
  function Asciiz(bufsize: nat, arg: bytes): Result<bytes> {
    if |arg| + 1 > bufsize then Failure(ArgumentError) else Success(arg + [0])
  }

  // For versions 0 to 2 the command line has to leave room for a second terminator.
  function CmdlineSize(headerVersion: int): nat {
    if headerVersion < 3 then BootImage.BOOT_ARGS_SIZE + BootImage.BOOT_EXTRA_ARGS_SIZE - 1
    else BootImage.BOOT_ARGS_SIZE + BootImage.BOOT_EXTRA_ARGS_SIZE
  }

  // The two fields an asciiz command line is split into: cmdline and extra_cmdline.
  function SplitCmdline(cmdline: bytes): (bytes, bytes) {
    var k := BootImage.BOOT_ARGS_SIZE - 1;
    if |cmdline| <= k then (cmdline + [0], []) else (cmdline[..k] + [0], cmdline[k..])
  }

  function DefaultZero(x: Option<string>, parse: string -> Result<nat>): Result<nat> {
    match x
    case None => Success(0)
    case Some(s) => parse(s)
  }

  function ParseOptions(r: RawOptions): (result: Result<Options>)
    ensures result.Success? ==> PageChoice(result.value.pagesize)
  {
    var cmdline :- Asciiz(CmdlineSize(r.headerVersion), r.cmdline);
    var vendorCmdline :- Asciiz(VendorImage.VENDOR_BOOT_ARGS_SIZE, r.vendorCmdline);
    var board :- Asciiz(BootImage.BOOT_NAME_SIZE, r.board);
    var osVersion :- DefaultZero(r.osVersion, x => ParseOsVersion(x));
    var osPatchLevel :- DefaultZero(r.osPatchLevel, x => ParseOsPatchLevel(x));
    if !PageChoice(r.pagesize) then Failure(ArgumentError)
    else
      var (first, extra) := if r.headerVersion < 3 then SplitCmdline(cmdline) else (cmdline, []);
      if r.headerVersion < 3 && (|first| > BootImage.BOOT_ARGS_SIZE || |extra| > BootImage.BOOT_EXTRA_ARGS_SIZE)
      then Failure(AssertionError)
      else
        Success(Options(
                  r.headerVersion, r.pagesize, r.base, r.kernelOffset, r.ramdiskOffset, r.secondOffset,
                  r.tagsOffset, r.dtbOffset, osVersion, osPatchLevel, board, first, extra, vendorCmdline))
  }

  // ---------- the command line survives its fields ----------

  // What a bootloader of version 0 to 2 puts together from the two fields.
  function Rejoin(first: bytes, extra: bytes): bytes {
    CStr(Fit(BootImage.BOOT_ARGS_SIZE, first)) + CStr(Fit(BootImage.BOOT_EXTRA_ARGS_SIZE, extra))
  }

  // For every accepted length the pieces fit their fields, so the two asserts never fail.
  lemma SplitFits(cmdline: bytes)
    requires |cmdline| <= CmdlineSize(0)
    ensures var (first, extra) := SplitCmdline(cmdline);
            |first| <= BootImage.BOOT_ARGS_SIZE && |extra| <= BootImage.BOOT_EXTRA_ARGS_SIZE
  {}

  lemma NulFreeParts(s: bytes, k: nat)
    requires NulFree(s) && k <= |s|
    ensures NulFree(s[..k]) && NulFree(s[k..])
  {}

  lemma EmptyField(size: nat)
    ensures CStr(Fit(size, [])) == []
  {
    assert size > 0 ==> Fit(size, [])[0] == 0;
  }

  lemma ShortCmdline(s: bytes)
    requires NulFree(s) && |s| + 2 <= BootImage.BOOT_ARGS_SIZE
    ensures CStr(Fit(BootImage.BOOT_ARGS_SIZE, s + [0] + [0])) == s
  {
    FitTerminated(BootImage.BOOT_ARGS_SIZE, s, [0, 0]);
    assert s + [0, 0] == s + [0] + [0];
  }

  // A field that holds a NUL-free string, then a NUL, reads back as the string.
  lemma FitTerminated(size: nat, s: bytes, tail: bytes)
    requires NulFree(s) && |s| + |tail| <= size && (tail == [] || tail[0] == 0)
    ensures CStr(Fit(size, s + tail)) == s
  {
    FitPads(size, s + tail);
    var pad := Zeros(size - |s + tail|);
    AppendAssoc(s, tail, pad);
    CStrOfTerminated(s, tail + pad);
  }

  lemma CutTerminated(s: bytes, k: nat)
    requires k <= |s|
    ensures (s + [0])[..k] == s[..k] && (s + [0])[k..] == s[k..] + [0] && s[..k] + s[k..] == s
  {}

  // A command line that reaches the extra field, cut after k bytes.
  lemma LongCmdline(s: bytes, k: nat, size: nat, extraSize: nat)
    requires NulFree(s) && k <= |s| && k < size && |s| - k < extraSize
    ensures CStr(Fit(size, (s + [0])[..k] + [0])) + CStr(Fit(extraSize, (s + [0])[k..])) == s
  {
    CutTerminated(s, k);
    NulFreeParts(s, k);
    FitTerminated(size, s[..k], [0]);
    FitTerminated(extraSize, s[k..], [0]);
  }

  lemma NulFreeRejoins(s: bytes)
    requires NulFree(s) && |s| + 1 <= CmdlineSize(0)
    ensures var (first, extra) := SplitCmdline(s + [0]);
            Rejoin(first, extra) == s
  {
    var k := BootImage.BOOT_ARGS_SIZE - 1;
    if |s| < k {
      ShortCmdline(s);
      EmptyField(BootImage.BOOT_EXTRA_ARGS_SIZE);
    } else {
      LongCmdline(s, k, BootImage.BOOT_ARGS_SIZE, BootImage.BOOT_EXTRA_ARGS_SIZE);
    }
  }

  lemma NulFreeAppend(a: bytes, b: bytes)
    requires NulFree(a) && NulFree(b)
    ensures NulFree(a + b)
  {}

  // Splitting and rejoining is the identity exactly on the NUL-free command lines, at every accepted length.
  lemma RejoinsIffNulFree(s: bytes)
    requires |s| + 1 <= CmdlineSize(0)
    ensures var (first, extra) := SplitCmdline(s + [0]);
            Rejoin(first, extra) == s <==> NulFree(s)
  {
    var (first, extra) := SplitCmdline(s + [0]);
    NulFreeAppend(CStr(Fit(BootImage.BOOT_ARGS_SIZE, first)), CStr(Fit(BootImage.BOOT_EXTRA_ARGS_SIZE, extra)));
    if NulFree(s) {
      NulFreeRejoins(s);
    }
  }

  // Strings a process can be given as arguments.
  predicate CleanStrings(r: RawOptions) {
    NulFree(r.board) && NulFree(r.cmdline) && NulFree(r.vendorCmdline)
  }

  // Every number is passed on as it was typed.
  predicate NumbersKept(r: RawOptions, o: Options) {
    && o.headerVersion == r.headerVersion && o.pagesize == r.pagesize && o.base == r.base
    && o.kernelOffset == r.kernelOffset && o.ramdiskOffset == r.ramdiskOffset && o.secondOffset == r.secondOffset
    && o.tagsOffset == r.tagsOffset && o.dtbOffset == r.dtbOffset
  }

  // Accepted options are in range for the writer, and every string reads back from its field as it was typed.
  lemma OptionsParse(r: RawOptions)
    requires ParseOptions(r).Success? && CleanStrings(r)
    ensures var o := ParseOptions(r).value;
            && Parsed(o)
            && NumbersKept(r, o)
            && CStr(Fit(16, o.board)) == r.board
            && CStr(Fit(2048, o.vendorCmdline)) == r.vendorCmdline
            && (r.headerVersion < 3 ==> Rejoin(o.cmdline, o.extraCmdline) == r.cmdline)
            && (r.headerVersion >= 3 ==> CStr(Fit(1536, o.cmdline)) == r.cmdline)
  {
    if r.osVersion.Some? {
      ParsedFits(r.osVersion.value);
    }
    if r.osPatchLevel.Some? {
      ParsedFits(r.osPatchLevel.value);
    }
    AsciizField(16, r.board);
    AsciizField(2048, r.vendorCmdline);
    if r.headerVersion < 3 {
      NulFreeRejoins(r.cmdline);
    } else {
      AsciizField(1536, r.cmdline);
    }
  }

  // The text of an option; one that was left out says as little as an empty text.
  function TextOf(x: Option<string>): string {
    match x
    case None => []
    case Some(s) => s
  }

  // From the texts of both version options, given or not, to the numbers a bootloader reads out of the header word.
  lemma OptionsWordDecodes(r: RawOptions)
    requires ParseOptions(r).Success?
    ensures var ((a, b, c), (year, month)) :=
              (VersionNumbers(TextOf(r.osVersion)), PatchNumbers(TextOf(r.osPatchLevel)));
            var w := BootImage.OsWord(ParseOptions(r).value);
            w < 0x1_0000_0000 && DecodeWord(w) == OsFields(a, b, c, year, month)
  {
    AcceptedTextsDecode(TextOf(r.osVersion), TextOf(r.osPatchLevel));
  }

  // In plain numbers: strings that fit with their terminators, one of the page sizes, and version texts in range.
  predicate OptionsFit(r: RawOptions) {
    && |r.cmdline| < (if r.headerVersion < 3 then 1535 else 1536) && |r.vendorCmdline| < 2048 && |r.board| < 16
    && (r.pagesize == 2048 || r.pagesize == 4096 || r.pagesize == 8192 || r.pagesize == 16384)
    && VersionFits(TextOf(r.osVersion)) && PatchLevelFits(TextOf(r.osPatchLevel))
  }

  predicate VersionFits(x: string) {
    var (a, b, c) := VersionNumbers(x);
    a < 128 && b < 128 && c < 128
  }

  predicate PatchLevelFits(x: string) {
    PatchParts(x).Some? ==>
      var (year, month) := PatchParts(x).value;
      2000 <= year < 2128 && 1 <= month <= 12
  }

  lemma OptionsAcceptedIff(r: RawOptions)
    ensures ParseOptions(r).Success? <==> OptionsFit(r)
  {
    if |r.cmdline| < CmdlineSize(r.headerVersion) && r.headerVersion < 3 {
      SplitFits(r.cmdline + [0]);
    }
    TextsAccepted(r);
  }

  lemma TextsAccepted(r: RawOptions)
    ensures DefaultZero(r.osVersion, x => ParseOsVersion(x)).Success? <==> VersionFits(TextOf(r.osVersion))
    ensures DefaultZero(r.osPatchLevel, x => ParseOsPatchLevel(x)).Success? <==> PatchLevelFits(TextOf(r.osPatchLevel))
  {}
}
