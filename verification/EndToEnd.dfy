/** The whole tool, in terms of what was typed alone. */
module EndToEnd {
  import opened Outcomes
  import opened Bytes
  import opened Struct
  import opened Paging
  import opened Sections
  import opened Inputs
  import opened ImageId
  import opened OsVersion
  import opened VendorTable
  import opened CommandLine
  import opened RamdiskArgs
  import opened Mkbootimg
  import opened Invocations
  import opened Tool
  import Layout
  import BootImage
  import BootLayout
  import BootRoundTrip
  import VendorImage
  import VendorLayout
  import VendorRoundTrip

  // ---------- from parsed arguments to what was typed ----------

  lemma FilesAreTyped(i: Invocation, fs: FileSystem)
    ensures var p, q := PayloadAt(fs, i.paths), i.paths;
            && Content(p.kernel) == TypedFile(fs, q.kernel) && Content(p.ramdisk) == TypedFile(fs, q.ramdisk)
            && Content(p.second) == TypedFile(fs, q.second) && Content(p.dtb) == TypedFile(fs, q.dtb)
            && Content(p.recoveryDtbo) == TypedFile(fs, q.recoveryDtbo)
            && Content(p.vendorRamdisk) == TypedFile(fs, q.vendorRamdisk)
            && Content(p.vendorBootconfig) == TypedFile(fs, q.vendorBootconfig)
    ensures AllPresent(fs, i.paths) <==> FilesExist(fs, i.paths)
  {
    var p := i.paths;
    var all := [p.kernel, p.ramdisk, p.second, p.recoveryDtbo, p.dtb, p.vendorRamdisk, p.vendorBootconfig];
    assert p.kernel == all[0] && p.ramdisk == all[1] && p.second == all[2] && p.recoveryDtbo == all[3]
        && p.dtb == all[4] && p.vendorRamdisk == all[5] && p.vendorBootconfig == all[6];
  }

  lemma FitIsFilled(size: nat, s: bytes)
    ensures Fit(size, s) == Filled(s, size)
  {}

  lemma WordIsLittle(n: nat)
    requires n < 0x1_0000_0000
    ensures LE(n, 4) == [n % 0x100, n / 0x100 % 0x100, n / 0x1_0000 % 0x100, n / 0x100_0000 % 0x100]
  {
    assert LE(n, 4) == [n % 256] + LE(n / 256, 3);
    assert LE(n / 256, 3) == [n / 256 % 256] + LE(n / 256 / 256, 2);
    assert LE(n / 256 / 256, 2) == [n / 256 / 256 % 256] + LE(n / 256 / 256 / 256, 1);
    assert LE(n / 256 / 256 / 256, 1) == [n / 256 / 256 / 256 % 256] + LE(n / 256 / 256 / 256 / 256, 0);
    assert n / 256 / 256 == n / 0x1_0000 && n / 256 / 256 / 256 == n / 0x100_0000;
  }

  lemma RecordIsSized(c: bytes)
    requires Word32(|c|)
    ensures Record(c) == Sized(c)
  {
    WordIsLittle(|c|);
  }

  lemma PreimageOfThree(none: seq<bytes>, a: bytes, b: bytes, c: bytes)
    requires none == []
    ensures Preimage(none + [a] + [b] + [c]) == Record(a) + Record(b) + Record(c)
  {
    PreimageStep(none, a);
    PreimageStep(none + [a], b);
    PreimageStep(none + [a] + [b], c);
  }

  lemma PreimageOfComponents(v: int, p: Payload, none: seq<bytes>)
    requires none == []
    ensures Preimage(Components(v, p))
         == Record(Content(p.kernel)) + Record(Content(p.ramdisk)) + Record(Content(p.second))
            + (if v > 0 then Record(Content(p.recoveryDtbo)) else [])
            + (if v > 1 then Record(Content(p.dtb)) else [])
  {
    var first := none + [Content(p.kernel)] + [Content(p.ramdisk)] + [Content(p.second)];
    PreimageOfThree(none, Content(p.kernel), Content(p.ramdisk), Content(p.second));
    PreimageStep(first, Content(p.recoveryDtbo));
    PreimageStep(first + [Content(p.recoveryDtbo)], Content(p.dtb));
    assert Components(v, p) == if v <= 0 then first
                               else if v == 1 then first + [Content(p.recoveryDtbo)]
                               else first + [Content(p.recoveryDtbo)] + [Content(p.dtb)];
  }

  // The id is the digest of the components as they were typed.
  lemma IdIsTyped(i: Invocation, fs: FileSystem, sha1: Sha1, o: Options)
    requires o.headerVersion == i.opts.headerVersion && AllHashable(Components(o.headerVersion, PayloadAt(fs, i.paths)))
    ensures BootImage.ImageIdOf(sha1, o, PayloadAt(fs, i.paths)) == TypedId(i, fs, sha1)
  {
    var p := PayloadAt(fs, i.paths);
    var cs := Components(o.headerVersion, p);
    FilesAreTyped(i, fs);
    PreimageOfComponents(o.headerVersion, p, []);
    forall k | 0 <= k < |cs| ensures Record(cs[k]) == Sized(cs[k]) {
      assert Packable(I(|cs[k]|));
      RecordIsSized(cs[k]);
    }
    assert cs[0] == Content(p.kernel) && cs[1] == Content(p.ramdisk) && cs[2] == Content(p.second);
    FitIsFilled(32, sha1(Preimage(cs)));
  }

  lemma VersionsAreTyped(r: RawOptions)
    requires ParseOptions(r).Success?
    ensures ParseOptions(r).value.osVersion == TypedVersion(r)
    ensures ParseOptions(r).value.osPatchLevel == TypedPatchLevel(r)
  {
    AcceptedValues(TextOf(r.osVersion), TextOf(r.osPatchLevel));
    TextsParsed(r);
  }

  lemma TextsParsed(r: RawOptions)
    requires ParseOptions(r).Success?
    ensures ParseOsVersion(TextOf(r.osVersion)) == Success(ParseOptions(r).value.osVersion)
    ensures ParseOsPatchLevel(TextOf(r.osPatchLevel)) == Success(ParseOptions(r).value.osPatchLevel)
  {}

  lemma SignatureIsTyped(signing: Signing, size: nat)
    requires SigningFits(signing) && size == 4096
    ensures SignatureBytes(signing).Some?
    ensures Fit(size, SignatureBytes(signing).value) == TypedSignature(signing)
    ensures SignatureBytes(signing).value == [] <==> signing.key && signing.algorithm && signing.vbmeta == Some([])
  {
    if signing.vbmeta.Some? {
      FitIsFilled(size, signing.vbmeta.value);
    }
    assert |Zeros(size)| == size;
  }

  lemma IntendedNumbersSay(i: Invocation, o: Options, p: Payload, id: bytes, signature: bytes, cmdline: bytes,
                           name: bytes, image: BootImage.Contents)
    requires ParseOptions(i.opts) == Success(o) && NumbersKept(i.opts, o) && 0 <= o.headerVersion <= 4
    requires image == BootImage.Intended(o, p, id, signature).(cmdline := cmdline, name := name)
    ensures BootNumbersSay(image, i)
  {
    VersionsAreTyped(i.opts);
  }

  // The contents the reader is known to find are what was typed.
  lemma ExpectedBootSays(i: Invocation, fs: FileSystem, sha1: Sha1, id: bytes, signature: bytes)
    requires ParseOptions(i.opts).Success? && 0 <= i.opts.headerVersion <= 4
    requires i.opts.headerVersion > 2 ==> i.paths.second == None
    requires i.opts.headerVersion <= 2 ==> id == TypedId(i, fs, sha1)
    requires signature == if i.opts.headerVersion == 4 then TypedSignature(i.signing) else []
    requires NumbersKept(i.opts, ParseOptions(i.opts).value)
    ensures var image := ExpectedBoot(i, fs, ParseOptions(i.opts).value, id, signature);
            BootFilesSay(image, i, fs) && BootNumbersSay(image, i) && BootTextsSay(image, i, fs, sha1)
  {
    FilesAreTyped(i, fs);
    IntendedNumbersSay(i, ParseOptions(i.opts).value, PayloadAt(fs, i.paths), id, signature, i.opts.cmdline,
                       if i.opts.headerVersion <= 2 then i.opts.board else [],
                       ExpectedBoot(i, fs, ParseOptions(i.opts).value, id, signature));
  }

  // ---------- completion in plain terms ----------

  lemma BootFitsLegacy(i: Invocation, fs: FileSystem, o: Options, p: Payload, id: bytes)
    requires p == PayloadAt(fs, i.paths) && Parsed(o) && NumbersKept(i.opts, o) && o.headerVersion <= 2
    ensures BootImage.HeaderWritable(o, p, id) <==> BootFits(i, fs)
  {
    FilesAreTyped(i, fs);
    BootRoundTrip.LegacyWritableIff(o, p, id);
  }

  // The boot half completes exactly when what was typed fits.
  lemma BootFitsIff(i: Invocation, fs: FileSystem, sha1: Sha1)
    requires ParseOptions(i.opts).Success? && AllPresent(fs, i.paths)
    requires Parsed(ParseOptions(i.opts).value) && NumbersKept(i.opts, ParseOptions(i.opts).value)
    ensures BootCompletes(ParseOptions(i.opts).value, PayloadAt(fs, i.paths), i.signing, sha1) <==> BootFits(i, fs)
  {
    var o, p := ParseOptions(i.opts).value, PayloadAt(fs, i.paths);
    var id := BootImage.ImageIdOf(sha1, o, p);
    if o.headerVersion <= 2 {
      BootFitsLegacy(i, fs, o, p, id);
    } else if o.headerVersion <= 4 {
      FilesAreTyped(i, fs);
      BootRoundTrip.V3WritableIff(o, p, id);
    }
  }

  lemma TypesAreTyped(es: seq<Entry>, rs: seq<Request>)
    requires EntriesOf(es, rs)
    ensures (forall k :: 0 <= k < |es| ==> Word32(es[k].rtype)) <==> forall k :: 0 <= k < |rs| ==> Word32(rs[k].rtype)
  {
    assert forall k :: 0 <= k < |es| ==> MadeFrom(es[k], rs[k]);
  }

  lemma VendorFitsIff(i: Invocation, fs: FileSystem, parse: GroupParser)
    requires Parses(i, fs, parse) && CleanStrings(i.opts) && i.vendorBoot
    requires Parsed(ParseOptions(i.opts).value) && NumbersKept(i.opts, ParseOptions(i.opts).value)
    ensures VendorCompletes(ParseOptions(i.opts).value, PayloadAt(fs, i.paths), TableFor(i, fs, parse))
       <==> VendorFits(i, fs, parse)
  {
    var o, p, t := ParseOptions(i.opts).value, PayloadAt(fs, i.paths), TableFor(i, fs, parse);
    FilesAreTyped(i, fs);
    if 3 <= o.headerVersion <= 4 {
      if o.headerVersion > 3 {
        TableIsTyped(fs, parse, i.paths.vendorRamdisk, i.rest);
        TypesAreTyped(t.entries, TypedRequests(parse, i.paths.vendorRamdisk, i.rest));
      }
      VendorRoundTrip.WritableIff(fs, o, p, t);
    }
  }

  // Parsing succeeds exactly when the command line fits.
  lemma ParsesIff(i: Invocation, fs: FileSystem, parse: GroupParser)
    ensures Parses(i, fs, parse) <==> CommandLineFits(i, fs, parse)
  {
    OptionsAcceptedIff(i.opts);
    FilesAreTyped(i, fs);
    GroupsAcceptedIff(fs, parse, i.paths.vendorRamdisk, i.rest);
  }

  // The tool raises nothing exactly when what was typed fits.
  lemma CompletesIff(i: Invocation, fs: FileSystem, parse: GroupParser, sha1: Sha1)
    requires CleanStrings(i.opts)
    ensures Completes(i, fs, parse, sha1) <==> ToolFits(i, fs, parse)
  {
    ParsesIff(i, fs, parse);
    if Parses(i, fs, parse) {
      OptionsParse(i.opts);
      BootFitsIff(i, fs, sha1);
      if i.vendorBoot {
        VendorFitsIff(i, fs, parse);
      }
    }
  }

  // ---------- the vendor boot image in plain terms ----------

  lemma FragmentIsTyped(fs: FileSystem, e: Entry, r: Request)
    requires MadeFrom(e, r)
    ensures FragmentSays(VendorImage.FragmentOf(fs, e), fs, r)
  {
    FitIsFilled(32, r.name);
    AcceptableIff(fs, {}, r);
  }

  lemma JoinedSnoc(fragments: seq<VendorImage.Fragment>, f: VendorImage.Fragment)
    ensures Joined(fragments + [f]) == Joined(fragments) + f.ramdisk
  {
    assert (fragments + [f])[..|fragments|] == fragments;
  }

  lemma FragmentsAppend(fs: FileSystem, es: seq<Entry>, e: Entry)
    ensures VendorImage.FragmentsOf(fs, es + [e]) == VendorImage.FragmentsOf(fs, es) + [VendorImage.FragmentOf(fs, e)]
  {}

  lemma {:induction false} JoinedRamdisks(fs: FileSystem, es: seq<Entry>)
    ensures Ramdisks(fs, es) == Joined(VendorImage.FragmentsOf(fs, es))
  {
    if es != [] {
      var front, e := es[..|es| - 1], es[|es| - 1];
      JoinedRamdisks(fs, front);
      RamdisksSnoc(fs, front, e);
      FragmentsAppend(fs, front, e);
      JoinedSnoc(VendorImage.FragmentsOf(fs, front), VendorImage.FragmentOf(fs, e));
      assert es == front + [e];
    }
  }

  // In a version 4 vendor boot image the reader finds one ramdisk per group, after the platform ramdisk if there is
  // one, each with the file, type, name and board id of its group.
  lemma FragmentsFollowGroups(i: Invocation, fs: FileSystem, parse: GroupParser)
    requires Parses(i, fs, parse) && UsesTable(i)
    ensures var rs := TypedRequests(parse, i.paths.vendorRamdisk, i.rest);
            var fragments := VendorImage.FragmentsOf(fs, TableFor(i, fs, parse).entries);
            && |fragments| == |rs| == |Groups(i.rest)| + (if i.paths.vendorRamdisk.Some? then 1 else 0)
            && forall k :: 0 <= k < |rs| ==> FragmentSays(fragments[k], fs, rs[k])
  {
    var rs, es := TypedRequests(parse, i.paths.vendorRamdisk, i.rest), TableFor(i, fs, parse).entries;
    TableIsTyped(fs, parse, i.paths.vendorRamdisk, i.rest);
    forall k | 0 <= k < |rs| ensures FragmentSays(VendorImage.FragmentsOf(fs, es)[k], fs, rs[k]) {
      assert MadeFrom(es[k], rs[k]);
      FragmentIsTyped(fs, es[k], rs[k]);
    }
  }

  // The contents the reader is known to find are what was typed.
  lemma ExpectedVendorSays(i: Invocation, fs: FileSystem, parse: GroupParser)
    requires Parses(i, fs, parse) && i.vendorBoot && 3 <= i.opts.headerVersion <= 4
    requires NumbersKept(i.opts, ParseOptions(i.opts).value)
    ensures var image := ExpectedVendor(i, fs, ParseOptions(i.opts).value, TableFor(i, fs, parse));
            VendorNumbersSay(image, i, fs) && VendorRamdisksSay(image, i, fs, parse)
  {
    FilesAreTyped(i, fs);
    if i.opts.headerVersion > 3 {
      FragmentsFollowGroups(i, fs, parse);
      JoinedRamdisks(fs, TableFor(i, fs, parse).entries);
    }
  }

  // ---------- the whole tool ----------

  // The reading of the boot image, with the signature as it was given.
  lemma ReadingIsExpected(data: bytes, i: Invocation, fs: FileSystem, sha1: Sha1)
    requires ParseOptions(i.opts).Success? && BootAsExpected(data, i, fs, sha1)
    requires i.opts.headerVersion == 4 ==> SigningFits(i.signing)
    ensures var o, p := ParseOptions(i.opts).value, PayloadAt(fs, i.paths);
            0 <= o.headerVersion <= 4 &&
            BootImage.Read(data)
            == if EmptySignature(i) then None
               else Some(ExpectedBoot(i, fs, o, BootImage.ImageIdOf(sha1, o, p),
                                      if i.opts.headerVersion == 4 then TypedSignature(i.signing) else []))
  {
    VersionKept(i.opts);
    if i.opts.headerVersion == 4 {
      SignatureIsTyped(i.signing, BootImage.BOOT_IMAGE_V4_SIGNATURE_SIZE);
    }
  }

  lemma ReadIsTyped(data: bytes, i: Invocation, fs: FileSystem, sha1: Sha1)
    requires ParseOptions(i.opts).Success? && CleanStrings(i.opts) && AllPresent(fs, i.paths)
    requires BootFits(i, fs) && BootAsExpected(data, i, fs, sha1)
    ensures if EmptySignature(i) then BootImage.Read(data) == None
            else
              && BootImage.Read(data).Some?
              && var image := BootImage.Read(data).value;
                 BootFilesSay(image, i, fs) && BootNumbersSay(image, i) && BootTextsSay(image, i, fs, sha1)
  {
    var o, p := ParseOptions(i.opts).value, PayloadAt(fs, i.paths);
    OptionsParse(i.opts);
    ReadingIsExpected(data, i, fs, sha1);
    if o.headerVersion <= 2 {
      SizesHashable(i, fs);
      IdIsTyped(i, fs, sha1, o);
    }
    ExpectedBootSays(i, fs, sha1, BootImage.ImageIdOf(sha1, o, p),
                     if i.opts.headerVersion == 4 then TypedSignature(i.signing) else []);
  }

  lemma HeaderInFront(data: bytes, header: bytes, parts: seq<bytes>, page: nat, n: nat)
    requires page > 0 && data == Image([header] + parts, page) && |header| == n
    ensures n <= |data| && data[..n] == header && data == Image([data[..n]] + parts, page)
  {
    assert ([header] + parts)[0] == header;
  }

  lemma LegacySectionsHold(i: Invocation, fs: FileSystem, o: Options, p: Payload, signature: bytes)
    requires p == PayloadAt(fs, i.paths) && o.headerVersion == i.opts.headerVersion && 0 <= o.headerVersion <= 2
    ensures BootImage.DataParts(o, p, signature) == TypedSections(i, fs)
  {
    FilesAreTyped(i, fs);
  }

  lemma V3SectionsHold(i: Invocation, fs: FileSystem, header: bytes, o: Options, p: Payload, signature: bytes,
                       page: nat)
    requires PowerOfTwo(page) && page == BootImage.BOOT_IMAGE_V4_SIGNATURE_SIZE
    requires p == PayloadAt(fs, i.paths) && o.headerVersion == i.opts.headerVersion && 3 <= o.headerVersion <= 4
    requires FileSize(p.second) == 0 && |signature| <= page
    requires o.headerVersion == 4 ==>
               (signature == [] <==> EmptySignature(i)) && Fit(page, signature) == TypedSignature(i.signing)
    ensures Image([header] + BootImage.DataParts(o, p, signature), page) == Image([header] + TypedSections(i, fs), page)
  {
    FilesAreTyped(i, fs);
    BootRoundTrip.V3Image(header, o, p, signature, page);
    V3Sections(i, fs, header, o, p, signature, page);
  }

  lemma SectionsListed(i: Invocation, fs: FileSystem, header: bytes)
    requires 3 <= i.opts.headerVersion <= 4
    ensures [header] + TypedSections(i, fs)
         == [header, TypedFile(fs, i.paths.kernel), TypedFile(fs, i.paths.ramdisk)]
            + (if i.opts.headerVersion == 4 && !EmptySignature(i) then [TypedSignature(i.signing)] else [])
  {}

  // An empty last section takes no page.
  lemma LastSectionEmpty(first: seq<bytes>, page: nat)
    requires PowerOfTwo(page)
    ensures Image(first + [[]], page) == Image(first + [], page)
  {
    ImageSkipsEmpty(first, [], page);
    assert first + [[]] + [] == first + [[]];
  }

  lemma V3Sections(i: Invocation, fs: FileSystem, header: bytes, o: Options, p: Payload, signature: bytes, page: nat)
    requires PowerOfTwo(page) && page == BootImage.BOOT_IMAGE_V4_SIGNATURE_SIZE
    requires o.headerVersion == i.opts.headerVersion && 3 <= o.headerVersion <= 4
    requires Content(p.kernel) == TypedFile(fs, i.paths.kernel) && Content(p.ramdisk) == TypedFile(fs, i.paths.ramdisk)
    requires o.headerVersion == 4 ==>
               (signature == [] <==> EmptySignature(i)) && Fit(page, signature) == TypedSignature(i.signing)
    ensures Image([header, Content(p.kernel), Content(p.ramdisk)]
                  + (if o.headerVersion == 4 && signature == [] then []
                     else [BootRoundTrip.SignatureSection(o.headerVersion, signature)]), page)
         == Image([header] + TypedSections(i, fs), page)
  {
    SectionsListed(i, fs, header);
    if o.headerVersion == 3 {
      LastSectionEmpty([header, Content(p.kernel), Content(p.ramdisk)], page);
    }
  }

  lemma SectionsOfBytes(i: Invocation, fs: FileSystem, header: bytes, o: Options, p: Payload, signature: bytes)
    requires p == PayloadAt(fs, i.paths) && o.headerVersion == i.opts.headerVersion && 0 <= o.headerVersion <= 4
    requires o.headerVersion > 2 ==> FileSize(p.second) == 0
    requires |signature| <= BootImage.BOOT_IMAGE_V4_SIGNATURE_SIZE && o.pagesize > 0
    requires o.headerVersion == 4 ==>
               && (signature == [] <==> EmptySignature(i))
               && Fit(BootImage.BOOT_IMAGE_V4_SIGNATURE_SIZE, signature) == TypedSignature(i.signing)
    ensures Image([header] + BootImage.DataParts(o, p, signature), BootImage.DataPage(o))
         == Image([header] + TypedSections(i, fs), BootImage.DataPage(o))
  {
    if o.headerVersion <= 2 {
      LegacySectionsHold(i, fs, o, p, signature);
    } else {
      PageChoiceIsPowerOfTwo(BootImage.BOOT_IMAGE_V4_SIGNATURE_SIZE);
      V3SectionsHold(i, fs, header, o, p, signature, BootImage.BOOT_IMAGE_V4_SIGNATURE_SIZE);
    }
  }

  function BootStructSize(v: int): nat {
    if v == 0 then 1632 else if v == 1 then 1648 else if v == 2 then 1660 else if v == 3 then 1580 else 1584
  }

  lemma HeaderStructSize(o: Options, p: Payload, id: bytes)
    requires PageChoice(o.pagesize) && 0 <= o.headerVersion <= 4
    ensures |Serialize(BootImage.Header(o, p, id))| == BootStructSize(o.headerVersion)
  {
    BootRoundTrip.HeaderSize(o, p, id);
    BootRoundTrip.StructSizes();
  }

  // The image is its header and what was typed, each on its own pages, and nothing else.
  lemma BootSectionsHold(i: Invocation, fs: FileSystem, sha1: Sha1)
    requires ParseOptions(i.opts).Success? && AllPresent(fs, i.paths) && BootFits(i, fs)
    requires NumbersKept(i.opts, ParseOptions(i.opts).value)
    ensures BootSectionsSay(BootBytes(i, fs, sha1), i, fs)
  {
    var o, p := ParseOptions(i.opts).value, PayloadAt(fs, i.paths);
    var signature := if SignatureBytes(i.signing).Some? then SignatureBytes(i.signing).value else [];
    var header := Serialize(BootImage.Header(o, p, BootImage.ImageIdOf(sha1, o, p)));
    HeaderStructSize(o, p, BootImage.ImageIdOf(sha1, o, p));
    if o.headerVersion == 4 {
      SignatureIsTyped(i.signing, BootImage.BOOT_IMAGE_V4_SIGNATURE_SIZE);
    }
    SignatureShort(i.signing);
    SectionsOfBytes(i, fs, header, o, p, signature);
    HeaderInFront(BootBytes(i, fs, sha1), header, TypedSections(i, fs), BootImage.DataPage(o),
                  BootStructSize(o.headerVersion));
  }

  lemma SignatureShort(signing: Signing)
    ensures |Content(SignatureBytes(signing))| <= BootImage.BOOT_IMAGE_V4_SIGNATURE_SIZE
  {}

  lemma ReservedWritten(i: Invocation, fs: FileSystem, sha1: Sha1)
    requires ParseOptions(i.opts).Success? && i.opts.headerVersion > 2
    requires BootCompletes(ParseOptions(i.opts).value, PayloadAt(fs, i.paths), i.signing, sha1)
    ensures BootLayout.ReservedZero(BootBytes(i, fs, sha1))
  {
    var o, p := ParseOptions(i.opts).value, PayloadAt(fs, i.paths);
    VersionKept(i.opts);
    BootRoundTrip.WritableVersion(o, p, BootImage.ImageIdOf(sha1, o, p));
    BootLayout.ReservedAreZero(o, p, BootImage.DataParts(o, p, Content(SignatureBytes(i.signing))),
                               BootImage.BOOT_IMAGE_HEADER_V3_PAGESIZE);
  }

  lemma BootOutcomeHolds(i: Invocation, fs: FileSystem, sha1: Sha1)
    requires ParseOptions(i.opts).Success? && CleanStrings(i.opts) && AllPresent(fs, i.paths)
    requires BootFits(i, fs) && BootCompletes(ParseOptions(i.opts).value, PayloadAt(fs, i.paths), i.signing, sha1)
    ensures BootOutcome(BootBytes(i, fs, sha1), i, fs, sha1)
  {
    var data := BootBytes(i, fs, sha1);
    VersionKept(i.opts);
    BootReadsAsExpected(i, fs, sha1);
    ReadIsTyped(data, i, fs, sha1);
    OptionsParse(i.opts);
    BootSectionsHold(i, fs, sha1);
    if i.opts.headerVersion > 2 {
      ReservedWritten(i, fs, sha1);
    }
    if BootImage.Read(data).Some? {
      BootLayout.ReaderFollowsBootimgH(data);
    }
  }

  lemma SizesHashable(i: Invocation, fs: FileSystem)
    requires BootFits(i, fs) && i.opts.headerVersion <= 2
    ensures AllHashable(Components(i.opts.headerVersion, PayloadAt(fs, i.paths)))
  {
    FilesAreTyped(i, fs);
  }

  lemma VendorHeaderInFront(i: Invocation, fs: FileSystem, parse: GroupParser)
    requires Parses(i, fs, parse) && 3 <= ParseOptions(i.opts).value.headerVersion <= 4
    ensures var o, p, t := ParseOptions(i.opts).value, PayloadAt(fs, i.paths), TableFor(i, fs, parse);
            var n := if o.headerVersion == 3 then 2112 else 2128;
            var data := VendorBytes(i, fs, parse);
            n <= |data| && data == Image([data[..n]] + VendorImage.DataParts(fs, o, p, t), o.pagesize)
  {
    var o, p, t := ParseOptions(i.opts).value, PayloadAt(fs, i.paths), TableFor(i, fs, parse);
    VendorRoundTrip.HeaderSize(o, p, t);
    HeaderInFront(VendorBytes(i, fs, parse), Serialize(VendorImage.Header(o, p, t)), VendorImage.DataParts(fs, o, p, t),
                  o.pagesize, if o.headerVersion == 3 then 2112 else 2128);
  }

  lemma VendorTableHolds(i: Invocation, fs: FileSystem, parse: GroupParser)
    requires Parses(i, fs, parse) && i.vendorBoot && Parsed(ParseOptions(i.opts).value)
    requires ParseOptions(i.opts).value.headerVersion == i.opts.headerVersion == 4
    requires VendorCompletes(ParseOptions(i.opts).value, PayloadAt(fs, i.paths), TableFor(i, fs, parse))
    ensures var n := 108 * |TableFor(i, fs, parse).entries|; (
            && |TableBytes(TableFor(i, fs, parse).entries)| == n
            && Layout.Has32(VendorBytes(i, fs, parse), 2112, n) && Layout.Has32(VendorBytes(i, fs, parse), 2120, 108))
  {
    var o, p, t := ParseOptions(i.opts).value, PayloadAt(fs, i.paths), TableFor(i, fs, parse);
    TableIsTyped(fs, parse, i.paths.vendorRamdisk, i.rest);
    VendorRoundTrip.TableLength(fs, t.entries);
    VendorLayout.TableMembersWritten(o, p, t, VendorImage.DataParts(fs, o, p, t));
  }

  lemma VendorSectionsHold(i: Invocation, fs: FileSystem, parse: GroupParser, image: VendorImage.Contents)
    requires Parses(i, fs, parse) && i.vendorBoot && Parsed(ParseOptions(i.opts).value)
    requires ParseOptions(i.opts).value.headerVersion == i.opts.headerVersion
    requires VendorCompletes(ParseOptions(i.opts).value, PayloadAt(fs, i.paths), TableFor(i, fs, parse))
    requires image == ExpectedVendor(i, fs, ParseOptions(i.opts).value, TableFor(i, fs, parse))
    ensures VendorSectionsSay(VendorBytes(i, fs, parse), image)
  {
    var o, p, t := ParseOptions(i.opts).value, PayloadAt(fs, i.paths), TableFor(i, fs, parse);
    var data := VendorBytes(i, fs, parse);
    VendorHeaderInFront(i, fs, parse);
    if o.headerVersion == 4 {
      VendorTableHolds(i, fs, parse);
      V4PartsListed(data[..2128], fs, o, p, t, image);
    } else {
      assert [data[..2112]] + VendorImage.DataParts(fs, o, p, t) == [data[..2112], image.ramdisk, image.dtb];
    }
  }

  lemma V4PartsListed(header: bytes, fs: FileSystem, o: Options, p: Payload, t: Table, image: VendorImage.Contents)
    requires o.headerVersion == 4 && image.ramdisk == Ramdisks(fs, t.entries) && image.dtb == Content(p.dtb)
    requires image.bootconfig == Content(p.vendorBootconfig)
    ensures [header] + VendorImage.DataParts(fs, o, p, t)
         == [header, image.ramdisk, image.dtb, TableBytes(t.entries), image.bootconfig]
  {}

  lemma VendorOutcomeHolds(i: Invocation, fs: FileSystem, parse: GroupParser)
    requires Parses(i, fs, parse) && CleanStrings(i.opts) && i.vendorBoot
    requires VendorCompletes(ParseOptions(i.opts).value, PayloadAt(fs, i.paths), TableFor(i, fs, parse))
    ensures VendorOutcome(VendorBytes(i, fs, parse), i, fs, parse)
  {
    var data := VendorBytes(i, fs, parse);
    OptionsParse(i.opts);
    VendorReadsAsExpected(i, fs, parse);
    ExpectedVendorSays(i, fs, parse);
    VendorSectionsHold(i, fs, parse, VendorImage.Read(data).value);
    VendorLayout.ReaderFollowsBootimgH(data);
  }

  // The tool in terms of what was typed alone. It raises nothing exactly when the command line fits, and then a
  // reader of each image that was asked for finds the files, numbers and texts of the command line, each at the
  // position bootimg.h gives it; the printed id is the digest of the files.
  method RunTool(i: Invocation, fs: FileSystem, parse: GroupParser, sha1: Sha1)
    returns (s: Status, output: Option<bytes>, vendorBoot: Option<bytes>, printed: Option<bytes>)
    requires CleanStrings(i.opts)
    ensures s.Ok? <==> ToolFits(i, fs, parse)
    ensures s.Ok? ==> (output.Some? <==> i.output) && (vendorBoot.Some? <==> i.vendorBoot)
    ensures s.Ok? && i.output ==> BootOutcome(output.value, i, fs, sha1)
    ensures s.Ok? && i.vendorBoot ==> VendorOutcome(vendorBoot.value, i, fs, parse)
    ensures s.Ok? ==>
              printed == if i.output && i.printId && i.opts.headerVersion <= 2 then Some(TypedId(i, fs, sha1)) else None
  {
    CompletesIff(i, fs, parse, sha1);
    s, output, vendorBoot, printed := RunInvocation(i, fs, parse, sha1);
    if s.Ok? {
      VersionKept(i.opts);
      if i.output {
        BootOutcomeHolds(i, fs, sha1);
        if i.opts.headerVersion <= 2 {
          SizesHashable(i, fs);
          IdIsTyped(i, fs, sha1, ParseOptions(i.opts).value);
        }
      }
      if i.vendorBoot {
        VendorOutcomeHolds(i, fs, parse);
      }
    }
  }
}
