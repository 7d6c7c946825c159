/** The whole tool: from option values and a file system to the images it leaves behind. */
module Tool {
  import opened Outcomes
  import opened Bytes
  import opened Inputs
  import opened VendorTable
  import opened Files
  import opened Builder
  import opened CommandLine
  import opened RamdiskArgs
  import opened Mkbootimg
  import opened Invocations
  import BootImage
  import BootRoundTrip
  import VendorImage
  import VendorRoundTrip

  function FileAt(fs: FileSystem, path: Option<string>): Option<bytes> {
    match path
    case None => None
    case Some(p) => if p in fs then Some(fs[p]) else None
  }

  predicate Present(fs: FileSystem, path: Option<string>) {
    path.Some? ==> path.value in fs
  }

  predicate AllPresent(fs: FileSystem, p: Paths) {
    Present(fs, p.kernel) && Present(fs, p.ramdisk) && Present(fs, p.second) && Present(fs, p.recoveryDtbo)
    && Present(fs, p.dtb) && Present(fs, p.vendorRamdisk) && Present(fs, p.vendorBootconfig)
  }

  function PayloadAt(fs: FileSystem, p: Paths): Payload {
    Payload(FileAt(fs, p.kernel), FileAt(fs, p.ramdisk), FileAt(fs, p.second), FileAt(fs, p.recoveryDtbo),
            FileAt(fs, p.dtb), FileAt(fs, p.vendorRamdisk), FileAt(fs, p.vendorBootconfig))
  }

  // The handles opened so far, all new since the call and at their start.
  twostate predicate JustOpened(new handles: set<InFile>)
    reads handles
  {
    forall f :: f in handles ==> fresh(f) && f.pos == 0
  }

  // FileType('rb') on an option that may have been left out.
  method Open(fs: FileSystem, path: Option<string>, handles: set<InFile>, ghost option: nat)
    returns (f: InFile?, more: set<InFile>)
    requires Present(fs, path)
    ensures Given(f) == FileAt(fs, path) && OpenedFor(f, option)
    ensures more == if f == null then handles else handles + {f}
    ensures f != null ==> fresh(f) && f.pos == 0
  {
    if path == None {
      return null, handles;
    }
    f := new InFile(path.value, fs[path.value], option);
    more := handles + {f};
  }

  // Whether the vendor ramdisk groups are looked at.
  predicate UsesTable(i: Invocation) {
    i.vendorBoot && i.opts.headerVersion > 3
  }

  // Exactly when parsing leaves arguments to work on.
  predicate Parses(i: Invocation, fs: FileSystem, parse: GroupParser) {
    && ParseOptions(i.opts).Success?
    && AllPresent(fs, i.paths)
    && if UsesTable(i) then
         && TableFrom(fs, parse, i.paths.vendorRamdisk, i.rest).Some?
         && ExtrasOf(parse, Groups(i.rest)) + Remainder(i.rest) == []
       else i.rest == []
  }

  function TableFor(i: Invocation, fs: FileSystem, parse: GroupParser): Table
    requires Parses(i, fs, parse)
  {
    if UsesTable(i) then TableFrom(fs, parse, i.paths.vendorRamdisk, i.rest).value else EMPTY_TABLE
  }

  // The files of the boot image options.
  method OpenBootInputs(fs: FileSystem, p: Paths)
    returns (kernel: InFile?, ramdisk: InFile?, second: InFile?, recoveryDtbo: InFile?, handles: set<InFile>)
    requires AllPresent(fs, p)
    ensures Given(kernel) == FileAt(fs, p.kernel) && Given(ramdisk) == FileAt(fs, p.ramdisk)
    ensures Given(second) == FileAt(fs, p.second) && Given(recoveryDtbo) == FileAt(fs, p.recoveryDtbo)
    ensures OpenedFor(kernel, 0) && OpenedFor(ramdisk, 1) && OpenedFor(second, 2) && OpenedFor(recoveryDtbo, 3)
    ensures (kernel != null ==> kernel in handles) && (ramdisk != null ==> ramdisk in handles)
    ensures (second != null ==> second in handles) && (recoveryDtbo != null ==> recoveryDtbo in handles)
    ensures JustOpened(handles)
  {
    handles := {};
    kernel, handles := Open(fs, p.kernel, handles, 0);
    ramdisk, handles := Open(fs, p.ramdisk, handles, 1);
    second, handles := Open(fs, p.second, handles, 2);
    recoveryDtbo, handles := Open(fs, p.recoveryDtbo, handles, 3);
  }

  // The files of the dtb and vendor boot options.
  method OpenVendorInputs(fs: FileSystem, p: Paths)
    returns (dtb: InFile?, vendorRamdisk: InFile?, vendorBootconfig: InFile?, handles: set<InFile>)
    requires AllPresent(fs, p)
    ensures Given(dtb) == FileAt(fs, p.dtb) && Given(vendorRamdisk) == FileAt(fs, p.vendorRamdisk)
    ensures Given(vendorBootconfig) == FileAt(fs, p.vendorBootconfig)
    ensures OpenedFor(dtb, 4) && OpenedFor(vendorRamdisk, 5) && OpenedFor(vendorBootconfig, 6)
    ensures (dtb != null ==> dtb in handles) && (vendorRamdisk != null ==> vendorRamdisk in handles)
    ensures vendorBootconfig != null ==> vendorBootconfig in handles
    ensures JustOpened(handles)
  {
    handles := {};
    dtb, handles := Open(fs, p.dtb, handles, 4);
    vendorRamdisk, handles := Open(fs, p.vendorRamdisk, handles, 5);
    vendorBootconfig, handles := Open(fs, p.vendorBootconfig, handles, 6);
  }

  // FileType('wb') on an option that may have been left out.
  method OpenOutput(asked: bool) returns (f: OutFile?)
    ensures if asked then f != null && fresh(f) && f.data == [] else f == null
  {
    f := null;
    if asked {
      f := new OutFile();
    }
  }

  method OpenFiles(i: Invocation, fs: FileSystem, o: Options, builder: VendorRamdiskTableBuilder?) returns (args: Args)
    requires AllPresent(fs, i.paths)
    ensures args.opts == o && args.builder == builder && args.printId == i.printId && args.signing == i.signing
    ensures args.Files() == PayloadAt(fs, i.paths)
    ensures args.Listed() && args.SeparateHandles() && JustOpened(args.handles)
    ensures if i.output
            then args.output != null && fresh(args.output) && args.output.data == []
            else args.output == null
    ensures if i.vendorBoot
            then args.vendorBoot != null && fresh(args.vendorBoot) && args.vendorBoot.data == []
                 && args.vendorBoot != args.output
            else args.vendorBoot == null
  {
    var kernel, ramdisk, second, recoveryDtbo, bootHandles := OpenBootInputs(fs, i.paths);
    var dtb, vendorRamdisk, vendorBootconfig, vendorHandles := OpenVendorInputs(fs, i.paths);
    var output := OpenOutput(i.output);
    var vendorBoot := OpenOutput(i.vendorBoot);
    args := Args(o, kernel, ramdisk, second, recoveryDtbo, dtb, vendorRamdisk, vendorBootconfig,
                 output, vendorBoot, bootHandles + vendorHandles, builder, i.printId, i.signing);
  }

  // What the user asked to have in the boot image.
  function ExpectedBoot(i: Invocation, fs: FileSystem, o: Options, id: bytes, signature: bytes): BootImage.Contents
    requires 0 <= o.headerVersion <= 4
  {
    var legacy := o.headerVersion <= 2;
    BootImage.Intended(o, PayloadAt(fs, i.paths), id, signature).(
      cmdline := i.opts.cmdline, name := if legacy then i.opts.board else [])
  }

  // What the user asked to have in the vendor boot image.
  function ExpectedVendor(i: Invocation, fs: FileSystem, o: Options, t: Table): VendorImage.Contents {
    VendorImage.Intended(fs, o, PayloadAt(fs, i.paths), t).(cmdline := i.opts.vendorCmdline, name := i.opts.board)
  }

  lemma IntendedIsExpected(i: Invocation, fs: FileSystem, id: bytes, signature: bytes, t: Table)
    requires ParseOptions(i.opts).Success? && CleanStrings(i.opts)
    ensures var o := ParseOptions(i.opts).value;
            && VendorImage.Intended(fs, o, PayloadAt(fs, i.paths), t) == ExpectedVendor(i, fs, o, t)
            && (0 <= o.headerVersion <= 4 ==>
                  BootImage.Intended(o, PayloadAt(fs, i.paths), id, signature) == ExpectedBoot(i, fs, o, id, signature))
  {
    OptionsParse(i.opts);
  }

  // parse_cmdline after argparse: open files, vendor ramdisk groups, left-over arguments, split command line.
  method ParseCmdline(i: Invocation, fs: FileSystem, parse: GroupParser) returns (r: Result<Args>)
    requires CleanStrings(i.opts)
    ensures r.Success? <==> Parses(i, fs, parse)
    ensures r.Success? ==>
              && Ready(r.value, fs)
              && r.value.opts == ParseOptions(i.opts).value
              && r.value.Files() == PayloadAt(fs, i.paths)
              && TableOf(r.value) == TableFor(i, fs, parse)
              && (r.value.output != null <==> i.output) && (r.value.vendorBoot != null <==> i.vendorBoot)
              && r.value.printId == i.printId && r.value.signing == i.signing
    ensures r.Success? ==> fresh(r.value.handles)
    ensures r.Success? && i.output ==> fresh(r.value.output)
    ensures r.Success? && i.vendorBoot ==> fresh(r.value.vendorBoot)
  {
    var o :- ParseOptions(i.opts);
    OptionsParse(i.opts);
    if !AllPresent(fs, i.paths) {
      return Failure(ArgumentError);
    }
    var builder: VendorRamdiskTableBuilder? := null;
    var extra := i.rest;
    if UsesTable(i) {
      var s;
      s, builder, extra := ParseVendorRamdiskArgs(fs, parse, i.paths.vendorRamdisk, i.rest);
      if s.Raised? {
        return Failure(s.error);
      }
      TableMatchesGroups(fs, parse, i.paths.vendorRamdisk, i.rest);
    }
    if |extra| > 0 {
      return Failure(ValueError);
    }
    var args := OpenFiles(i, fs, o, builder);
    return Success(args);
  }

  // What a reader of the boot image finds.
  predicate BootAsExpected(data: bytes, i: Invocation, fs: FileSystem, sha1: Sha1)
    requires ParseOptions(i.opts).Success?
  {
    var o, p := ParseOptions(i.opts).value, PayloadAt(fs, i.paths);
    var signature := Content(SignatureBytes(i.signing));
    0 <= o.headerVersion <= 4 &&
    BootImage.Read(data)
    == if o.headerVersion == 4 && signature == [] then None
       else Some(ExpectedBoot(i, fs, o, BootImage.ImageIdOf(sha1, o, p),
                              BootRoundTrip.SignatureSection(o.headerVersion, signature)))
  }

  // The bytes of the two images.
  function BootBytes(i: Invocation, fs: FileSystem, sha1: Sha1): bytes
    requires ParseOptions(i.opts).Success?
  {
    var o, p := ParseOptions(i.opts).value, PayloadAt(fs, i.paths);
    BootImage.ImageBytes(o, p, BootImage.ImageIdOf(sha1, o, p), Content(SignatureBytes(i.signing)))
  }

  function VendorBytes(i: Invocation, fs: FileSystem, parse: GroupParser): bytes
    requires Parses(i, fs, parse)
  {
    VendorImage.ImageBytes(fs, ParseOptions(i.opts).value, PayloadAt(fs, i.paths), TableFor(i, fs, parse))
  }

  // Exactly when a run of the tool raises nothing.
  predicate Completes(i: Invocation, fs: FileSystem, parse: GroupParser, sha1: Sha1)
    requires CleanStrings(i.opts)
  {
    Parses(i, fs, parse) &&
    var o, p := ParseOptions(i.opts).value, PayloadAt(fs, i.paths);
    OptionsParse(i.opts);
    && (i.vendorBoot ==> VendorCompletes(o, p, TableFor(i, fs, parse)))
    && (i.output ==> BootCompletes(o, p, i.signing, sha1))
  }

  // The written images, once arguments are parsed.
  method RunParsed(args: Args, fs: FileSystem, sha1: Sha1, ghost t: Table)
    returns (s: Status, output: Option<bytes>, vendorBoot: Option<bytes>, printed: Option<bytes>)
    requires Ready(args, fs) && t == TableOf(args)
    modifies args.output, args.vendorBoot, args.handles
    ensures s.Ok? <==> && (args.vendorBoot != null ==> VendorCompletes(args.opts, args.Files(), t))
                       && (args.output != null ==> BootCompletes(args.opts, args.Files(), args.signing, sha1))
    ensures (output.Some? <==> args.output != null) && (vendorBoot.Some? <==> args.vendorBoot != null)
    ensures s.Ok? && output.Some? ==>
              output.value
              == BootImage.ImageBytes(args.opts, args.Files(), BootImage.ImageIdOf(sha1, args.opts, args.Files()),
                                      Content(SignatureBytes(args.signing)))
    ensures s.Ok? && vendorBoot.Some? ==> vendorBoot.value == VendorImage.ImageBytes(fs, args.opts, args.Files(), t)
    ensures s.Ok? ==>
              printed == if args.output != null && args.printId && args.opts.headerVersion <= 2
                         then Some(BootImage.ImageIdOf(sha1, args.opts, args.Files())) else None
  {
    s, printed := Run(args, fs, sha1, t);
    output := if args.output == null then None else Some(args.output.data);
    vendorBoot := if args.vendorBoot == null then None else Some(args.vendorBoot.data);
  }

  // The tool from parsing to the bytes it leaves, in terms of the parsed arguments.
  method RunInvocation(i: Invocation, fs: FileSystem, parse: GroupParser, sha1: Sha1)
    returns (s: Status, output: Option<bytes>, vendorBoot: Option<bytes>, printed: Option<bytes>)
    requires CleanStrings(i.opts)
    ensures s.Ok? <==> Completes(i, fs, parse, sha1)
    ensures s.Ok? ==> (output.Some? <==> i.output) && (vendorBoot.Some? <==> i.vendorBoot)
    ensures s.Ok? && i.output ==> output.value == BootBytes(i, fs, sha1)
    ensures s.Ok? && i.vendorBoot ==> vendorBoot.value == VendorBytes(i, fs, parse)
    ensures s.Ok? ==>
              printed == if i.output && i.printId && i.opts.headerVersion <= 2
                         then Some(BootImage.ImageIdOf(sha1, ParseOptions(i.opts).value, PayloadAt(fs, i.paths)))
                         else None
  {
    output, vendorBoot, printed := None, None, None;
    var r := ParseCmdline(i, fs, parse);
    if r.Failure? {
      s := Raised(r.error);
      return;
    }
    VersionKept(i.opts);
    s, output, vendorBoot, printed := RunParsed(r.value, fs, sha1, TableFor(i, fs, parse));
  }

  lemma VersionKept(r: RawOptions)
    requires ParseOptions(r).Success?
    ensures ParseOptions(r).value.headerVersion == r.headerVersion
  {}

  lemma BootReadsAsExpected(i: Invocation, fs: FileSystem, sha1: Sha1)
    requires ParseOptions(i.opts).Success? && CleanStrings(i.opts)
    requires BootCompletes(ParseOptions(i.opts).value, PayloadAt(fs, i.paths), i.signing, sha1)
    ensures BootAsExpected(BootBytes(i, fs, sha1), i, fs, sha1)
  {
    var o, p := ParseOptions(i.opts).value, PayloadAt(fs, i.paths);
    var signature := BootRoundTrip.SignatureSection(o.headerVersion, Content(SignatureBytes(i.signing)));
    OptionsParse(i.opts);
    BootReadsBack(o, p, i.signing, sha1);
    IntendedIsExpected(i, fs, BootImage.ImageIdOf(sha1, o, p), signature, EMPTY_TABLE);
  }

  lemma VendorReadsAsExpected(i: Invocation, fs: FileSystem, parse: GroupParser)
    requires Parses(i, fs, parse) && CleanStrings(i.opts) && i.vendorBoot
    requires VendorCompletes(ParseOptions(i.opts).value, PayloadAt(fs, i.paths), TableFor(i, fs, parse))
    ensures VendorImage.Read(VendorBytes(i, fs, parse))
         == Some(ExpectedVendor(i, fs, ParseOptions(i.opts).value, TableFor(i, fs, parse)))
  {
    var o := ParseOptions(i.opts).value;
    OptionsParse(i.opts);
    if o.headerVersion > 3 {
      TableMatchesGroups(fs, parse, i.paths.vendorRamdisk, i.rest);
    }
    VendorRoundTrip.RoundTrip(fs, o, PayloadAt(fs, i.paths), TableFor(i, fs, parse));
    IntendedIsExpected(i, fs, [], [], TableFor(i, fs, parse));
  }
}
