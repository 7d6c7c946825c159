/** The writing half of mkbootimg: from parsed arguments to the two output files. */
module Mkbootimg {
  import opened Outcomes
  import opened Bytes
  import opened Struct
  import opened Paging
  import opened Inputs
  import opened ImageId
  import opened VendorTable
  import opened Files
  import opened Builder
  import BootImage
  import BootRoundTrip
  import VendorImage
  import VendorRoundTrip

  // The signing options; vbmeta is whatever the signing tool writes, None if it fails.
  datatype Signing = Signing(key: bool, algorithm: bool, vbmeta: Option<bytes>)

  // The parsed arguments with their open files.
  datatype Args = Args(
    opts: Options,
    kernel: InFile?,
    ramdisk: InFile?,
    second: InFile?,
    recoveryDtbo: InFile?,
    dtb: InFile?,
    vendorRamdisk: InFile?,
    vendorBootconfig: InFile?,
    output: OutFile?,
    vendorBoot: OutFile?,
    handles: set<InFile>,
    builder: VendorRamdiskTableBuilder?,
    printId: bool,
    signing: Signing)
  {
    function Files(): Payload {
      Payload(Given(kernel), Given(ramdisk), Given(second), Given(recoveryDtbo), Given(dtb),
              Given(vendorRamdisk), Given(vendorBootconfig))
    }

    // handles lists the open input files.
    predicate Listed() {
      && InputOf(kernel) && InputOf(ramdisk) && InputOf(second) && InputOf(recoveryDtbo) && InputOf(dtb)
      && InputOf(vendorRamdisk) && InputOf(vendorBootconfig)
    }

    predicate InputOf(f: InFile?) {
      f != null ==> f in handles
    }

    // Every open file is at its start.
    ghost predicate Rewound()
      reads handles
    {
      forall f :: f in handles ==> f.pos == 0
    }

    // No handle serves two options.
    ghost predicate SeparateHandles() {
      OpenedFor(kernel, 0) && OpenedFor(ramdisk, 1) && OpenedFor(second, 2) && OpenedFor(recoveryDtbo, 3)
      && OpenedFor(dtb, 4) && OpenedFor(vendorRamdisk, 5) && OpenedFor(vendorBootconfig, 6)
    }
  }

  ghost predicate OpenedFor(f: InFile?, option: nat) {
    f != null ==> f.option == option
  }

  function Filesize(f: InFile?): (n: nat)
    ensures n == FileSize(Given(f))
  {
    if f == null then 0 else |f.contents|
  }

  method WriteHeaderV3AndAbove(args: Args) returns (s: Status)
    requires args.output != null && 3 <= args.opts.headerVersion <= 4
    modifies args.output
    ensures s.Ok? == AllPackable(BootImage.HeaderV3AndAbove(args.opts, args.Files()))
    ensures s.Ok? ==>
              args.output.data
              == Padded(old(args.output.data) + Serialize(BootImage.HeaderV3AndAbove(args.opts, args.Files())),
                        BootImage.BOOT_IMAGE_HEADER_V3_PAGESIZE)
    ensures s.Raised? ==> old(args.output.data) <= args.output.data
  {
    var out, o := args.output, args.opts;
    var bootHeaderSize := BootImage.BOOT_IMAGE_HEADER_V3_SIZE;
    if o.headerVersion > 3 {
      bootHeaderSize := BootImage.BOOT_IMAGE_HEADER_V4_SIZE;
    }
    var fields := [
      S(BootImage.BOOT_MAGIC_SIZE, BootImage.BOOT_MAGIC),
      I(Filesize(args.kernel)),
      I(Filesize(args.ramdisk)),
      I(BitOr(Shl(o.osVersion, 11), o.osPatchLevel)),
      I(bootHeaderSize),
      I(0), I(0), I(0), I(0),
      I(o.headerVersion),
      S(BootImage.BOOT_ARGS_SIZE + BootImage.BOOT_EXTRA_ARGS_SIZE, o.cmdline)];
    if o.headerVersion >= 4 {
      fields := fields + [I(BootImage.BOOT_IMAGE_V4_SIGNATURE_SIZE)];
    }
    assert fields == BootImage.HeaderV3AndAbove(o, args.Files());
    :- WriteFields(out, fields);
    PadFile(out, BootImage.BOOT_IMAGE_HEADER_V3_PAGESIZE);
    return Ok;
  }

  lemma PreimageStep(done: seq<bytes>, c: bytes)
    ensures Preimage(done + [c]) == Preimage(done) + Record(c)
  {
    assert (done + [c])[..|done|] == done;
  }

  predicate Hashable(f: InFile?) {
    Packable(I(FileSize(Given(f))))
  }

  // update_sha on the next component; the file is at its start before and after.
  method HashNext(sha: ShaState, f: InFile?, ghost done: seq<bytes>) returns (s: Status)
    requires sha.fed == Preimage(done) && AtStart(f)
    modifies sha, f
    ensures forall g: InFile {:trigger g.pos} :: old(allocated(g)) ==> g.pos == old(g.pos)
    ensures s.Ok? <==> Hashable(f)
    ensures s.Ok? ==> sha.fed == Preimage(done + [Content(Given(f))])
  {
    PreimageStep(done, Content(Given(f)));
    s := UpdateSha(sha, f);
  }

  // The components every version has.
  method HashFirst(sha: ShaState, kernel: InFile?, ramdisk: InFile?, second: InFile?, ghost done: seq<bytes>)
    returns (s: Status)
    requires sha.fed == Preimage(done) && AtStart(kernel) && AtStart(ramdisk) && AtStart(second)
    modifies sha, kernel, ramdisk, second
    ensures forall g: InFile {:trigger g.pos} :: old(allocated(g)) ==> g.pos == old(g.pos)
    ensures s.Ok? <==> Hashable(kernel) && Hashable(ramdisk) && Hashable(second)
    ensures s.Ok? ==> sha.fed == Preimage(done + FirstComponents(kernel, ramdisk, second))
  {
    s := HashNext(sha, kernel, done);
    if s.Raised? {
      return;
    }
    s := HashNext(sha, ramdisk, done + [Content(Given(kernel))]);
    if s.Raised? {
      return;
    }
    s := HashNext(sha, second, done + [Content(Given(kernel))] + [Content(Given(ramdisk))]);
    ThreeParts(done, Content(Given(kernel)), Content(Given(ramdisk)), Content(Given(second)));
  }

  function FirstComponents(kernel: InFile?, ramdisk: InFile?, second: InFile?): seq<bytes> {
    [Content(Given(kernel)), Content(Given(ramdisk)), Content(Given(second))]
  }

  // The components only some versions have.
  method HashRest(version: int, sha: ShaState, recoveryDtbo: InFile?, dtb: InFile?, ghost done: seq<bytes>)
    returns (s: Status)
    requires sha.fed == Preimage(done) && AtStart(recoveryDtbo) && AtStart(dtb)
    modifies sha, recoveryDtbo, dtb
    ensures forall g: InFile {:trigger g.pos} :: old(allocated(g)) ==> g.pos == old(g.pos)
    ensures s.Ok? <==> (version > 0 ==> Hashable(recoveryDtbo)) && (version > 1 ==> Hashable(dtb))
    ensures s.Ok? ==> sha.fed == Preimage(WithRest(version, recoveryDtbo, dtb, done))
  {
    s := Ok;
    if version > 0 {
      s := HashNext(sha, recoveryDtbo, done);
      if s.Raised? {
        return;
      }
    }
    if version > 1 {
      s := HashNext(sha, dtb, done + [Content(Given(recoveryDtbo))]);
    }
  }

  function WithRest(version: int, recoveryDtbo: InFile?, dtb: InFile?, done: seq<bytes>): seq<bytes> {
    if version <= 0 then done
    else if version == 1 then done + [Content(Given(recoveryDtbo))]
    else done + [Content(Given(recoveryDtbo))] + [Content(Given(dtb))]
  }

  function GetRecoveryDtboOffset(args: Args): nat
    requires args.opts.pagesize > 0
  {
    var page := args.opts.pagesize;
    var numHeaderPages := 1;
    var numKernelPages := NumPages(Filesize(args.kernel), page);
    var numRamdiskPages := NumPages(Filesize(args.ramdisk), page);
    var numSecondPages := NumPages(Filesize(args.second), page);
    page * (numHeaderPages + numKernelPages + numRamdiskPages + numSecondPages)
  }

  // The statements before the hash is computed.
  method WriteLegacyStart(args: Args) returns (s: Status)
    requires args.output != null
    modifies args.output
    ensures s.Ok? == AllPackable(BootImage.LegacyStart(args.opts, args.Files()))
    ensures s.Ok? ==>
              args.output.data == old(args.output.data) + Serialize(BootImage.LegacyStart(args.opts, args.Files()))
    ensures s.Raised? ==> old(args.output.data) <= args.output.data
  {
    var o := args.opts;
    var ramdiskLoadAddress := if Filesize(args.ramdisk) > 0 then o.base + o.ramdiskOffset else 0;
    var secondLoadAddress := if Filesize(args.second) > 0 then o.base + o.secondOffset else 0;
    var fields := [
      S(BootImage.BOOT_MAGIC_SIZE, BootImage.BOOT_MAGIC),
      I(Filesize(args.kernel)),
      I(o.base + o.kernelOffset),
      I(Filesize(args.ramdisk)),
      I(ramdiskLoadAddress),
      I(Filesize(args.second)),
      I(secondLoadAddress),
      I(o.base + o.tagsOffset),
      I(o.pagesize),
      I(o.headerVersion),
      I(BitOr(Shl(o.osVersion, 11), o.osPatchLevel)),
      S(BootImage.BOOT_NAME_SIZE, o.board),
      S(BootImage.BOOT_ARGS_SIZE, o.cmdline)];
    assert fields == BootImage.LegacyStart(o, args.Files());
    s := WriteFields(args.output, fields);
  }

  // The recovery dtbo statements of versions 1 and 2.
  method WriteDtboFields(args: Args) returns (s: Status)
    requires args.output != null && args.opts.pagesize > 0 && 1 <= args.opts.headerVersion <= 2
    modifies args.output
    ensures s.Ok? == AllPackable(BootImage.DtboFields(args.opts, args.Files()))
    ensures s.Ok? ==>
              args.output.data == old(args.output.data) + Serialize(BootImage.DtboFields(args.opts, args.Files()))
    ensures s.Raised? ==> old(args.output.data) <= args.output.data
  {
    var fields: seq<Field>;
    if args.recoveryDtbo != null {
      fields := [I(Filesize(args.recoveryDtbo)), Q(GetRecoveryDtboOffset(args))];
    } else {
      fields := [I(0), Q(0)];
    }
    if args.opts.headerVersion == 1 {
      fields := fields + [I(BootImage.BOOT_IMAGE_HEADER_V1_SIZE)];
    } else {
      fields := fields + [I(BootImage.BOOT_IMAGE_HEADER_V2_SIZE)];
    }
    assert fields == BootImage.DtboFields(args.opts, args.Files());
    s := WriteFields(args.output, fields);
  }

  // The dtb statements of version 2.
  method WriteDtbFields(args: Args) returns (s: Status)
    requires args.output != null
    modifies args.output
    ensures s.Ok? == (AllPackable(BootImage.DtbFields(args.opts, args.Files())) && Filesize(args.dtb) > 0)
    ensures s.Ok? ==>
              args.output.data == old(args.output.data) + Serialize(BootImage.DtbFields(args.opts, args.Files()))
    ensures s.Raised? ==> old(args.output.data) <= args.output.data
  {
    if Filesize(args.dtb) == 0 {
      return Raised(ValueError);
    }
    var fields := [I(Filesize(args.dtb)), Q(args.opts.base + args.opts.dtbOffset)];
    assert fields == BootImage.DtbFields(args.opts, args.Files());
    s := WriteFields(args.output, fields);
  }

  // The members of each version after the extra command line.
  lemma LegacyTailInRuns(o: Options, p: Payload, before: bytes)
    requires o.pagesize > 0 && o.headerVersion <= 2
    ensures var a, b, tail := BootImage.DtboFields(o, p), BootImage.DtbFields(o, p), BootImage.LegacyTail(o, p); (
            && (AllPackable(tail) <==> && (o.headerVersion >= 1 ==> AllPackable(a))
                                       && (o.headerVersion == 2 ==> AllPackable(b)))
            && before + Serialize(tail)
               == if o.headerVersion <= 0 then before
                  else if o.headerVersion == 1 then before + Serialize(a)
                  else before + Serialize(a) + Serialize(b))
  {
    var a := if o.headerVersion > 0 then BootImage.DtboFields(o, p) else [];
    var b := if o.headerVersion > 1 then BootImage.DtbFields(o, p) else [];
    AllPackableConcat(a, b);
    SerializeConcat(a, b);
    AppendAssoc(before, Serialize(a), Serialize(b));
    assert before + [] == before;
    assert Serialize([]) == [];
  }

  // The statements after the extra command line.
  method WriteLegacyTail(args: Args) returns (s: Status)
    requires args.output != null && args.opts.pagesize > 0 && args.opts.headerVersion <= 2
    modifies args.output
    ensures s.Ok? <==> && AllPackable(BootImage.LegacyTail(args.opts, args.Files()))
                       && (args.opts.headerVersion == 2 ==> Filesize(args.dtb) > 0)
    ensures s.Ok? ==>
              args.output.data == old(args.output.data) + Serialize(BootImage.LegacyTail(args.opts, args.Files()))
    ensures s.Raised? ==> old(args.output.data) <= args.output.data
  {
    LegacyTailInRuns(args.opts, args.Files(), args.output.data);
    s := Ok;
    if args.opts.headerVersion > 0 {
      s := WriteDtboFields(args);
      if s.Raised? {
        return;
      }
    }
    if args.opts.headerVersion > 1 {
      s := WriteDtbFields(args);
    }
  }

  // Everything written for a version 0 to 2 header, in terms of its three runs of statements.
  lemma LegacyHeaderInRuns(o: Options, p: Payload, id: bytes)
    requires o.pagesize > 0
    ensures var middle := [S(32, id), S(BootImage.BOOT_EXTRA_ARGS_SIZE, o.extraCmdline)];
            && BootImage.LegacyHeader(o, p, id) == BootImage.LegacyStart(o, p) + middle + BootImage.LegacyTail(o, p)
            && (AllPackable(BootImage.LegacyHeader(o, p, id))
                <==> AllPackable(BootImage.LegacyStart(o, p)) && AllPackable(BootImage.LegacyTail(o, p)))
            && Serialize(BootImage.LegacyHeader(o, p, id))
               == Serialize(BootImage.LegacyStart(o, p)) + Serialize(middle) + Serialize(BootImage.LegacyTail(o, p))
  {
    var a, b, c := BootImage.LegacyStart(o, p), [S(32, id), S(BootImage.BOOT_EXTRA_ARGS_SIZE, o.extraCmdline)],
                   BootImage.LegacyTail(o, p);
    AllPackableConcat(a + b, c);
    AllPackableConcat(a, b);
    SerializeConcat(a + b, c);
    SerializeConcat(a, b);
  }

  lemma AppendThree(before: bytes, a: bytes, b: bytes, c: bytes)
    ensures before + a + b + c == before + (a + b + c)
  {}

  lemma LegacyHeaderAppended(before: bytes, o: Options, p: Payload, id: bytes)
    requires o.pagesize > 0
    ensures before + Serialize(BootImage.LegacyStart(o, p))
                   + Serialize([S(32, id), S(BootImage.BOOT_EXTRA_ARGS_SIZE, o.extraCmdline)])
                   + Serialize(BootImage.LegacyTail(o, p))
         == before + Serialize(BootImage.LegacyHeader(o, p, id))
  {
    LegacyHeaderInRuns(o, p, id);
    AppendThree(before, Serialize(BootImage.LegacyStart(o, p)),
                Serialize([S(32, id), S(BootImage.BOOT_EXTRA_ARGS_SIZE, o.extraCmdline)]),
                Serialize(BootImage.LegacyTail(o, p)));
  }

  // The sizes that are hashed are header members, so a header that packs has hashable components.
  lemma HashableIfPackable(o: Options, p: Payload, id: bytes)
    requires o.pagesize > 0 && o.headerVersion <= 2
    ensures AllPackable(BootImage.LegacyHeader(o, p, id)) ==> AllHashable(Components(o.headerVersion, p))
  {
    LegacyHeaderInRuns(o, p, id);
    if AllPackable(BootImage.LegacyHeader(o, p, id)) {
      PackableIsHashable(o, p);
    }
  }

  lemma PackableIsHashable(o: Options, p: Payload)
    requires o.pagesize > 0 && o.headerVersion <= 2
    requires AllPackable(BootImage.LegacyStart(o, p)) && AllPackable(BootImage.LegacyTail(o, p))
    ensures AllHashable(Components(o.headerVersion, p))
  {
    var a := BootImage.LegacyStart(o, p);
    assert a[1] == I(FileSize(p.kernel)) && a[3] == I(FileSize(p.ramdisk)) && a[5] == I(FileSize(p.second));
    assert Packable(a[1]) && Packable(a[3]) && Packable(a[5]);
    var t := BootImage.LegacyTail(o, p);
    if o.headerVersion > 0 {
      assert t[0] == I(FileSize(p.recoveryDtbo)) && Packable(t[0]);
    }
    if o.headerVersion > 1 {
      assert t[3] == I(FileSize(p.dtb)) && Packable(t[3]);
    }
  }

  // cs lists what is hashed for these arguments.
  ghost predicate ComponentsOf(args: Args, cs: seq<bytes>) {
    && |cs| == (if args.opts.headerVersion <= 0 then 3 else if args.opts.headerVersion == 1 then 4 else 5)
    && cs[0] == Content(Given(args.kernel))
    && cs[1] == Content(Given(args.ramdisk))
    && cs[2] == Content(Given(args.second))
    && (args.opts.headerVersion > 0 ==> cs[3] == Content(Given(args.recoveryDtbo)))
    && (args.opts.headerVersion > 1 ==> cs[4] == Content(Given(args.dtb)))
  }

  lemma ComponentsListed(args: Args)
    ensures ComponentsOf(args, Components(args.opts.headerVersion, args.Files()))
  {}

  lemma ComponentsInRuns(args: Args, cs: seq<bytes>)
    requires ComponentsOf(args, cs)
    ensures cs == WithRest(args.opts.headerVersion, args.recoveryDtbo, args.dtb,
                           FirstComponents(args.kernel, args.ramdisk, args.second))
  {}

  lemma ComponentsHashableIff(args: Args, cs: seq<bytes>)
    requires ComponentsOf(args, cs)
    ensures AllHashable(cs)
       <==> && Hashable(args.kernel) && Hashable(args.ramdisk) && Hashable(args.second)
            && (args.opts.headerVersion > 0 ==> Hashable(args.recoveryDtbo))
            && (args.opts.headerVersion > 1 ==> Hashable(args.dtb))
  {
    if AllHashable(cs) {
      assert Packable(I(|cs[0]|)) && Packable(I(|cs[1]|)) && Packable(I(|cs[2]|));
      assert |cs| > 3 ==> Packable(I(|cs[3]|));
      assert |cs| > 4 ==> Packable(I(|cs[4]|));
    }
  }

  // All components in order.
  method HashComponents(version: int, sha: ShaState, kernel: InFile?, ramdisk: InFile?, second: InFile?,
                        recoveryDtbo: InFile?, dtb: InFile?)
    returns (s: Status)
    requires AtStart(kernel) && AtStart(ramdisk) && AtStart(second) && AtStart(recoveryDtbo) && AtStart(dtb)
    requires sha.fed == Preimage([])
    modifies sha, kernel, ramdisk, second, recoveryDtbo, dtb
    ensures forall g: InFile {:trigger g.pos} :: old(allocated(g)) ==> g.pos == old(g.pos)
    ensures s.Ok? <==> && Hashable(kernel) && Hashable(ramdisk) && Hashable(second)
                       && (version > 0 ==> Hashable(recoveryDtbo)) && (version > 1 ==> Hashable(dtb))
    ensures s.Ok? ==>
              sha.fed == Preimage(WithRest(version, recoveryDtbo, dtb, FirstComponents(kernel, ramdisk, second)))
  {
    s := HashFirst(sha, kernel, ramdisk, second, []);
    if s.Ok? {
      assert [] + FirstComponents(kernel, ramdisk, second) == FirstComponents(kernel, ramdisk, second);
      s := HashRest(version, sha, recoveryDtbo, dtb, FirstComponents(kernel, ramdisk, second));
    }
  }

  // The image id; every file is where it was before.
  method HashImage(args: Args, sha1: Sha1, ghost cs: seq<bytes>) returns (s: Status, imgId: bytes)
    requires args.Listed() && args.Rewound() && ComponentsOf(args, cs)
    modifies args.handles
    ensures forall g: InFile {:trigger g.pos} :: old(allocated(g)) ==> g.pos == old(g.pos)
    ensures s.Ok? <==> AllHashable(cs)
    ensures s.Ok? ==> imgId == Fit(32, sha1(Preimage(cs)))
  {
    imgId := [];
    var sha := new ShaState(sha1);
    ComponentsInRuns(args, cs);
    ComponentsHashableIff(args, cs);
    s := HashComponents(args.opts.headerVersion, sha, args.kernel, args.ramdisk, args.second, args.recoveryDtbo,
                        args.dtb);
    if s.Ok? {
      imgId := Fit(32, sha.Digest());
    }
  }

  // The statements after the hash: the id, the rest of the command line, and what later versions added.
  method WriteLegacyEnd(args: Args, imgId: bytes) returns (s: Status)
    requires args.output != null && args.opts.pagesize > 0 && args.opts.headerVersion <= 2
    modifies args.output
    ensures s.Ok? <==> && AllPackable(BootImage.LegacyTail(args.opts, args.Files()))
                       && (args.opts.headerVersion == 2 ==> Filesize(args.dtb) > 0)
    ensures s.Ok? ==>
              args.output.data
              == old(args.output.data)
                 + Serialize([S(32, imgId), S(BootImage.BOOT_EXTRA_ARGS_SIZE, args.opts.extraCmdline)])
                 + Serialize(BootImage.LegacyTail(args.opts, args.Files()))
  {
    s := WriteFields(args.output, [S(32, imgId), S(BootImage.BOOT_EXTRA_ARGS_SIZE, args.opts.extraCmdline)]);
    s := WriteLegacyTail(args);
  }

  // The statements of write_header for versions 0 to 2, in runs.
  method WriteLegacyRuns(args: Args, sha1: Sha1, ghost cs: seq<bytes>, ghost id: bytes)
    returns (s: Status, imgId: bytes)
    requires args.output != null && args.opts.pagesize > 0 && args.opts.headerVersion <= 2
    requires args.Listed() && args.Rewound()
    requires ComponentsOf(args, cs) && id == Fit(32, sha1(Preimage(cs)))
    modifies args.output, args.handles
    ensures forall g: InFile {:trigger g.pos} :: old(allocated(g)) ==> g.pos == old(g.pos)
    ensures s.Ok? <==> && AllPackable(BootImage.LegacyStart(args.opts, args.Files()))
                       && AllHashable(cs)
                       && AllPackable(BootImage.LegacyTail(args.opts, args.Files()))
                       && (args.opts.headerVersion == 2 ==> Filesize(args.dtb) > 0)
    ensures s.Ok? ==>
              && imgId == id
              && args.output.data
                 == old(args.output.data) + Serialize(BootImage.LegacyStart(args.opts, args.Files()))
                    + Serialize([S(32, id), S(BootImage.BOOT_EXTRA_ARGS_SIZE, args.opts.extraCmdline)])
                    + Serialize(BootImage.LegacyTail(args.opts, args.Files()))
  {
    imgId := [];
    s := WriteLegacyStart(args);
    if s.Raised? {
      return;
    }
    s, imgId := HashImage(args, sha1, cs);
    if s.Raised? {
      return;
    }
    s := WriteLegacyEnd(args, imgId);
  }

  // write_header for versions 0 to 2, and for the negative ones, which do not pack.
  method WriteLegacyHeader(args: Args, sha1: Sha1, ghost cs: seq<bytes>, ghost id: bytes)
    returns (s: Status, imgId: bytes)
    requires args.output != null && args.opts.pagesize > 0 && args.opts.headerVersion <= 2
    requires args.Listed() && args.Rewound()
    requires ComponentsOf(args, cs) && id == Fit(32, sha1(Preimage(cs)))
    requires AllPackable(BootImage.LegacyHeader(args.opts, args.Files(), id)) ==> AllHashable(cs)
    modifies args.output, args.handles
    ensures forall g: InFile {:trigger g.pos} :: old(allocated(g)) ==> g.pos == old(g.pos)
    ensures s.Ok? <==> && AllPackable(BootImage.LegacyHeader(args.opts, args.Files(), id))
                       && (args.opts.headerVersion == 2 ==> Filesize(args.dtb) > 0)
    ensures s.Ok? ==>
              && args.output.data
                 == Padded(old(args.output.data) + Serialize(BootImage.LegacyHeader(args.opts, args.Files(), id)),
                           args.opts.pagesize)
              && imgId == id
  {
    LegacyHeaderInRuns(args.opts, args.Files(), id);
    LegacyHeaderAppended(args.output.data, args.opts, args.Files(), id);
    s, imgId := WriteLegacyRuns(args, sha1, cs, id);
    if s.Ok? {
      PadFile(args.output, args.opts.pagesize);
    }
  }

  method WriteHeader(args: Args, sha1: Sha1) returns (s: Status, imgId: Option<bytes>)
    requires args.output != null && args.opts.pagesize > 0
    requires args.Listed() && (args.opts.headerVersion <= 2 ==> args.Rewound())
    modifies args.output, args.handles
    ensures forall g: InFile {:trigger g.pos} :: old(allocated(g)) ==> g.pos == old(g.pos)
    ensures var id := BootImage.ImageIdOf(sha1, args.opts, args.Files());
            && (s.Ok? == BootImage.HeaderWritable(args.opts, args.Files(), id))
            && (s.Ok? ==>
                  && args.output.data
                     == Padded(old(args.output.data) + Serialize(BootImage.Header(args.opts, args.Files(), id)),
                               BootImage.DataPage(args.opts))
                  && imgId == if args.opts.headerVersion > 2 then None else Some(id))
  {
    imgId := None;
    if args.opts.headerVersion > 4 {
      s := Raised(ValueError);
    } else if args.opts.headerVersion == 3 || args.opts.headerVersion == 4 {
      s := WriteHeaderV3AndAbove(args);
    } else {
      ghost var o, p := args.opts, args.Files();
      ghost var id := BootImage.ImageIdOf(sha1, o, p);
      ComponentsListed(args);
      HashableIfPackable(o, p, id);
      var digest;
      s, digest := WriteLegacyHeader(args, sha1, Components(o.headerVersion, p), id);
      imgId := Some(digest);
    }
  }

  // ---------- payload ----------

  // What the v4 signature section will hold, None where the source raises.
  function SignatureBytes(signing: Signing): Option<bytes> {
    if !signing.key || !signing.algorithm then Some(Zeros(BootImage.BOOT_IMAGE_V4_SIGNATURE_SIZE))
    else
      match signing.vbmeta
      case None => None
      case Some(b) => if |b| > BootImage.BOOT_IMAGE_V4_SIGNATURE_SIZE then None else Some(b)
  }

  // Without a key or an algorithm nothing is signed; otherwise the tool succeeds with at most 4096 bytes.
  predicate SigningFits(signing: Signing) {
    signing.key && signing.algorithm ==> signing.vbmeta.Some? && |signing.vbmeta.value| <= 4096
  }

  method AddBootImageSignature(args: Args, pagesize: nat) returns (s: Status)
    requires args.output != null && pagesize > 0
    modifies args.output
    ensures s.Ok? <==> SignatureBytes(args.signing).Some?
    ensures s.Ok? ==>
              args.output.data == Padded(old(args.output.data) + SignatureBytes(args.signing).value, pagesize)
    ensures s.Ok? <==> SigningFits(args.signing)
    ensures s.Ok? && !(args.signing.key && args.signing.algorithm) ==>
              args.output.data == Padded(old(args.output.data) + Zeros(4096), pagesize)
    ensures s.Ok? && args.signing.key && args.signing.algorithm ==>
              args.output.data == Padded(old(args.output.data) + args.signing.vbmeta.value, pagesize)
    ensures s.Raised? ==> args.output.data == old(args.output.data)
  {
    if !args.signing.key || !args.signing.algorithm {
      args.output.Write(Zeros(BootImage.BOOT_IMAGE_V4_SIGNATURE_SIZE));
      PadFile(args.output, pagesize);
      return Ok;
    }
    if args.signing.vbmeta == None {
      return Raised(ToolFailed);
    }
    var bootSignature := new InFile("boot_signature", args.signing.vbmeta.value, 7);
    if Filesize(bootSignature) > BootImage.BOOT_IMAGE_V4_SIGNATURE_SIZE {
      return Raised(ValueError);
    }
    WritePaddedFile(args.output, bootSignature, pagesize);
    return Ok;
  }

  // write_padded_file where the file is at its start and the output ends on a page.
  method WriteSection(out: OutFile, f: InFile?, page: nat, ghost parts: seq<bytes>)
    requires PowerOfTwo(page) && out.data == Image(parts, page) && AtStart(f)
    modifies out, f
    ensures out.data == Image(parts + [Content(Given(f))], page)
  {
    SectionWritten(parts, out.data, Given(f), page);
    WritePaddedFile(out, f, page);
  }

  // The sections of every version.
  method WriteFirstSections(args: Args, page: nat, ghost parts: seq<bytes>)
    requires args.output != null && args.SeparateHandles()
    requires PowerOfTwo(page) && args.output.data == Image(parts, page)
    requires AtStart(args.kernel) && AtStart(args.ramdisk) && AtStart(args.second)
    modifies args.output, args.kernel, args.ramdisk, args.second
    ensures args.recoveryDtbo != null ==> args.recoveryDtbo.pos == old(args.recoveryDtbo.pos)
    ensures args.dtb != null ==> args.dtb.pos == old(args.dtb.pos)
    ensures args.output.data == Image(parts + FirstComponents(args.kernel, args.ramdisk, args.second), page)
  {
    ghost var k, r, s := Content(Given(args.kernel)), Content(Given(args.ramdisk)), Content(Given(args.second));
    WriteSection(args.output, args.kernel, page, parts);
    WriteSection(args.output, args.ramdisk, page, parts + [k]);
    WriteSection(args.output, args.second, page, parts + [k] + [r]);
    ThreeParts(parts, k, r, s);
  }

  lemma ThreeParts(parts: seq<bytes>, a: bytes, b: bytes, c: bytes)
    ensures parts + [a] + [b] + [c] == parts + [a, b, c]
  {}

  // The sections only versions 1 and 2 have.
  method WriteDtboSections(args: Args, page: nat, ghost parts: seq<bytes>)
    requires args.output != null && args.SeparateHandles()
    requires PowerOfTwo(page) && args.output.data == Image(parts, page)
    requires args.opts.headerVersion < 3 ==> AtStart(args.recoveryDtbo) && AtStart(args.dtb)
    modifies args.output, args.recoveryDtbo, args.dtb
    ensures args.output.data == Image(parts + DtboSections(args), page)
  {
    DtboSectionsAppended(args, parts);
    ghost var before := parts;
    if args.opts.headerVersion > 0 && args.opts.headerVersion < 3 {
      WriteSection(args.output, args.recoveryDtbo, page, parts);
      before := parts + [Content(Given(args.recoveryDtbo))];
    }
    if args.opts.headerVersion == 2 {
      WriteSection(args.output, args.dtb, page, before);
    }
  }

  function DtboSections(args: Args): seq<bytes> {
    (if 0 < args.opts.headerVersion < 3 then [Content(Given(args.recoveryDtbo))] else [])
    + (if args.opts.headerVersion == 2 then [Content(Given(args.dtb))] else [])
  }

  lemma DtboSectionsAppended(args: Args, parts: seq<bytes>)
    ensures parts + DtboSections(args)
         == var d, t := Content(Given(args.recoveryDtbo)), Content(Given(args.dtb));
            if args.opts.headerVersion == 2 then parts + [d] + [t]
            else if args.opts.headerVersion == 1 then parts + [d]
            else parts
  {}

  method WriteData(args: Args, page: nat, ghost parts: seq<bytes>) returns (s: Status)
    requires args.output != null && args.SeparateHandles() && args.Listed()
    requires AtStart(args.kernel) && AtStart(args.ramdisk) && AtStart(args.second)
    requires args.opts.headerVersion < 3 ==> AtStart(args.recoveryDtbo) && AtStart(args.dtb)
    requires PowerOfTwo(page) && args.output.data == Image(parts, page)
    modifies args.output, args.handles
    ensures s.Ok? <==> (args.opts.headerVersion >= 4 ==> SignatureBytes(args.signing).Some?)
    ensures s.Ok? ==>
              args.output.data
              == Image(parts + BootImage.DataParts(args.opts, args.Files(), Content(SignatureBytes(args.signing))),
                       page)
  {
    DataPartsInRuns(args, parts);
    WriteFirstSections(args, page, parts);
    WriteDtboSections(args, page, parts + FirstComponents(args.kernel, args.ramdisk, args.second));
    ghost var before := parts + FirstComponents(args.kernel, args.ramdisk, args.second) + DtboSections(args);
    assert before + [] == before;
    s := Ok;
    if args.opts.headerVersion >= 4 {
      s := AddBootImageSignature(args, page);
      if s.Ok? {
        PadAppended(before, SignatureBytes(args.signing).value, page);
      }
    }
  }

  lemma DataPartsInRuns(args: Args, parts: seq<bytes>)
    ensures parts + BootImage.DataParts(args.opts, args.Files(), Content(SignatureBytes(args.signing)))
         == parts + FirstComponents(args.kernel, args.ramdisk, args.second) + DtboSections(args)
            + (if args.opts.headerVersion >= 4 then [Content(SignatureBytes(args.signing))] else [])
  {}

  // ---------- vendor boot ----------

  // The table that was built while parsing; an empty one where none is needed.
  function TableOf(args: Args): Table
    reads args.builder
  {
    if args.builder == null then EMPTY_TABLE else args.builder.Model()
  }

  // The header statements of both versions.
  method WriteVendorBaseFields(args: Args, ghost t: Table) returns (s: Status)
    requires args.vendorBoot != null && t == TableOf(args)
    requires args.opts.headerVersion > 3 ==> args.builder != null
    modifies args.vendorBoot
    ensures s.Ok? == AllPackable(VendorImage.BaseFields(args.opts, args.Files(), t))
    ensures s.Ok? ==>
              args.vendorBoot.data
              == old(args.vendorBoot.data) + Serialize(VendorImage.BaseFields(args.opts, args.Files(), t))
  {
    var o := args.opts;
    var vendorRamdiskSize: nat;
    var vendorBootHeaderSize: nat;
    if o.headerVersion > 3 {
      vendorRamdiskSize := args.builder.ramdiskTotalSize;
      vendorBootHeaderSize := VendorImage.VENDOR_BOOT_IMAGE_HEADER_V4_SIZE;
    } else {
      vendorRamdiskSize := Filesize(args.vendorRamdisk);
      vendorBootHeaderSize := VendorImage.VENDOR_BOOT_IMAGE_HEADER_V3_SIZE;
    }
    var fields := [
      S(VendorImage.VENDOR_BOOT_MAGIC_SIZE, VendorImage.VENDOR_BOOT_MAGIC),
      I(o.headerVersion),
      I(o.pagesize),
      I(o.base + o.kernelOffset),
      I(o.base + o.ramdiskOffset),
      I(vendorRamdiskSize),
      S(VendorImage.VENDOR_BOOT_ARGS_SIZE, o.vendorCmdline),
      I(o.base + o.tagsOffset),
      S(VendorImage.VENDOR_BOOT_NAME_SIZE, o.board),
      I(vendorBootHeaderSize),
      I(Filesize(args.dtb)),
      Q(o.base + o.dtbOffset)];
    assert fields == VendorImage.BaseFields(o, args.Files(), t);
    s := WriteFields(args.vendorBoot, fields);
  }

  // The header statements of version 4.
  method WriteVendorTableFields(args: Args, ghost t: Table) returns (s: Status)
    requires args.vendorBoot != null && args.builder != null && t == args.builder.Model()
    modifies args.vendorBoot
    ensures s.Ok? == AllPackable(VendorImage.TableFields(args.Files(), t))
    ensures s.Ok? ==>
              args.vendorBoot.data == old(args.vendorBoot.data) + Serialize(VendorImage.TableFields(args.Files(), t))
  {
    var entryNum := |args.builder.entries|;
    var fields := [I(entryNum * VENDOR_RAMDISK_TABLE_ENTRY_V4_SIZE), I(entryNum),
                   I(VENDOR_RAMDISK_TABLE_ENTRY_V4_SIZE), I(Filesize(args.vendorBootconfig))];
    assert fields == VendorImage.TableFields(args.Files(), t);
    s := WriteFields(args.vendorBoot, fields);
  }

  lemma VendorHeaderInRuns(o: Options, p: Payload, t: Table, before: bytes)
    ensures var a, b, header := VendorImage.BaseFields(o, p, t), VendorImage.TableFields(p, t),
                                VendorImage.Header(o, p, t); (
            && (AllPackable(header) <==> AllPackable(a) && (o.headerVersion > 3 ==> AllPackable(b)))
            && before + Serialize(header)
               == if o.headerVersion > 3 then before + Serialize(a) + Serialize(b) else before + Serialize(a))
  {
    var a := VendorImage.BaseFields(o, p, t);
    var b := if o.headerVersion > 3 then VendorImage.TableFields(p, t) else [];
    AllPackableConcat(a, b);
    SerializeConcat(a, b);
    AppendAssoc(before, Serialize(a), Serialize(b));
    assert Serialize([]) == [];
    assert before + Serialize(a) + [] == before + Serialize(a);
  }

  method WriteVendorBootHeader(args: Args, ghost t: Table) returns (s: Status)
    requires args.vendorBoot != null && args.opts.pagesize > 0 && t == TableOf(args)
    requires args.opts.headerVersion > 3 ==> args.builder != null
    modifies args.vendorBoot
    ensures s.Ok? <==> Filesize(args.dtb) > 0 && AllPackable(VendorImage.Header(args.opts, args.Files(), t))
    ensures s.Ok? ==>
              args.vendorBoot.data
              == Padded(old(args.vendorBoot.data) + Serialize(VendorImage.Header(args.opts, args.Files(), t)),
                        args.opts.pagesize)
  {
    if Filesize(args.dtb) == 0 {
      return Raised(ValueError);
    }
    VendorHeaderInRuns(args.opts, args.Files(), t, args.vendorBoot.data);
    s := WriteVendorBaseFields(args, t);
    if s.Ok? && args.opts.headerVersion > 3 {
      s := WriteVendorTableFields(args, t);
    }
    if s.Ok? {
      PadFile(args.vendorBoot, args.opts.pagesize);
    }
  }

  // The last two sections of version 4: the table and the bootconfig.
  method WriteTableSections(args: Args, ghost parts: seq<bytes>) returns (s: Status)
    requires args.vendorBoot != null && args.builder != null && AtStart(args.vendorBootconfig)
    requires forall i :: 0 <= i < |args.builder.entries| ==> BoardIdOk(args.builder.entries[i].boardId)
    requires PowerOfTwo(args.opts.pagesize) && args.vendorBoot.data == Image(parts, args.opts.pagesize)
    modifies args.vendorBoot, args.vendorBootconfig
    ensures s.Ok? <==> VendorImage.EntriesPackable(args.builder.entries)
    ensures s.Ok? ==>
              args.vendorBoot.data
              == Image(parts + [TableBytes(args.builder.entries)] + [Content(Given(args.vendorBootconfig))],
                       args.opts.pagesize)
  {
    ghost var t := TableBytes(args.builder.entries);
    PadAppended(parts, t, args.opts.pagesize);
    s := args.builder.WriteEntriesPadded(args.vendorBoot, args.opts.pagesize);
    if s.Ok? {
      WriteSection(args.vendorBoot, args.vendorBootconfig, args.opts.pagesize, parts + [t]);
    }
  }

  // The vendor boot sections of version 4.
  method WriteVendorBootDataV4(args: Args, fs: FileSystem, ghost parts: seq<bytes>) returns (s: Status)
    requires args.vendorBoot != null && args.builder != null && TableInv(fs, args.builder.Model())
    requires PowerOfTwo(args.opts.pagesize) && args.vendorBoot.data == Image(parts, args.opts.pagesize)
    requires args.SeparateHandles() && AtStart(args.dtb) && AtStart(args.vendorBootconfig)
    modifies args.vendorBoot, args.dtb, args.vendorBootconfig
    ensures s.Ok? <==> VendorImage.EntriesPackable(args.builder.entries)
    ensures s.Ok? ==>
              args.vendorBoot.data
              == Image(parts + [Ramdisks(fs, args.builder.entries), Content(Given(args.dtb)),
                                TableBytes(args.builder.entries), Content(Given(args.vendorBootconfig))],
                       args.opts.pagesize)
  {
    var out, builder, page := args.vendorBoot, args.builder, args.opts.pagesize;
    ghost var r, d, t, c := Ramdisks(fs, builder.entries), Content(Given(args.dtb)),
                            TableBytes(builder.entries), Content(Given(args.vendorBootconfig));
    EntriesReadable(fs, builder.Model());
    s := builder.WriteRamdisksPadded(fs, out, page);
    PadAppended(parts, r, page);
    WriteSection(out, args.dtb, page, parts + [r]);
    s := WriteTableSections(args, parts + [r] + [d]);
    FourParts(parts, r, d, t, c);
  }

  lemma FourParts(parts: seq<bytes>, r: bytes, d: bytes, t: bytes, c: bytes)
    ensures parts + [r] + [d] + [t] + [c] == parts + [r, d, t, c]
  {}

  lemma EntriesReadable(fs: FileSystem, t: Table)
    requires TableInv(fs, t)
    ensures forall i :: 0 <= i < |t.entries| ==> t.entries[i].path in fs && BoardIdOk(t.entries[i].boardId)
  {
    forall i | 0 <= i < |t.entries|
      ensures t.entries[i].path in fs && BoardIdOk(t.entries[i].boardId)
    {
      LaidOutPrefix(fs, t.entries, i);
    }
  }

  method WriteVendorBootData(args: Args, fs: FileSystem, ghost parts: seq<bytes>) returns (s: Status)
    requires args.vendorBoot != null && args.SeparateHandles() && args.Listed() && args.Rewound()
    requires args.opts.headerVersion > 3 ==> args.builder != null && TableInv(fs, args.builder.Model())
    requires PowerOfTwo(args.opts.pagesize) && args.vendorBoot.data == Image(parts, args.opts.pagesize)
    modifies args.vendorBoot, args.vendorRamdisk, args.dtb, args.vendorBootconfig
    ensures s.Ok? <==> (args.opts.headerVersion > 3 ==> VendorImage.EntriesPackable(TableOf(args).entries))
    ensures s.Ok? ==>
              args.vendorBoot.data
              == Image(parts + VendorImage.DataParts(fs, args.opts, args.Files(), TableOf(args)), args.opts.pagesize)
  {
    if args.opts.headerVersion > 3 {
      s := WriteVendorBootDataV4(args, fs, parts);
    } else {
      var out, page := args.vendorBoot, args.opts.pagesize;
      ghost var r, d := Content(Given(args.vendorRamdisk)), Content(Given(args.dtb));
      WriteSection(out, args.vendorRamdisk, page, parts);
      WriteSection(out, args.dtb, page, parts + [r]);
      TwoParts(parts, r, d);
      s := Ok;
    }
  }

  lemma TwoParts(parts: seq<bytes>, a: bytes, b: bytes)
    ensures parts + [a] + [b] == parts + [a, b]
  {}

  // ---------- main ----------

  // What parsing leaves behind: options in range, separate handles at their start, empty outputs, and for a
  // version 4 vendor boot image a table made by add_entry calls.
  ghost predicate Ready(args: Args, fs: FileSystem)
    reads args.handles, args.output, args.vendorBoot, args.builder
  {
    && Parsed(args.opts) && args.Listed() && args.SeparateHandles() && args.Rewound()
    && (args.output != null ==> args.output.data == [])
    && (args.vendorBoot != null ==> args.vendorBoot.data == [] && args.vendorBoot != args.output)
    && (args.vendorBoot != null && args.opts.headerVersion > 3 ==>
          args.builder != null && TableInv(fs, args.builder.Model()))
  }

  // Exactly when the vendor boot half of main raises nothing.
  predicate VendorCompletes(o: Options, p: Payload, t: Table) {
    && 3 <= o.headerVersion <= 4
    && (o.headerVersion == 3 ==> p.vendorRamdisk.Some?)
    && VendorImage.Writable(o, p, t)
  }

  // Exactly when the boot half of main raises nothing.
  predicate BootCompletes(o: Options, p: Payload, signing: Signing, sha1: Sha1)
    requires o.pagesize > 0
  {
    && (o.headerVersion > 2 ==> p.second.None?)
    && BootImage.HeaderWritable(o, p, BootImage.ImageIdOf(sha1, o, p))
    && (o.headerVersion >= 4 ==> SignatureBytes(signing).Some?)
  }

  method WriteVendorImage(args: Args, fs: FileSystem, ghost t: Table) returns (s: Status)
    requires args.vendorBoot != null && Ready(args, fs) && t == TableOf(args)
    modifies args.vendorBoot, args.vendorRamdisk, args.dtb, args.vendorBootconfig
    ensures s.Ok? <==> VendorCompletes(args.opts, args.Files(), t)
    ensures s.Ok? ==> args.vendorBoot.data == VendorImage.ImageBytes(fs, args.opts, args.Files(), t)
  {
    ghost var header := Serialize(VendorImage.Header(args.opts, args.Files(), t));
    var v := args.opts.headerVersion;
    if v != 3 && v != 4 {
      return Raised(ValueError);
    }
    if v == 3 && args.vendorRamdisk == null {
      return Raised(ValueError);
    }
    PageChoiceIsPowerOfTwo(args.opts.pagesize);
    s := WriteVendorBootHeader(args, t);
    if s.Raised? {
      return;
    }
    FirstSection(header, args.opts.pagesize);
    s := WriteVendorBootData(args, fs, [header]);
  }

  lemma FirstSection(header: bytes, page: nat)
    requires PowerOfTwo(page)
    ensures Padded([] + header, page) == Image([header], page)
  {
    PadAppended([], header, page);
    assert Image([], page) == [];
    assert [] + [header] == [header];
  }

  method WriteBootImage(args: Args, sha1: Sha1) returns (s: Status, imgId: Option<bytes>)
    requires args.output != null && args.output.data == []
    requires Parsed(args.opts) && args.Listed() && args.SeparateHandles()
    requires AtStart(args.kernel) && AtStart(args.ramdisk) && AtStart(args.second)
    requires args.opts.headerVersion <= 2 ==> args.Rewound()
    modifies args.output, args.handles
    ensures s.Ok? <==> BootCompletes(args.opts, args.Files(), args.signing, sha1)
    ensures var id := BootImage.ImageIdOf(sha1, args.opts, args.Files());
            s.Ok? ==>
              && args.output.data
                 == BootImage.ImageBytes(args.opts, args.Files(), id, Content(SignatureBytes(args.signing)))
              && imgId == if args.opts.headerVersion > 2 then None else Some(id)
  {
    ghost var id := BootImage.ImageIdOf(sha1, args.opts, args.Files());
    ghost var header := Serialize(BootImage.Header(args.opts, args.Files(), id));
    var page := BootImage.DataPage(args.opts);
    imgId := None;
    if args.second != null && args.opts.headerVersion > 2 {
      s := Raised(ValueError);
      return;
    }
    PageChoiceIsPowerOfTwo(page);
    s, imgId := WriteHeader(args, sha1);
    if s.Raised? {
      return;
    }
    FirstSection(header, page);
    s := WriteData(args, page, [header]);
  }

  // Read back from the image, the arguments are what was given. The exception is a version 4 image whose signing
  // tool wrote nothing: its header promises a signature that is not there.
  predicate BootImageReads(data: bytes, o: Options, p: Payload, signing: Signing, id: bytes) {
    var signature := Content(SignatureBytes(signing));
    0 <= o.headerVersion <= 4 &&
    BootImage.Read(data)
    == if o.headerVersion == 4 && signature == [] then None
       else Some(BootImage.Intended(o, p, id, BootRoundTrip.SignatureSection(o.headerVersion, signature)))
  }

  predicate VendorImageReads(data: bytes, fs: FileSystem, o: Options, p: Payload, t: Table) {
    VendorImage.Read(data) == Some(VendorImage.Intended(fs, o, p, t))
  }

  lemma BootReadsBack(o: Options, p: Payload, signing: Signing, sha1: Sha1)
    requires Parsed(o) && BootCompletes(o, p, signing, sha1)
    ensures var id := BootImage.ImageIdOf(sha1, o, p);
            BootImageReads(BootImage.ImageBytes(o, p, id, Content(SignatureBytes(signing))), o, p, signing, id)
  {
    var id := BootImage.ImageIdOf(sha1, o, p);
    BootRoundTrip.WritableVersion(o, p, id);
    BootRoundTrip.RoundTrip(o, p, id, Content(SignatureBytes(signing)));
  }

  // What a reader finds in the signature section of a version 4 image: what the tool wrote, filled up with NULs, or
  // zeros where nothing is signed. Signing makes the run fail exactly when the tool fails or writes too much.
  lemma SignatureReadsBack(o: Options, p: Payload, signing: Signing, sha1: Sha1)
    requires Parsed(o) && o.headerVersion == 4 && BootCompletes(o, p, signing, sha1)
    ensures SigningFits(signing)
    ensures var image := BootImage.ImageBytes(o, p, BootImage.ImageIdOf(sha1, o, p), Content(SignatureBytes(signing)));
            && (!(signing.key && signing.algorithm) ==>
                  BootImage.Read(image).Some? && BootImage.Read(image).value.signature == Zeros(4096))
            && (signing.key && signing.algorithm && signing.vbmeta.value != [] ==>
                  && BootImage.Read(image).Some?
                  && BootImage.Read(image).value.signature
                     == signing.vbmeta.value + Zeros(4096 - |signing.vbmeta.value|))
  {
    var id := BootImage.ImageIdOf(sha1, o, p);
    BootReadsBack(o, p, signing, sha1);
    FitFills(4096, Content(SignatureBytes(signing)));
    IntendedSignature(o, p, id, BootRoundTrip.SignatureSection(4, Content(SignatureBytes(signing))));
  }

  lemma IntendedSignature(o: Options, p: Payload, id: bytes, signature: bytes)
    requires o.headerVersion > 2
    ensures BootImage.Intended(o, p, id, signature).signature == signature
  {}

  lemma FitFills(size: nat, s: bytes)
    requires |s| <= size
    ensures Fit(size, s) == s + Zeros(size - |s|)
  {}

  // Apart from the signature, a version 4 image completes under the conditions of an unsigned one.
  lemma SigningFailsIff(o: Options, p: Payload, signing: Signing, sha1: Sha1)
    requires Parsed(o) && o.headerVersion == 4
    ensures BootCompletes(o, p, signing, sha1)
       <==> BootCompletes(o, p, Signing(false, false, None), sha1) && SigningFits(signing)
  {}

  // Of the boot images the tool completes, no reader accepts exactly those whose signing tool succeeded with an
  // empty file.
  lemma UnreadableIffEmptySignature(o: Options, p: Payload, signing: Signing, sha1: Sha1)
    requires Parsed(o) && BootCompletes(o, p, signing, sha1)
    ensures BootImage.Read(BootImage.ImageBytes(o, p, BootImage.ImageIdOf(sha1, o, p),
                                                Content(SignatureBytes(signing))))
            == None
       <==> o.headerVersion == 4 && signing.key && signing.algorithm && signing.vbmeta == Some([])
  {
    BootReadsBack(o, p, signing, sha1);
  }

  const EMPTY_SIGNATURE: Signing := Signing(true, true, Some([]))

  // A one-byte kernel and ramdisk in a version 4 image, signed by a tool that writes nothing.
  lemma EmptySignatureIsUnreadable(o: Options, sha1: Sha1)
    requires o == Options(4, 2048, 0, 0, 0, 0, 0, 0, 0, 0, [0], [0], [], [0])
    ensures var p := Payload(Some([1]), Some([2]), None, None, None, None, None);
            var id := BootImage.ImageIdOf(sha1, o, p);
            && BootCompletes(o, p, EMPTY_SIGNATURE, sha1)
            && BootImage.Read(BootImage.ImageBytes(o, p, id, Content(SignatureBytes(EMPTY_SIGNATURE)))) == None
  {
    var p := Payload(Some([1]), Some([2]), None, None, None, None, None);
    BootRoundTrip.V3WritableIff(o, p, BootImage.ImageIdOf(sha1, o, p));
    UnreadableIffEmptySignature(o, p, EMPTY_SIGNATURE, sha1);
  }

  // The vendor boot half of main, which leaves the boot image's files at their start.
  method RunVendor(args: Args, fs: FileSystem, ghost t: Table) returns (s: Status)
    requires Ready(args, fs) && t == TableOf(args)
    modifies args.vendorBoot, args.vendorRamdisk, args.dtb, args.vendorBootconfig
    ensures s.Ok? <==> (args.vendorBoot != null ==> VendorCompletes(args.opts, args.Files(), t))
    ensures s.Ok? && args.vendorBoot != null ==> VendorImageReads(args.vendorBoot.data, fs, args.opts, args.Files(), t)
    ensures s.Ok? && args.vendorBoot != null ==>
              args.vendorBoot.data == VendorImage.ImageBytes(fs, args.opts, args.Files(), t)
    ensures AtStart(args.kernel) && AtStart(args.ramdisk) && AtStart(args.second)
    ensures s.Ok? && args.opts.headerVersion <= 2 ==> args.Rewound()
    ensures args.output != null ==> args.output.data == old(args.output.data)
  {
    s := Ok;
    if args.vendorBoot != null {
      s := WriteVendorImage(args, fs, t);
      if s.Ok? {
        VendorRoundTrip.RoundTrip(fs, args.opts, args.Files(), t);
      }
    }
  }

  // The boot half of main. printed is the id, where one was asked for and there is one.
  method RunBoot(args: Args, sha1: Sha1) returns (s: Status, printed: Option<bytes>)
    requires args.output != null ==> args.output.data == []
    requires Parsed(args.opts) && args.Listed() && args.SeparateHandles()
    requires AtStart(args.kernel) && AtStart(args.ramdisk) && AtStart(args.second)
    requires args.opts.headerVersion <= 2 ==> args.Rewound()
    modifies args.output, args.handles
    ensures args.vendorBoot != null && args.vendorBoot != args.output ==>
              args.vendorBoot.data == old(args.vendorBoot.data)
    ensures s.Ok? <==> (args.output != null ==> BootCompletes(args.opts, args.Files(), args.signing, sha1))
    ensures s.Ok? && args.output != null ==>
              BootImageReads(args.output.data, args.opts, args.Files(), args.signing,
                             BootImage.ImageIdOf(sha1, args.opts, args.Files()))
    ensures s.Ok? && args.output != null ==>
              args.output.data
              == BootImage.ImageBytes(args.opts, args.Files(), BootImage.ImageIdOf(sha1, args.opts, args.Files()),
                                      Content(SignatureBytes(args.signing)))
    ensures s.Ok? ==>
              printed == if args.output != null && args.printId && args.opts.headerVersion <= 2
                         then Some(BootImage.ImageIdOf(sha1, args.opts, args.Files())) else None
  {
    printed := None;
    s := Ok;
    if args.output != null {
      var imgId;
      s, imgId := WriteBootImage(args, sha1);
      if s.Ok? {
        BootReadsBack(args.opts, args.Files(), args.signing, sha1);
        if args.printId && imgId.Some? {
          printed := imgId;
        }
      }
    }
  }

  // The whole writing half. A run that completes leaves images from which the header-driven readers recover
  // everything the arguments gave, whichever outputs were asked for; it completes exactly when the arguments fit.
  method Run(args: Args, fs: FileSystem, sha1: Sha1, ghost t: Table) returns (s: Status, printed: Option<bytes>)
    requires Ready(args, fs) && t == TableOf(args)
    modifies args.output, args.vendorBoot, args.handles
    ensures s.Ok? <==> && (args.vendorBoot != null ==> VendorCompletes(args.opts, args.Files(), t))
                       && (args.output != null ==> BootCompletes(args.opts, args.Files(), args.signing, sha1))
    ensures s.Ok? && args.output != null ==>
              BootImageReads(args.output.data, args.opts, args.Files(), args.signing,
                             BootImage.ImageIdOf(sha1, args.opts, args.Files()))
    ensures s.Ok? && args.output != null ==>
              args.output.data
              == BootImage.ImageBytes(args.opts, args.Files(), BootImage.ImageIdOf(sha1, args.opts, args.Files()),
                                      Content(SignatureBytes(args.signing)))
    ensures s.Ok? && args.vendorBoot != null ==> VendorImageReads(args.vendorBoot.data, fs, args.opts, args.Files(), t)
    ensures s.Ok? && args.vendorBoot != null ==>
              args.vendorBoot.data == VendorImage.ImageBytes(fs, args.opts, args.Files(), t)
    ensures s.Ok? ==>
              printed == if args.output != null && args.printId && args.opts.headerVersion <= 2
                         then Some(BootImage.ImageIdOf(sha1, args.opts, args.Files())) else None
  {
    s := RunVendor(args, fs, t);
    if s.Raised? {
      return s, None;
    }
    s, printed := RunBoot(args, sha1);
  }
}
