/** What a run of mkbootimg works on once its arguments are parsed. */
module Inputs {
  import opened Outcomes
  import opened Bytes
  import opened Paging

  // The numeric and string arguments; the strings carry their terminating NUL.
  datatype Options = Options(
    headerVersion: int,
    pagesize: nat,
    base: int,
    kernelOffset: int,
    ramdiskOffset: int,
    secondOffset: int,
    tagsOffset: int,
    dtbOffset: int,
    osVersion: nat,
    osPatchLevel: nat,
    board: bytes,
    cmdline: bytes,
    extraCmdline: bytes,
    vendorCmdline: bytes)

  // The contents of the input files, where they were given.
  datatype Payload = Payload(
    kernel: Option<bytes>,
    ramdisk: Option<bytes>,
    second: Option<bytes>,
    recoveryDtbo: Option<bytes>,
    dtb: Option<bytes>,
    vendorRamdisk: Option<bytes>,
    vendorBootconfig: Option<bytes>)

  // What the argument parsers guarantee.
  predicate Parsed(o: Options) {
    PageChoice(o.pagesize) && o.osVersion < 0x20_0000 && o.osPatchLevel < 0x800
  }

  function Content(f: Option<bytes>): bytes {
    match f
    case None => []
    case Some(b) => b
  }

  function FileSize(f: Option<bytes>): nat {
    |Content(f)|
  }

  // What an unsigned header member of four or eight bytes can hold.
  predicate Word32(n: int) {
    0 <= n < 0x1_0000_0000
  }

  predicate Word64(n: int) {
    0 <= n < 0x1_0000_0000_0000_0000
  }

  // A file system: it does not change while the script runs.
  type FileSystem = map<string, bytes>

  // The hash is an arbitrary function of the bytes it is fed.
  type Sha1 = bytes -> bytes
}
