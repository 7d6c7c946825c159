/** Open files, and the two helpers that append padded data to an output file. */
module Files {
  import opened Outcomes
  import opened Bytes
  import opened Struct
  import opened Paging
  import opened Inputs
  import opened ImageId

  // An output opened for writing: its position is always its length.
  class OutFile {
    var data: bytes

    constructor ()
      ensures data == []
    {
      data := [];
    }

    method Write(b: bytes)
      modifies this
      ensures data == old(data) + b
    {
      data := data + b;
    }
  }

  // An input opened for reading, for one command line option: argparse opens each option's file separately.
  class InFile {
    ghost const option: nat
    const name: string
    const contents: bytes
    var pos: nat

    constructor (name: string, contents: bytes, ghost option: nat)
      ensures this.name == name && this.contents == contents && this.option == option && pos == 0
    {
      this.name := name;
      this.contents := contents;
      this.option := option;
      pos := 0;
    }

    function Unread(): bytes
      reads this
    {
      if pos <= |contents| then contents[pos..] else []
    }

    method Read() returns (b: bytes)
      modifies this
      ensures b == old(Unread())
      ensures Unread() == []
    {
      b := Unread();
      pos := if pos <= |contents| then |contents| else pos;
    }

    method Rewind()
      modifies this
      ensures pos == 0
    {
      pos := 0;
    }
  }

  // What a handle gives the writer; None for an option that was not used.
  function Given(f: InFile?): Option<bytes> {
    if f == null then None else Some(f.contents)
  }

  predicate AtStart(f: InFile?)
    reads f
  {
    f != null ==> f.pos == 0
  }

  // A hash object under construction.
  class ShaState {
    const sha1: Sha1
    var fed: bytes

    constructor (sha1: Sha1)
      ensures this.sha1 == sha1 && fed == []
    {
      this.sha1 := sha1;
      fed := [];
    }

    method Update(b: bytes)
      modifies this
      ensures fed == old(fed) + b
    {
      fed := fed + b;
    }

    function Digest(): bytes
      reads this
    {
      sha1(fed)
    }
  }

  // Feeds the unread rest of the file and its size, and leaves the file at its start again.
  method UpdateSha(sha: ShaState, f: InFile?) returns (s: Status)
    modifies sha, f
    ensures s.Ok? <==> Packable(I(FileSize(Given(f))))
    ensures s.Ok? && old(AtStart(f)) ==> sha.fed == old(sha.fed) + Record(Content(Given(f)))
    ensures AtStart(f)
  {
    if f != null {
      var b := f.Read();
      sha.Update(b);
      f.Rewind();
      if !Packable(I(|f.contents|)) {
        return Raised(StructError);
      }
      sha.Update(Encode(I(|f.contents|)));
      if old(f.pos) == 0 {
        AppendAssoc(old(sha.fed), f.contents, Encode(I(|f.contents|)));
      }
    } else {
      sha.Update(Encode(I(0)));
      assert Record([]) == Encode(I(0));
    }
    return Ok;
  }

  method PadFile(f: OutFile, padding: nat)
    requires padding > 0
    modifies f
    ensures f.data == Padded(old(f.data), padding)
  {
    var pad := BitAnd(padding - BitAnd(|f.data|, padding - 1), padding - 1);
    f.Write(Zeros(pad));
  }

  method WritePaddedFile(fOut: OutFile, fIn: InFile?, padding: nat)
    requires padding > 0
    modifies fOut, fIn
    ensures fOut.data == if fIn == null then old(fOut.data) else Padded(old(fOut.data) + old(fIn.Unread()), padding)
    ensures fIn != null ==> fIn.Unread() == []
  {
    if fIn == null {
      return;
    }
    var b := fIn.Read();
    fOut.Write(b);
    PadFile(fOut, padding);
  }

  // `output.write(pack(...))`
  method WriteField(out: OutFile, f: Field) returns (s: Status)
    modifies out
    ensures s.Ok? <==> Packable(f)
    ensures out.data == if s.Ok? then old(out.data) + Encode(f) else old(out.data)
  {
    if !Packable(f) {
      return Raised(StructError);
    }
    out.Write(Encode(f));
    return Ok;
  }

  // A run of such statements: one per field, in order, up to the first that does not pack.
  method WriteFields(out: OutFile, fs: seq<Field>) returns (s: Status)
    modifies out
    ensures s.Ok? <==> AllPackable(fs)
    ensures s.Ok? ==> out.data == old(out.data) + Serialize(fs)
    ensures s.Raised? ==> old(out.data) <= out.data
  {
    for i := 0 to |fs|
      invariant AllPackable(fs[..i])
      invariant out.data == old(out.data) + Serialize(fs[..i])
    {
      s := WriteField(out, fs[i]);
      if s.Raised? {
        assert !Packable(fs[i]);
        return;
      }
      SerializeNext(fs, i);
      AppendAssoc(old(out.data), Serialize(fs[..i]), Encode(fs[i]));
      AllPackableNext(fs, i);
    }
    assert fs[..|fs|] == fs;
    return Ok;
  }

  // A padded file written at its start becomes the next section of the image; an absent file an empty one.
  lemma SectionWritten(parts: seq<bytes>, before: bytes, f: Option<bytes>, page: nat)
    requires PowerOfTwo(page) && before == Image(parts, page)
    ensures (match f
             case None => before
             case Some(b) => Padded(before + b, page))
         == Image(parts + [Content(f)], page)
  {
    PadAppended(parts, Content(f), page);
    if f == None {
      EmptyPadded(page);
      ImageConcat(parts, [[]], page);
      assert Image([[]], page) == Padded([], page) + Image([], page);
    }
  }
}
