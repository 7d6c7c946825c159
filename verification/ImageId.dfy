/** The byte stream that is hashed into the image id. */
module ImageId {
  import opened Outcomes
  import opened Bytes
  import opened Struct
  import opened Inputs

  // Each component is fed as its contents followed by its 4-byte size; an absent file as a zero size.
  function Preimage(components: seq<bytes>): bytes {
    if components == [] then []
    else Preimage(components[..|components| - 1]) + Record(components[|components| - 1])
  }

  function Record(c: bytes): bytes {
    c + Encode(I(|c|))
  }

  // The components that are hashed for a header version.
  function Components(version: int, p: Payload): seq<bytes> {
    [Content(p.kernel), Content(p.ramdisk), Content(p.second)]
    + (if version > 0 then [Content(p.recoveryDtbo)] else [])
    + (if version > 1 then [Content(p.dtb)] else [])
  }

  // Decodes a stream from its end: the last word says how many bytes before it belong to the last component.
  function DecodePreimage(stream: bytes): (r: Option<seq<bytes>>)
    decreases |stream|
  {
    if stream == [] then Some([])
    else if |stream| < 4 then None
    else
      var n := |stream| - 4;
      var size := Word(stream[n..]);
      if size > n then None
      else
        match DecodePreimage(stream[..n - size])
        case None => None
        case Some(front) => Some(front + [stream[n - size..n]])
  }

  predicate AllHashable(components: seq<bytes>) {
    forall i :: 0 <= i < |components| ==> Packable(I(|components[i]|))
  }

  lemma HashableParts(cs: seq<bytes>)
    requires cs != [] && AllHashable(cs)
    ensures AllHashable(cs[..|cs| - 1]) && Packable(I(|cs[|cs| - 1]|))
  {}

  lemma FrontAndLast(cs: seq<bytes>)
    requires cs != []
    ensures cs == cs[..|cs| - 1] + [cs[|cs| - 1]]
  {}

  // The stream alone determines how many components there were and what each contained.
  lemma {:induction false} PreimageDecodes(cs: seq<bytes>)
    requires AllHashable(cs)
    ensures DecodePreimage(Preimage(cs)) == Some(cs)
  {
    if cs != [] {
      var k := |cs| - 1;
      HashableParts(cs);
      FrontAndLast(cs);
      PreimageDecodes(cs[..k]);
      DecodeLast(Preimage(cs[..k]), cs[k]);
    }
  }

  // The last record of a stream.
  lemma LastRecord(front: bytes, c: bytes)
    requires Packable(I(|c|))
    ensures var stream, n := front + Record(c), |front| + |c|;
            |stream| == n + 4 && Word(stream[n..]) == |c| && stream[..|front|] == front && stream[|front|..n] == c
  {
    var stream, n := front + Record(c), |front| + |c|;
    assert Pow256(4) == 0x1_0000_0000;
    WordOfLE(|c|, 4);
    AppendAssoc(front, c, LE(|c|, 4));
    LastOfThree(front, c, LE(|c|, 4));
  }

  lemma LastOfThree(a: bytes, b: bytes, c: bytes)
    ensures var s := a + b + c;
            s[..|a|] == a && s[|a|..|a| + |b|] == b && s[|a| + |b|..] == c
  {}

  lemma DecodeLast(front: bytes, c: bytes)
    requires Packable(I(|c|))
    ensures DecodePreimage(front + Record(c))
         == match DecodePreimage(front)
            case None => None
            case Some(cs) => Some(cs + [c])
  {
    LastRecord(front, c);
  }

  // Two runs that feed the same bytes to the hash, whatever their header versions, agree on every component.
  lemma PreimageDeterminesComponents(v1: int, p1: Payload, v2: int, p2: Payload)
    requires AllHashable(Components(v1, p1)) && AllHashable(Components(v2, p2))
    requires Preimage(Components(v1, p1)) == Preimage(Components(v2, p2))
    ensures Components(v1, p1) == Components(v2, p2)
    ensures Content(p1.kernel) == Content(p2.kernel)
    ensures Content(p1.ramdisk) == Content(p2.ramdisk)
    ensures Content(p1.second) == Content(p2.second)
    ensures (v1 > 0) == (v2 > 0) && (v1 > 1) == (v2 > 1)
    ensures v1 > 0 ==> Content(p1.recoveryDtbo) == Content(p2.recoveryDtbo)
    ensures v1 > 1 ==> Content(p1.dtb) == Content(p2.dtb)
  {
    var c1, c2 := Components(v1, p1), Components(v2, p2);
    PreimageDecodes(c1);
    PreimageDecodes(c2);
    assert c1 == c2;
    assert c1[0] == c2[0] && c1[1] == c2[1] && c1[2] == c2[2];
    assert |c1| == 3 + (if v1 > 0 then 1 else 0) + (if v1 > 1 then 1 else 0);
    assert v1 > 0 ==> c1[3] == c2[3];
    assert v1 > 1 ==> c1[4] == c2[4];
  }
}
