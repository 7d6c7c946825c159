/** `struct.pack` as the writer uses it, and the matching reader of packed C structs. */
module Struct {
  import opened Outcomes
  import opened Bytes

  // One packed value: format 'I', 'Q' or '<size>s' on a little-endian host.
  datatype Field = I(n: int) | Q(n: int) | S(size: nat, s: bytes)

  // One member of a packed C struct.
  datatype Kind = U32 | U64 | Str(size: nat)

  // pack raises for every other value.
  predicate Packable(f: Field) {
    match f
    case I(n) => 0 <= n < 0x1_0000_0000
    case Q(n) => 0 <= n < 0x1_0000_0000_0000_0000
    case S(_, _) => true
  }

  predicate AllPackable(fs: seq<Field>) {
    forall i :: 0 <= i < |fs| ==> Packable(fs[i])
  }

  // '<size>s' truncates a longer string and pads a shorter one with NULs.
  function Fit(size: nat, s: bytes): (r: bytes)
    ensures |r| == size
  {
    if |s| >= size then s[..size] else s + Zeros(size - |s|)
  }

  function KindOf(f: Field): Kind {
    match f
    case I(_) => U32
    case Q(_) => U64
    case S(size, _) => Str(size)
  }

  function SizeOf(k: Kind): nat {
    match k
    case U32 => 4
    case U64 => 8
    case Str(size) => size
  }

  function Encode(f: Field): (b: bytes)
    ensures |b| == SizeOf(KindOf(f))
  {
    match f
    case I(n) => LE(n, 4)
    case Q(n) => LE(n, 8)
    case S(size, s) => Fit(size, s)
  }

  // What a field looks like after it went through its fixed-size slot.
  function Canonical(f: Field): Field {
    match f
    case S(size, s) => S(size, Fit(size, s))
    case _ => f
  }

  function Decode(k: Kind, b: bytes): Field
    requires |b| == SizeOf(k)
  {
    match k
    case U32 => I(Word(b))
    case U64 => Q(Word(b))
    case Str(size) => S(size, b)
  }

  function Kinds(fs: seq<Field>): (ks: seq<Kind>)
    ensures |ks| == |fs| && forall i :: 0 <= i < |fs| ==> ks[i] == KindOf(fs[i])
  {
    seq(|fs|, i requires 0 <= i < |fs| => KindOf(fs[i]))
  }

  function Canonicals(fs: seq<Field>): (cs: seq<Field>)
    ensures |cs| == |fs| && forall i :: 0 <= i < |fs| ==> cs[i] == Canonical(fs[i])
  {
    seq(|fs|, i requires 0 <= i < |fs| => Canonical(fs[i]))
  }

  function SizeOfAll(ks: seq<Kind>): nat {
    if ks == [] then 0 else SizeOf(ks[0]) + SizeOfAll(ks[1..])
  }

  function Serialize(fs: seq<Field>): bytes {
    if fs == [] then [] else Encode(fs[0]) + Serialize(fs[1..])
  }

  // Reads the members of a packed struct from the front of data.
  function Unpack(ks: seq<Kind>, data: bytes): (r: Option<seq<Field>>)
    ensures r.Some? ==> |r.value| == |ks|
  {
    if ks == [] then Some([])
    else
      var n := SizeOf(ks[0]);
      if |data| < n then None
      else
        match Unpack(ks[1..], data[n..])
        case None => None
        case Some(rest) => Some([Decode(ks[0], data[..n])] + rest)
  }

  // Number and string access to a decoded member.
  function Num(f: Field): nat {
    match f
    case S(_, _) => 0
    case I(n) => if n < 0 then 0 else n
    case Q(n) => if n < 0 then 0 else n
  }

  function Raw(f: Field): bytes {
    if f.S? then f.s else []
  }

  lemma KindsConcat(a: seq<Field>, b: seq<Field>)
    ensures Kinds(a + b) == Kinds(a) + Kinds(b)
  {}

  lemma DecodeEncode(f: Field)
    requires Packable(f)
    ensures Decode(KindOf(f), Encode(f)) == Canonical(f)
  {
    match f
    case I(n) =>
      assert Pow256(4) == 0x1_0000_0000;
      WordOfLE(n, 4);
    case Q(n) =>
      assert Pow256(8) == 0x1_0000_0000_0000_0000 by {
        assert Pow256(4) == 0x1_0000_0000;
      }
      WordOfLE(n, 8);
    case S(_, _) =>
  }

  lemma EncodeDecode(k: Kind, b: bytes)
    requires |b| == SizeOf(k)
    ensures Encode(Decode(k, b)) == b
    ensures KindOf(Decode(k, b)) == k && Packable(Decode(k, b))
  {
    LEOfWord(b);
    assert Pow256(4) == 0x1_0000_0000;
    assert Pow256(8) == 0x1_0000_0000_0000_0000;
  }

  lemma {:induction false} SerializedSize(fs: seq<Field>)
    ensures |Serialize(fs)| == SizeOfAll(Kinds(fs))
  {
    if fs != [] {
      SerializedSize(fs[1..]);
      assert Kinds(fs)[1..] == Kinds(fs[1..]);
    }
  }

  lemma UnpackStep(ks: seq<Kind>, head: bytes, tail: bytes)
    requires ks != [] && |head| == SizeOf(ks[0])
    ensures Unpack(ks, head + tail)
         == match Unpack(ks[1..], tail)
            case None => None
            case Some(rest) => Some([Decode(ks[0], head)] + rest)
  {
    assert (head + tail)[..|head|] == head;
    assert (head + tail)[|head|..] == tail;
  }

  // Reading back what was packed gives every value, strings cut or padded to their slot.
  lemma {:induction false} UnpackSerialize(fs: seq<Field>, tail: bytes)
    requires AllPackable(fs)
    ensures Unpack(Kinds(fs), Serialize(fs) + tail) == Some(Canonicals(fs))
  {
    if fs != [] {
      UnpackSerialize(fs[1..], tail);
      UnpackCons(fs[0], fs[1..], Serialize(fs[1..]) + tail);
      assert fs == [fs[0]] + fs[1..];
      AppendAssoc(Encode(fs[0]), Serialize(fs[1..]), tail);
    }
  }

  lemma UnpackCons(f: Field, fs: seq<Field>, rest: bytes)
    requires Packable(f)
    requires Unpack(Kinds(fs), rest) == Some(Canonicals(fs))
    ensures Unpack(Kinds([f] + fs), Encode(f) + rest) == Some(Canonicals([f] + fs))
  {
    DecodeEncode(f);
    KindsCons(f, fs);
    UnpackStep([KindOf(f)] + Kinds(fs), Encode(f), rest);
    CanonicalsCons(f, fs);
  }

  lemma KindsCons(f: Field, fs: seq<Field>)
    ensures Kinds([f] + fs) == [KindOf(f)] + Kinds(fs)
  {}

  lemma CanonicalsCons(f: Field, fs: seq<Field>)
    ensures Canonicals([f] + fs) == [Canonical(f)] + Canonicals(fs)
  {}

  // And packing what was read gives back the bytes: no two field lists share an encoding.
  lemma {:induction false} SerializeUnpack(ks: seq<Kind>, data: bytes)
    requires |data| >= SizeOfAll(ks)
    ensures Unpack(ks, data).Some?
    ensures var fs := Unpack(ks, data).value;
            Kinds(fs) == ks && AllPackable(fs) && Serialize(fs) == data[..SizeOfAll(ks)]
  {
    if ks != [] {
      var n := SizeOf(ks[0]);
      var head, tail := data[..n], data[n..];
      assert data == head + tail;
      SerializeUnpack(ks[1..], tail);
      UnpackStep(ks, head, tail);
      EncodeDecode(ks[0], head);
      var f, rest := Decode(ks[0], head), Unpack(ks[1..], tail).value;
      KindsCons(f, rest);
      SerializeCons(f, rest);
      TakeAcross(head, tail, SizeOfAll(ks[1..]));
    }
  }

  lemma TakeAcross(head: bytes, tail: bytes, n: nat)
    requires n <= |tail|
    ensures (head + tail)[..|head| + n] == head + tail[..n]
  {}

  lemma SerializeCons(f: Field, fs: seq<Field>)
    ensures Serialize([f] + fs) == Encode(f) + Serialize(fs)
  {
    assert ([f] + fs)[1..] == fs;
  }

  lemma AllPackableConcat(a: seq<Field>, b: seq<Field>)
    ensures AllPackable(a + b) <==> AllPackable(a) && AllPackable(b)
  {
    if AllPackable(a + b) {
      forall i | 0 <= i < |a| ensures Packable(a[i]) {
        assert a[i] == (a + b)[i];
      }
      forall i | 0 <= i < |b| ensures Packable(b[i]) {
        assert b[i] == (a + b)[|a| + i];
      }
    }
  }

  lemma {:induction false} SerializeConcat(a: seq<Field>, b: seq<Field>)
    ensures Serialize(a + b) == Serialize(a) + Serialize(b)
  {
    if a == [] {
      assert a + b == b;
    } else {
      assert (a + b)[1..] == a[1..] + b;
      SerializeConcat(a[1..], b);
      AppendAssoc(Encode(a[0]), Serialize(a[1..]), Serialize(b));
    }
  }

  // One more packed value appends its encoding.
  lemma AllPackableNext(fs: seq<Field>, i: nat)
    requires i < |fs|
    ensures AllPackable(fs[..i + 1]) <==> AllPackable(fs[..i]) && Packable(fs[i])
  {
    AllPackableConcat(fs[..i], [fs[i]]);
    assert fs[..i + 1] == fs[..i] + [fs[i]];
  }

  lemma SerializeNext(fs: seq<Field>, i: nat)
    requires i < |fs|
    ensures Serialize(fs[..i + 1]) == Serialize(fs[..i]) + Encode(fs[i])
  {
    assert fs[..i + 1] == fs[..i] + [fs[i]];
    SerializeConcat(fs[..i], [fs[i]]);
    assert Serialize([fs[i]]) == Encode(fs[i]) + Serialize([]);
  }

  // A reader that looks only at the first members of a longer struct.
  lemma UnpackPrefix(a: seq<Field>, b: seq<Field>, tail: bytes)
    requires AllPackable(a)
    ensures Unpack(Kinds(a), Serialize(a + b) + tail) == Some(Canonicals(a))
  {
    var rest := Serialize(b) + tail;
    UnpackSerialize(a, rest);
    SerializeConcat(a, b);
    AppendAssoc(Serialize(a), Serialize(b), tail);
  }

  // Stripping NULs undoes the padding of a slot the string fits in.
  lemma FitStrips(size: nat, s: bytes)
    requires |s| <= size
    ensures RStrip(Fit(size, s)) == RStrip(s)
  {
    FitPads(size, s);
    RStripOfPadded(s, size - |s|);
  }

  lemma FitPads(size: nat, s: bytes)
    requires |s| <= size
    ensures Fit(size, s) == s + Zeros(size - |s|)
  {
    if |s| == size {
      assert s[..size] == s;
    }
  }

  // A terminated string survives a slot it fits in.
  lemma AsciizField(size: nat, s: bytes)
    requires NulFree(s) && |s| < size
    ensures CStr(Fit(size, s + [0])) == s && CStr(Fit(size, s)) == s
  {
    var f := Fit(size, s);
    assert f == s + Zeros(size - |s|);
    assert Fit(size, s + [0]) == f;
    CStrOfTerminated(s, Zeros(size - |s|));
  }

  // ---------- struct sizes ----------

  function Words(n: nat): (ks: seq<Kind>)
    ensures |ks| == n && forall i :: 0 <= i < n ==> ks[i] == U32
  {
    seq(n, _ => U32)
  }

  lemma {:induction false} SizeOfConcat(a: seq<Kind>, b: seq<Kind>)
    ensures SizeOfAll(a + b) == SizeOfAll(a) + SizeOfAll(b)
  {
    if a == [] {
      assert a + b == b;
    } else {
      assert (a + b)[1..] == a[1..] + b;
      SizeOfConcat(a[1..], b);
    }
  }

  lemma SizeOfOne(k: Kind)
    ensures SizeOfAll([k]) == SizeOf(k)
  {
    assert SizeOfAll([k]) == SizeOf(k) + SizeOfAll([]);
  }

  lemma {:induction false} SizeOfWords(n: nat)
    ensures SizeOfAll(Words(n)) == 4 * n
  {
    if n > 0 {
      assert Words(n)[1..] == Words(n - 1);
      SizeOfWords(n - 1);
    }
  }

  lemma SizeOfTwo(a: Kind, b: Kind)
    ensures SizeOfAll([a, b]) == SizeOf(a) + SizeOf(b)
  {
    SizeOfOne(b);
    assert [a, b][1..] == [b];
  }

  lemma SizeOfThree(a: Kind, b: Kind, c: Kind)
    ensures SizeOfAll([a, b, c]) == SizeOf(a) + SizeOf(b) + SizeOf(c)
  {
    SizeOfTwo(b, c);
    assert [a, b, c][1..] == [b, c];
  }

  // ---------- the members of a decoded header ----------

  function Number(f: Field): int {
    if f.S? then 0 else f.n
  }

  function Text(f: Field): bytes {
    if f.S? then Fit(f.size, f.s) else []
  }

  lemma Members(hdr: seq<Field>)
    requires AllPackable(hdr)
    ensures forall i :: 0 <= i < |hdr| ==>
              Num(Canonicals(hdr)[i]) == Number(hdr[i]) && Raw(Canonicals(hdr)[i]) == Text(hdr[i])
  {
    forall i | 0 <= i < |hdr|
      ensures Num(Canonicals(hdr)[i]) == Number(hdr[i]) && Raw(Canonicals(hdr)[i]) == Text(hdr[i])
    {
      assert Packable(hdr[i]);
    }
  }
}
