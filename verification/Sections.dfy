/** Images whose first section is a packed header. */
module Sections {
  import opened Outcomes
  import opened Bytes
  import opened Struct
  import opened Paging

  // A reader that unpacks the header, or only its first n members, from the front of the image.
  lemma ReadsHeader(hdr: seq<Field>, n: nat, rest: seq<bytes>, page: nat)
    requires page > 0 && AllPackable(hdr) && n <= |hdr|
    ensures var data := Image([Serialize(hdr)] + rest, page);
            && Unpack(Kinds(hdr)[..n], data) == Some(Canonicals(hdr)[..n])
            && Unpack(Kinds(hdr), data) == Some(Canonicals(hdr))
  {
    var s := Serialize(hdr);
    var tail := Zeros(PadAmount(|s|, page)) + Image(rest, page);
    assert ([s] + rest)[1..] == rest;
    AppendAssoc(s, Zeros(PadAmount(|s|, page)), Image(rest, page));
    UnpackSerialize(hdr, tail);
    assert hdr == hdr[..n] + hdr[n..];
    assert Kinds(hdr[..n]) == Kinds(hdr)[..n];
    assert Canonicals(hdr[..n]) == Canonicals(hdr)[..n];
    UnpackPrefix(hdr[..n], hdr[n..], tail);
  }

  lemma ImageSkipsEmpty(a: seq<bytes>, b: seq<bytes>, p: nat)
    requires PowerOfTwo(p)
    ensures Image(a + [[]] + b, p) == Image(a + b, p)
  {
    EmptyPadded(p);
    ImageConcat(a, b, p);
    ImageConcat(a + [[]], b, p);
    ImageConcat(a, [[]], p);
    assert Image([[]], p) == Padded([], p) + Image([], p);
  }

  // ---------- byte strings end to end ----------

  function Concat(parts: seq<bytes>): bytes {
    if parts == [] then [] else Concat(parts[..|parts| - 1]) + parts[|parts| - 1]
  }

  lemma ConcatSnoc(parts: seq<bytes>, s: bytes)
    ensures Concat(parts + [s]) == Concat(parts) + s
  {
    assert (parts + [s])[..|parts|] == parts;
  }

  lemma {:induction false} ConcatGrows(parts: seq<bytes>, i: nat)
    requires i <= |parts|
    ensures Concat(parts[..i]) <= Concat(parts)
  {
    if i == |parts| {
      assert parts[..i] == parts;
    } else {
      var k := |parts| - 1;
      ConcatGrows(parts[..k], i);
      assert parts[..k][..i] == parts[..i];
    }
  }

  lemma ConcatStep(parts: seq<bytes>, i: nat)
    requires i < |parts|
    ensures Concat(parts[..i + 1]) == Concat(parts[..i]) + parts[i]
  {
    assert parts[..i + 1] == parts[..i] + [parts[i]];
    ConcatSnoc(parts[..i], parts[i]);
  }

  // Each part lies where the parts before it end.
  lemma ConcatSlice(parts: seq<bytes>, i: nat)
    requires i < |parts|
    ensures Slice(Concat(parts), |Concat(parts[..i])|, |parts[i]|) == Some(parts[i])
  {
    ConcatStep(parts, i);
    ConcatGrows(parts, i + 1);
    SliceOfPrefix(Concat(parts[..i]), parts[i], Concat(parts));
  }

  lemma SliceOfPrefix(front: bytes, s: bytes, data: bytes)
    requires front + s <= data
    ensures Slice(data, |front|, |s|) == Some(s)
  {
    assert data[..|front| + |s|] == front + s;
    assert data[|front|..|front| + |s|] == data[..|front| + |s|][|front|..];
  }

  lemma {:induction false} ConcatUniform(parts: seq<bytes>, size: nat)
    requires forall i :: 0 <= i < |parts| ==> |parts[i]| == size
    ensures |Concat(parts)| == |parts| * size
  {
    if parts != [] {
      var k := |parts| - 1;
      ConcatUniform(parts[..k], size);
      assert (k + 1) * size == k * size + size;
    }
  }
}
