/** Members of packed structs and sections of files at absolute positions. */
module Layout {
  import opened Outcomes
  import opened Bytes
  import opened Struct
  import opened Paging

  // ---------- bytes at a position ----------

  // A little-endian word of four or eight bytes.
  function Value32(data: bytes, at: nat): int
    requires at + 4 <= |data|
  {
    Little(data[at], data[at + 1], data[at + 2], data[at + 3])
  }

  function Value64(data: bytes, at: nat): int
    requires at + 8 <= |data|
  {
    Value32(data, at) + 0x1_0000_0000 * Value32(data, at + 4)
  }

  function Little(a: int, b: int, c: int, d: int): int {
    a + 0x100 * b + 0x1_0000 * c + 0x100_0000 * d
  }

  predicate Has32(data: bytes, at: nat, n: int) {
    at + 4 <= |data| && Value32(data, at) == n
  }

  predicate Has64(data: bytes, at: nat, n: int) {
    at + 8 <= |data| && Value64(data, at) == n
  }

  predicate HasBytes(data: bytes, at: nat, s: bytes) {
    at + |s| <= |data| && data[at..at + |s|] == s
  }

  // A NUL-terminated string in a slot of the given size.
  predicate HasString(data: bytes, at: nat, size: nat, s: bytes) {
    at + size <= |data| && CStr(data[at..at + size]) == s
  }

  // ---------- members of a packed struct ----------

  function Offset(ks: seq<Kind>, i: nat): nat
    requires i <= |ks|
  {
    if i == 0 then 0 else Offset(ks, i - 1) + SizeOf(ks[i - 1])
  }

  lemma {:induction false} OffsetOfTail(ks: seq<Kind>, i: nat)
    requires 0 < i <= |ks|
    ensures Offset(ks, i) == SizeOf(ks[0]) + Offset(ks[1..], i - 1)
  {
    if i > 1 {
      OffsetOfTail(ks, i - 1);
    }
  }

  lemma {:induction false} OffsetOfWords(ks: seq<Kind>, i: nat, n: nat)
    requires i + n <= |ks| && forall j :: i <= j < i + n ==> ks[j] == U32
    ensures Offset(ks, i + n) == Offset(ks, i) + 4 * n
  {
    if n > 0 {
      OffsetOfWords(ks, i, n - 1);
    }
  }

  lemma {:induction false} OffsetOfPrefix(ks: seq<Kind>, more: seq<Kind>, i: nat)
    requires i <= |ks|
    ensures Offset(ks + more, i) == Offset(ks, i)
  {
    if i > 0 {
      OffsetOfPrefix(ks, more, i - 1);
    }
  }

  // The slot of member i.
  function SlotOf(ks: seq<Kind>, data: bytes, i: nat): (b: bytes)
    requires i < |ks| && Offset(ks, i) + SizeOf(ks[i]) <= |data|
    ensures |b| == SizeOf(ks[i])
  {
    data[Offset(ks, i)..Offset(ks, i) + SizeOf(ks[i])]
  }

  lemma SlotOfTail(ks: seq<Kind>, data: bytes, i: nat)
    requires 0 < i < |ks| && SizeOf(ks[0]) <= |data|
    requires Offset(ks[1..], i - 1) + SizeOf(ks[i]) <= |data| - SizeOf(ks[0])
    ensures Offset(ks, i) + SizeOf(ks[i]) <= |data|
    ensures SlotOf(ks[1..], data[SizeOf(ks[0])..], i - 1) == SlotOf(ks, data, i)
  {
    OffsetOfTail(ks, i);
  }

  lemma FirstMember(ks: seq<Kind>, data: bytes, h: seq<Field>)
    requires Unpack(ks, data) == Some(h) && ks != []
    ensures SizeOf(ks[0]) <= |data| && h != [] && h[0] == Decode(ks[0], data[..SizeOf(ks[0])])
    ensures Unpack(ks[1..], data[SizeOf(ks[0])..]) == Some(h[1..])
  {}

  // Member i of an unpacked struct is what its kind makes of the bytes in its slot.
  lemma {:induction false} MemberAt(ks: seq<Kind>, data: bytes, h: seq<Field>, i: nat)
    requires Unpack(ks, data) == Some(h) && i < |ks|
    ensures Offset(ks, i) + SizeOf(ks[i]) <= |data|
    ensures h[i] == Decode(ks[i], SlotOf(ks, data, i))
  {
    FirstMember(ks, data, h);
    if i > 0 {
      MemberAt(ks[1..], data[SizeOf(ks[0])..], h[1..], i - 1);
      SlotOfTail(ks, data, i);
    } else {
      assert SlotOf(ks, data, 0) == data[..SizeOf(ks[0])];
    }
  }

  lemma WordStep(b: bytes, n: nat)
    requires n < |b|
    ensures Word(b[n..]) == b[n] + 256 * Word(b[n + 1..])
  {
    assert b[n..][1..] == b[n + 1..];
  }

  lemma WordOfFour(b: bytes)
    requires |b| >= 4
    ensures Word(b) == Little(b[0], b[1], b[2], b[3]) + 0x1_0000_0000 * Word(b[4..])
  {
    assert b[0..] == b;
    WordStep(b, 0);
    WordStep(b, 1);
    WordStep(b, 2);
    WordStep(b, 3);
  }

  lemma ShortSlot(data: bytes, at: nat)
    requires at + 4 <= |data|
    ensures Has32(data, at, Word(data[at..at + 4]))
  {
    var b := data[at..at + 4];
    WordOfFour(b);
    assert b[4..] == [];
  }

  lemma LongSlot(data: bytes, at: nat)
    requires at + 8 <= |data|
    ensures Has64(data, at, Word(data[at..at + 8]))
  {
    var b := data[at..at + 8];
    WordOfFour(b);
    WordOfFour(b[4..]);
    assert b[4..][4..] == [];
  }

  lemma DecodedNumber(f: Field, k: Kind, b: bytes)
    requires |b| == SizeOf(k) && f == Decode(k, b) && !k.Str?
    ensures Num(f) == Word(b)
  {}

  lemma NumberAt(ks: seq<Kind>, data: bytes, h: seq<Field>, i: nat)
    requires Unpack(ks, data) == Some(h) && i < |ks| && ks[i] == U32
    ensures Has32(data, Offset(ks, i), Num(h[i]))
  {
    MemberAt(ks, data, h, i);
    DecodedNumber(h[i], ks[i], SlotOf(ks, data, i));
    ShortSlot(data, Offset(ks, i));
  }

  lemma LongNumberAt(ks: seq<Kind>, data: bytes, h: seq<Field>, i: nat)
    requires Unpack(ks, data) == Some(h) && i < |ks| && ks[i] == U64
    ensures Has64(data, Offset(ks, i), Num(h[i]))
  {
    MemberAt(ks, data, h, i);
    DecodedNumber(h[i], ks[i], SlotOf(ks, data, i));
    LongSlot(data, Offset(ks, i));
  }

  lemma DecodedText(f: Field, k: Kind, b: bytes)
    requires |b| == SizeOf(k) && f == Decode(k, b) && k.Str?
    ensures Raw(f) == b
  {}

  lemma TextAt(ks: seq<Kind>, data: bytes, h: seq<Field>, i: nat)
    requires Unpack(ks, data) == Some(h) && i < |ks| && ks[i].Str?
    ensures Offset(ks, i) + SizeOf(ks[i]) <= |data| && Raw(h[i]) == SlotOf(ks, data, i)
  {
    MemberAt(ks, data, h, i);
    DecodedText(h[i], ks[i], SlotOf(ks, data, i));
  }

  // ---------- sections ----------

  function PagesBefore(sizes: seq<nat>, i: nat, page: nat): nat
    requires i <= |sizes| && page > 0
  {
    if i == 0 then 0 else PagesBefore(sizes, i - 1, page) + NumPages(sizes[i - 1], page)
  }

  lemma {:induction false} PagesBeforeTail(sizes: seq<nat>, i: nat, page: nat)
    requires 0 < i <= |sizes| && page > 0
    ensures PagesBefore(sizes, i, page) == NumPages(sizes[0], page) + PagesBefore(sizes[1..], i - 1, page)
  {
    if i > 1 {
      PagesBeforeTail(sizes, i - 1, page);
    }
  }

  lemma SliceOfRest(data: bytes, n: nat, at: nat, s: bytes)
    requires n <= |data| && HasBytes(data[n..], at, s)
    ensures HasBytes(data, n + at, s)
  {
    assert data[n..][at..at + |s|] == data[n + at..n + at + |s|];
  }

  lemma FirstSectionRead(data: bytes, sizes: seq<nat>, page: nat, s: seq<bytes>)
    requires page > 0 && ReadSections(data, sizes, page) == Some(s) && sizes != []
    ensures var n := page * NumPages(sizes[0], page);
            && n <= |data| && s != [] && |s[0]| == sizes[0] && HasBytes(data, 0, s[0])
            && ReadSections(data[n..], sizes[1..], page) == Some(s[1..])
  {
    NumPagesBounds(sizes[0], page);
  }

  lemma PositionAfterFirst(sizes: seq<nat>, i: nat, page: nat)
    requires 0 < i <= |sizes| && page > 0
    ensures page * PagesBefore(sizes, i, page)
         == page * NumPages(sizes[0], page) + page * PagesBefore(sizes[1..], i - 1, page)
  {
    PagesBeforeTail(sizes, i, page);
    Distribute(page, NumPages(sizes[0], page), PagesBefore(sizes[1..], i - 1, page));
  }

  lemma Distribute(p: nat, a: nat, b: nat)
    ensures p * (a + b) == p * a + p * b
  {}

  lemma SectionShift(data: bytes, sizes: seq<nat>, page: nat, i: nat, x: bytes)
    requires 0 < i <= |sizes| && page > 0 && page * NumPages(sizes[0], page) <= |data|
    requires HasBytes(data[page * NumPages(sizes[0], page)..], page * PagesBefore(sizes[1..], i - 1, page), x)
    ensures HasBytes(data, page * PagesBefore(sizes, i, page), x)
  {
    PositionAfterFirst(sizes, i, page);
    SliceOfRest(data, page * NumPages(sizes[0], page), page * PagesBefore(sizes[1..], i - 1, page), x);
  }

  lemma SectionStart(data: bytes, sizes: seq<nat>, page: nat, x: bytes)
    requires page > 0 && HasBytes(data, 0, x)
    ensures HasBytes(data, page * PagesBefore(sizes, 0, page), x)
  {}

  lemma {:induction false} SectionAt(data: bytes, sizes: seq<nat>, page: nat, s: seq<bytes>, i: nat)
    requires page > 0 && ReadSections(data, sizes, page) == Some(s) && i < |sizes|
    ensures |s[i]| == sizes[i] && HasBytes(data, page * PagesBefore(sizes, i, page), s[i])
  {
    FirstSectionRead(data, sizes, page, s);
    if i > 0 {
      SectionAt(data[page * NumPages(sizes[0], page)..], sizes[1..], page, s[1..], i - 1);
      SectionShift(data, sizes, page, i, s[1..][i - 1]);
    } else {
      SectionStart(data, sizes, page, s[0]);
    }
  }
}
