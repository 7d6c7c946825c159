/** Page padding, and images made of page-aligned sections. */
module Paging {
  import opened Outcomes
  import opened Bytes

  ghost predicate PowerOfTwo(p: nat) {
    exists k: nat :: p == Pow2(k)
  }

  // The page sizes that --pagesize accepts.
  predicate PageChoice(p: int) {
    p == 2048 || p == 4096 || p == 8192 || p == 16384
  }

  lemma PageChoiceIsPowerOfTwo(p: int)
    requires PageChoice(p)
    ensures PowerOfTwo(p)
  {
    assert Pow2(4) == 16;
    assert Pow2(8) == 256;
    assert Pow2(11) == 2048;
    assert Pow2(12) == 4096;
    assert Pow2(13) == 8192;
    assert Pow2(14) == 16384;
  }

  // The number of NULs pad_file writes when the output position is t.
  function PadAmount(t: nat, padding: nat): nat
    requires padding > 0
  {
    BitAnd(padding - BitAnd(t, padding - 1), padding - 1)
  }

  function NumPages(size: nat, page: nat): nat
    requires page > 0
  {
    (size + page - 1) / page
  }

  lemma PadByRemainder(t: nat, p: nat)
    requires PowerOfTwo(p)
    ensures PadAmount(t, p) == if t % p == 0 then 0 else p - t % p
  {
    var k: nat :| p == Pow2(k);
    AndMask(t, k);
    AndMask(p - t % p, k);
    if t % p == 0 {
      DivModUnique(p, p, 1, 0);
    } else {
      DivModUnique(p - t % p, p, 0, p - t % p);
    }
  }

  lemma NumPagesBounds(t: nat, p: nat)
    requires p > 0
    ensures p * NumPages(t, p) == if t % p == 0 then t else t + (p - t % p)
  {
    var q, r := t / p, t % p;
    assert t == p * q + r;
    if r == 0 {
      DivModUnique(t + p - 1, p, q, p - 1);
    } else {
      assert p * (q + 1) == p * q + p;
      DivModUnique(t + p - 1, p, q + 1, r - 1);
    }
  }

  lemma MultipleIsAligned(p: nat, n: nat)
    requires p > 0
    ensures p * n % p == 0
  {
    DivModUnique(p * n, p, n, 0);
  }

  // The mask form reaches the page boundary that get_number_of_pages counts.
  lemma PadFillsPages(t: nat, p: nat)
    requires PowerOfTwo(p)
    ensures t + PadAmount(t, p) == p * NumPages(t, p)
    ensures (t + PadAmount(t, p)) % p == 0
  {
    PadByRemainder(t, p);
    NumPagesBounds(t, p);
    MultipleIsAligned(p, NumPages(t, p));
  }

  lemma RemainderOfSum(t: nat, m: nat, p: nat)
    requires p > 0 && t % p + m < p
    ensures (t + m) % p == t % p + m
  {
    assert t == p * (t / p) + t % p;
    DivModUnique(t + m, p, t / p, t % p + m);
  }

  // No smaller amount of padding would do.
  lemma PadIsLeast(t: nat, p: nat, m: nat)
    requires PowerOfTwo(p) && (t + m) % p == 0
    ensures PadAmount(t, p) <= m
  {
    PadByRemainder(t, p);
    if t % p + m < p {
      RemainderOfSum(t, m, p);
    }
  }

  predicate PadsToPage(t: nat, padding: nat)
    requires padding > 0
  {
    (t + PadAmount(t, padding)) % padding == 0
  }

  // The mask trick is right for every position exactly when the padding is a power of two.
  lemma MaskPadsIffPowerOfTwo(p: nat)
    requires p > 0
    ensures (forall t: nat :: PadsToPage(t, p)) <==> PowerOfTwo(p)
  {
    if PowerOfTwo(p) {
      forall t: nat ensures PadsToPage(t, p) {
        PadFillsPages(t, p);
      }
    }
    if PadsToPage(0, p) {
      StartIsPadded(p);
    }
  }

  lemma StartIsPadded(p: nat)
    requires p > 0 && PadsToPage(0, p)
    ensures PowerOfTwo(p)
  {
    var m := BitAnd(p, p - 1);
    assert m == PadAmount(0, p) && m % p == 0;
    DivModUnique(m, p, 0, m);
    AndPredecessor(p);
  }

  // ---------- sections ----------

  function Padded(s: bytes, page: nat): bytes
    requires page > 0
  {
    s + Zeros(PadAmount(|s|, page))
  }

  // Padding keeps the data, ends at the page boundary that get_number_of_pages counts, and is all NULs.
  lemma PaddedIs(s: bytes, p: nat)
    requires PowerOfTwo(p)
    ensures s <= Padded(s, p) && |Padded(s, p)| == p * NumPages(|s|, p)
    ensures forall i :: |s| <= i < |Padded(s, p)| ==> Padded(s, p)[i] == 0
  {
    PadFillsPages(|s|, p);
  }

  // Sections one after the other, each padded to a page boundary.
  function Image(parts: seq<bytes>, page: nat): bytes
    requires page > 0
  {
    if parts == [] then [] else Padded(parts[0], page) + Image(parts[1..], page)
  }

  function SumPages(parts: seq<bytes>, page: nat): nat
    requires page > 0
  {
    if parts == [] then 0 else NumPages(|parts[0]|, page) + SumPages(parts[1..], page)
  }

  lemma {:induction false} ImageLength(parts: seq<bytes>, p: nat)
    requires PowerOfTwo(p)
    ensures |Image(parts, p)| == p * SumPages(parts, p)
  {
    if parts != [] {
      PadFillsPages(|parts[0]|, p);
      ImageLength(parts[1..], p);
      assert p * (NumPages(|parts[0]|, p) + SumPages(parts[1..], p))
          == p * NumPages(|parts[0]|, p) + p * SumPages(parts[1..], p);
    }
  }

  lemma ImageAligned(parts: seq<bytes>, p: nat)
    requires PowerOfTwo(p)
    ensures |Image(parts, p)| % p == 0
  {
    ImageLength(parts, p);
    MultipleIsAligned(p, SumPages(parts, p));
  }

  lemma {:induction false} ImageConcat(a: seq<bytes>, b: seq<bytes>, p: nat)
    requires p > 0
    ensures Image(a + b, p) == Image(a, p) + Image(b, p)
  {
    if a == [] {
      assert a + b == b;
    } else {
      assert (a + b)[1..] == a[1..] + b;
      ImageConcat(a[1..], b, p);
      AppendAssoc(Padded(a[0], p), Image(a[1..], p), Image(b, p));
    }
  }

  lemma EmptyPadded(p: nat)
    requires PowerOfTwo(p)
    ensures Padded([], p) == []
  {
    PadByRemainder(0, p);
    DivModUnique(0, p, 0, 0);
  }

  // Appending data to a page-aligned file and padding the file appends one more section.
  lemma PadAppended(parts: seq<bytes>, s: bytes, p: nat)
    requires PowerOfTwo(p)
    ensures Padded(Image(parts, p) + s, p) == Image(parts + [s], p)
  {
    var d := Image(parts, p);
    ImageConcat(parts, [s], p);
    assert Image([s], p) == Padded(s, p) + Image([], p) == Padded(s, p);
    PadAligned(d, s, p) by { ImageAligned(parts, p); }
  }

  lemma PadAligned(d: bytes, s: bytes, p: nat)
    requires PowerOfTwo(p) && |d| % p == 0
    ensures Padded(d + s, p) == d + Padded(s, p)
  {
    AlignedSum(|d|, |s|, p);
    PadByRemainder(|d + s|, p);
    PadByRemainder(|s|, p);
  }

  lemma AlignedSum(m: nat, n: nat, p: nat)
    requires p > 0 && m % p == 0
    ensures (m + n) % p == n % p
  {
    var q, q' := m / p, n / p;
    assert m == p * q && n == p * q' + n % p;
    assert p * (q + q') == p * q + p * q';
    DivModUnique(m + n, p, q + q', n % p);
  }

  // A reader that knows only the section sizes: section i starts after the pages of the sections before it.
  function ReadSections(data: bytes, sizes: seq<nat>, page: nat): (r: Option<seq<bytes>>)
    requires page > 0
    ensures r.Some? ==> |r.value| == |sizes|
  {
    if sizes == [] then Some([])
    else
      var n := page * NumPages(sizes[0], page);
      if |data| < n then None
      else
        NumPagesBounds(sizes[0], page);
        match ReadSections(data[n..], sizes[1..], page)
        case None => None
        case Some(rest) => Some([data[..sizes[0]]] + rest)
  }

  function Sizes(parts: seq<bytes>): (s: seq<nat>)
    ensures |s| == |parts| && forall i :: 0 <= i < |parts| ==> s[i] == |parts[i]|
  {
    seq(|parts|, i requires 0 <= i < |parts| => |parts[i]|)
  }

  lemma {:induction false} ReadSectionsImage(parts: seq<bytes>, p: nat, tail: bytes)
    requires PowerOfTwo(p)
    ensures ReadSections(Image(parts, p) + tail, Sizes(parts), p) == Some(parts)
  {
    if parts != [] {
      ReadSectionsImage(parts[1..], p, tail);
      ReadSectionsStep(parts[0], parts[1..], p, Image(parts[1..], p) + tail);
      AppendAssoc(Padded(parts[0], p), Image(parts[1..], p), tail);
      assert parts == [parts[0]] + parts[1..];
    }
  }

  lemma ReadSectionsStep(s: bytes, parts: seq<bytes>, p: nat, rest: bytes)
    requires PowerOfTwo(p)
    requires ReadSections(rest, Sizes(parts), p) == Some(parts)
    ensures ReadSections(Padded(s, p) + rest, Sizes([s] + parts), p) == Some([s] + parts)
  {
    PadFillsPages(|s|, p);
    assert Sizes([s] + parts) == [|s|] + Sizes(parts);
    var data := Padded(s, p) + rest;
    assert data[p * NumPages(|s|, p)..] == rest;
    assert data[..|s|] == s;
  }

  // The bytes at a given position of the file.
  function Slice(data: bytes, offset: nat, size: nat): Option<bytes> {
    if offset + size <= |data| then Some(data[offset..offset + size]) else None
  }

  // Section i lies at the file position where the sections before it end.
  lemma SectionPosition(a: seq<bytes>, s: bytes, b: seq<bytes>, p: nat)
    requires PowerOfTwo(p)
    ensures Slice(Image(a + [s] + b, p), p * SumPages(a, p), |s|) == Some(s)
  {
    ImageLength(a, p);
    ImageConcat(a, [s] + b, p);
    assert a + ([s] + b) == a + [s] + b;
    SliceFirst(Image(a, p), s, b, p);
  }

  lemma SliceFirst(front: bytes, s: bytes, b: seq<bytes>, p: nat)
    requires PowerOfTwo(p)
    ensures Slice(front + Image([s] + b, p), |front|, |s|) == Some(s)
  {
    assert ([s] + b)[1..] == b;
    var data := front + (s + Zeros(PadAmount(|s|, p)) + Image(b, p));
    assert data[|front|..|front| + |s|] == s;
  }
}
