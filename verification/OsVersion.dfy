/** Parsing --os_version and --os_patch_level, and the header word that holds both. */
module OsVersion {
  import opened Outcomes
  import opened Bytes

  // A character the pattern \d matches (ASCII digits).
  predicate IsDigit(c: char) {
    '0' <= c <= '9'
  }

  function DigitValue(c: char): nat
    requires IsDigit(c)
  {
    c as int - '0' as int
  }

  // How many of the first max characters are digits before the first that is not.
  function DigitRun(x: string, max: nat): (n: nat)
    ensures n <= |x| && n <= max
    ensures forall i :: 0 <= i < n ==> IsDigit(x[i])
    ensures n < max && n < |x| ==> !IsDigit(x[n])
  {
    if max == 0 || x == [] || !IsDigit(x[0]) then 0 else 1 + DigitRun(x[1..], max - 1)
  }

  function ToInt(x: string): nat
    requires forall i :: 0 <= i < |x| ==> IsDigit(x[i])
  {
    if x == [] then 0 else 10 * ToInt(x[..|x| - 1]) + DigitValue(x[|x| - 1])
  }

  // Up to three digits at the front: their value and what follows them.
  function Component(x: string): (nat, string) {
    var n := DigitRun(x, 3);
    (ToInt(x[..n]), x[n..])
  }

  // A further component needs a dot and at least one digit.
  predicate HasNext(x: string) {
    |x| >= 2 && x[0] == '.' && IsDigit(x[1])
  }

  function PackVersion(a: nat, b: nat, c: nat): nat {
    BitOr(BitOr(Shl(a, 14), Shl(b, 7)), c)
  }

  // The groups of the pattern; it is anchored at the front only, so text after them is ignored.
  function VersionParts(x: string): Option<(nat, nat, nat)> {
    if DigitRun(x, 3) == 0 then None
    else
      var (a, rest) := Component(x);
      var (b, rest') := if HasNext(rest) then Component(rest[1..]) else (0, []);
      var c := if HasNext(rest') then Component(rest'[1..]).0 else 0;
      Some((a, b, c))
  }

  // Seven bits are allocated for each part; text that does not start with a digit gives 0.
  function ParseOsVersion(x: string): Result<nat> {
    match VersionParts(x)
    case None => Success(0)
    case Some((a, b, c)) =>
      if a < 128 && b < 128 && c < 128 then Success(PackVersion(a, b, c)) else Failure(AssertionError)
  }

  // What the text says: 0 for a part that is not there, and for text that does not start with a digit.
  function VersionNumbers(x: string): (nat, nat, nat) {
    match VersionParts(x)
    case None => (0, 0, 0)
    case Some(v) => v
  }

  function PackPatchLevel(y: nat, m: nat): nat {
    BitOr(Shl(y, 4), m)
  }

  // Year and month of text that starts with "YYYY-MM"; what follows is ignored.
  function PatchParts(x: string): Option<(nat, nat)> {
    if DigitRun(x, 4) == 4 && |x| >= 7 && x[4] == '-' && DigitRun(x[5..], 2) == 2
    then Some((ToInt(x[..4]), ToInt(x[5..7])))
    else None
  }

  function ParseOsPatchLevel(x: string): Result<nat> {
    match PatchParts(x)
    case None => Success(0)
    case Some((year, m)) =>
      var y := year - 2000;
      if 0 <= y < 128 && 0 < m <= 12 then Success(PackPatchLevel(y, m)) else Failure(AssertionError)
  }

  // The year is stored as an offset, so text without a date reads as the month 0 of 2000.
  function PatchNumbers(x: string): (nat, nat) {
    match PatchParts(x)
    case None => (2000, 0)
    case Some(p) => p
  }

  // ---------- the packed values ----------

  lemma SmallPowers()
    ensures Pow2(4) == 16 && Pow2(7) == 128 && Pow2(11) == 2048 && Pow2(14) == 16384
  {
    assert Pow2(4) == 16;
    assert Pow2(7) == 8 * Pow2(4);
    assert Pow2(11) == 16 * Pow2(7);
    assert Pow2(14) == 8 * Pow2(11);
  }

  lemma PackVersionValue(a: nat, b: nat, c: nat)
    requires a < 128 && b < 128 && c < 128
    ensures PackVersion(a, b, c) == 16384 * a + 128 * b + c
  {
    SmallPowers();
    ShlMultiplies(a, 14);
    ShlMultiplies(b, 7);
    OrDisjoint(a, 128 * b, 14);
    assert Shl(a, 14) + Shl(b, 7) == Shl(128 * a + b, 7) by {
      ShlMultiplies(128 * a + b, 7);
    }
    OrDisjoint(128 * a + b, c, 7);
  }

  lemma PackPatchLevelValue(y: nat, m: nat)
    requires m < 16
    ensures PackPatchLevel(y, m) == 16 * y + m
  {
    SmallPowers();
    ShlMultiplies(y, 4);
    OrDisjoint(y, m, 4);
  }

  // Accepted arguments always fit the bits the header reserves for them.
  lemma ParsedFits(x: string)
    ensures ParseOsVersion(x).Success? ==> ParseOsVersion(x).value < 0x20_0000
    ensures ParseOsPatchLevel(x).Success? ==> ParseOsPatchLevel(x).value < 0x800
  {
    if ParseOsVersion(x).Success? && VersionParts(x).Some? {
      var (a, b, c) := VersionParts(x).value;
      PackVersionValue(a, b, c);
    }
    if ParseOsPatchLevel(x).Success? && ParseOsPatchLevel(x).value != 0 {
      var (year, m) := PatchParts(x).value;
      PackPatchLevelValue(year - 2000, m);
    }
  }

  // What a bootloader reads out of the word.
  datatype OsFields = OsFields(a: nat, b: nat, c: nat, year: nat, month: nat)

  function DecodeWord(w: nat): OsFields {
    OsFields(Shr(w, 25), BitAnd(Shr(w, 18), 127), BitAnd(Shr(w, 11), 127), 2000 + BitAnd(Shr(w, 4), 127), BitAnd(w, 15))
  }

  // Splits the low k bits off.
  lemma SplitBits(hi: nat, lo: nat, k: nat)
    requires lo < Pow2(k)
    ensures Shr(Pow2(k) * hi + lo, k) == hi && BitAnd(Pow2(k) * hi + lo, Pow2(k) - 1) == lo
  {
    ShlMultiplies(hi, k);
    ShrDropsLowBits(hi, lo, k);
    AndLowBits(hi, lo, k);
  }

  lemma ShrTwice(w: nat, j: nat, k: nat)
    ensures Shr(w, j + k) == Shr(Shr(w, j), k)
  {}

  lemma SplitMonth(hi: nat, m: nat)
    requires m < 16
    ensures Shr(16 * hi + m, 4) == hi && BitAnd(16 * hi + m, 15) == m
  {
    SmallPowers();
    SplitBits(hi, m, 4);
  }

  lemma SplitSeven(hi: nat, lo: nat)
    requires lo < 128
    ensures Shr(128 * hi + lo, 7) == hi && BitAnd(128 * hi + lo, 127) == lo
  {
    SmallPowers();
    SplitBits(hi, lo, 7);
  }

  // Seven more bits, above the k that are already shifted away.
  lemma NextSeven(w: nat, k: nat, hi: nat, lo: nat)
    requires lo < 128 && Shr(w, k) == 128 * hi + lo
    ensures Shr(w, k + 7) == hi && BitAnd(Shr(w, k), 127) == lo
  {
    SplitSeven(hi, lo);
    ShrTwice(w, k, 7);
  }

  // From the low end: month, year, and the three version parts.
  lemma WordFields(w: nat, a: nat, b: nat, c: nat, y: nat, m: nat, k: nat)
    requires b < 128 && c < 128 && y < 128 && m < 16 && k == 4
    requires w == 16 * (128 * (128 * (128 * a + b) + c) + y) + m
    ensures BitAnd(w, 15) == m && BitAnd(Shr(w, k), 127) == y && BitAnd(Shr(w, k + 7), 127) == c
    ensures BitAnd(Shr(w, k + 14), 127) == b && Shr(w, k + 21) == a
  {
    SplitMonth(128 * (128 * (128 * a + b) + c) + y, m);
    NextSeven(w, k, 128 * (128 * a + b) + c, y);
    NextSeven(w, k + 7, 128 * a + b, c);
    NextSeven(w, k + 14, a, b);
  }

  lemma WordValue(v: nat, p: nat)
    requires p < 2048
    ensures BitOr(Shl(v, 11), p) == 2048 * v + p
  {
    SmallPowers();
    OrDisjoint(v, p, 11);
    ShlMultiplies(v, 11);
  }

  // The word is lossless: it fits 32 bits and gives back all five numbers.
  lemma WordDecodes(a: nat, b: nat, c: nat, y: nat, m: nat)
    requires a < 128 && b < 128 && c < 128 && y < 128 && m < 16
    ensures var w := BitOr(Shl(PackVersion(a, b, c), 11), PackPatchLevel(y, m));
            w < 0x1_0000_0000 && DecodeWord(w) == OsFields(a, b, c, 2000 + y, m)
  {
    PackVersionValue(a, b, c);
    PackPatchLevelValue(y, m);
    WordValue(PackVersion(a, b, c), PackPatchLevel(y, m));
    WordFields(BitOr(Shl(PackVersion(a, b, c), 11), PackPatchLevel(y, m)), a, b, c, y, m, 4);
  }

  // Whatever text is accepted, a bootloader reads back exactly the numbers it says.
  lemma AcceptedTextsDecode(x: string, t: string)
    requires ParseOsVersion(x).Success? && ParseOsPatchLevel(t).Success?
    ensures var w := BitOr(Shl(ParseOsVersion(x).value, 11), ParseOsPatchLevel(t).value);
            var ((a, b, c), (year, month)) := (VersionNumbers(x), PatchNumbers(t));
            w < 0x1_0000_0000 && DecodeWord(w) == OsFields(a, b, c, year, month)
  {
    var (a, b, c) := VersionNumbers(x);
    var (year, month) := PatchNumbers(t);
    PackVersionValue(0, 0, 0);
    PackPatchLevelValue(0, 0);
    WordDecodes(a, b, c, year - 2000, month);
  }

  // The packed values in plain arithmetic.
  lemma AcceptedValues(x: string, t: string)
    ensures ParseOsVersion(x).Success? ==>
              var (a, b, c) := VersionNumbers(x);
              ParseOsVersion(x).value == 0x4000 * a + 0x80 * b + c
    ensures ParseOsPatchLevel(t).Success? ==>
              var (year, month) := PatchNumbers(t);
              ParseOsPatchLevel(t).value == 0x10 * (year - 2000) + month
  {
    if ParseOsVersion(x).Success? {
      var (a, b, c) := VersionNumbers(x);
      PackVersionValue(a, b, c);
    }
    if ParseOsPatchLevel(t).Success? {
      var (year, month) := PatchNumbers(t);
      PackPatchLevelValue(year - 2000, month);
    }
  }

  // ---------- numbers in digits ----------

  function DigitOf(n: nat): (c: char)
    requires n < 10
    ensures IsDigit(c) && DigitValue(c) == n
  {
    '0' + n as char
  }

  function Pow10(k: nat): nat {
    if k == 0 then 1 else 10 * Pow10(k - 1)
  }

  predicate AllDigits(s: string) {
    forall i :: 0 <= i < |s| ==> IsDigit(s[i])
  }

  // A number in exactly k digits.
  function Digits(n: nat, k: nat): (s: string)
    ensures |s| == k && AllDigits(s)
  {
    if k == 0 then "" else Digits(n / 10, k - 1) + [DigitOf(n % 10)]
  }

  lemma {:induction false} DigitsValue(n: nat, k: nat)
    requires n < Pow10(k)
    ensures ToInt(Digits(n, k)) == n
  {
    if k > 0 {
      DigitsValue(n / 10, k - 1);
      assert Digits(n, k)[..k - 1] == Digits(n / 10, k - 1);
    }
  }

  // Every digit string, leading zeros included, is a number written in that many digits.
  lemma {:induction false} DigitsOfValue(s: string)
    requires AllDigits(s)
    ensures ToInt(s) < Pow10(|s|) && Digits(ToInt(s), |s|) == s
  {
    if s != [] {
      var k := |s| - 1;
      DigitsOfValue(s[..k]);
      var n, d := ToInt(s[..k]), DigitValue(s[k]);
      assert (10 * n + d) / 10 == n && (10 * n + d) % 10 == d;
      assert s == s[..k] + [s[k]];
    }
  }

  lemma {:induction false} RunOfDigits(s: string, tail: string, max: nat)
    requires |s| <= max && AllDigits(s) && EndsGroup(s, tail, max)
    ensures DigitRun(s + tail, max) == |s|
  {
    if s == [] {
      assert s + tail == tail;
    } else {
      assert (s + tail)[1..] == s[1..] + tail;
      RunOfDigits(s[1..], tail, max - 1);
    }
  }

  // Where a group of at most max digits ends.
  predicate EndsGroup(s: string, tail: string, max: nat) {
    |s| == max || tail == [] || !IsDigit(tail[0])
  }

  // ---------- the texts of a version ----------

  predicate VersionGroup(s: string) {
    1 <= |s| <= 3 && AllDigits(s)
  }

  // Groups with dots between them, then any other text.
  function Dotted(groups: seq<string>, tail: string): string {
    if groups == [] then tail
    else if |groups| == 1 then groups[0] + tail
    else groups[0] + ("." + Dotted(groups[1..], tail))
  }

  // One to three groups, and a tail that does not go on with the last group or with a further one.
  predicate VersionText(groups: seq<string>, tail: string) {
    && 1 <= |groups| <= 3
    && (forall i :: 0 <= i < |groups| ==> VersionGroup(groups[i]))
    && EndsGroup(groups[|groups| - 1], tail, 3)
    && (|groups| < 3 ==> !HasNext(tail))
  }

  function Part(groups: seq<string>, i: nat): nat
    requires i < |groups| ==> AllDigits(groups[i])
  {
    if i < |groups| then ToInt(groups[i]) else 0
  }

  lemma ComponentOf(s: string, tail: string)
    requires VersionGroup(s) && EndsGroup(s, tail, 3)
    ensures DigitRun(s + tail, 3) == |s| && Component(s + tail) == (ToInt(s), tail)
  {
    RunOfDigits(s, tail, 3);
    assert (s + tail)[..|s|] == s && (s + tail)[|s|..] == tail;
  }

  // The part after a dot.
  lemma NextOf(s: string, tail: string)
    requires VersionGroup(s) && EndsGroup(s, tail, 3)
    ensures var x := "." + (s + tail);
            HasNext(x) && Component(x[1..]) == (ToInt(s), tail) && !IsDigit(x[0])
  {
    var x := "." + (s + tail);
    assert x[1..] == s + tail && x[1] == s[0];
    ComponentOf(s, tail);
  }

  lemma DottedNext(a: string, rest: seq<string>, tail: string)
    requires rest != []
    ensures Dotted([a] + rest, tail) == a + ("." + Dotted(rest, tail))
  {
    assert ([a] + rest)[1..] == rest;
  }

  lemma DottedForms(a: string, b: string, c: string, tail: string)
    ensures Dotted([a], tail) == a + tail
    ensures Dotted([a, b], tail) == a + ("." + (b + tail))
    ensures Dotted([a, b, c], tail) == a + ("." + (b + ("." + (c + tail))))
  {
    DottedNext(b, [c], tail);
    DottedNext(a, [b], tail);
    DottedNext(a, [b, c], tail);
    assert [a] + [b, c] == [a, b, c] && [a] + [b] == [a, b] && [b] + [c] == [b, c];
  }

  lemma ThreeParts(a: string, b: string, c: string, tail: string)
    requires VersionGroup(a) && VersionGroup(b) && VersionGroup(c) && EndsGroup(c, tail, 3)
    ensures VersionParts(a + ("." + (b + ("." + (c + tail))))) == Some((ToInt(a), ToInt(b), ToInt(c)))
  {
    var last := "." + (c + tail);
    NextOf(c, tail);
    NextOf(b, last);
    ComponentOf(a, "." + (b + last));
  }

  lemma TwoParts(a: string, b: string, tail: string)
    requires VersionGroup(a) && VersionGroup(b) && EndsGroup(b, tail, 3) && !HasNext(tail)
    ensures VersionParts(a + ("." + (b + tail))) == Some((ToInt(a), ToInt(b), 0))
  {
    NextOf(b, tail);
    ComponentOf(a, "." + (b + tail));
  }

  lemma PartsOfText(groups: seq<string>, tail: string)
    requires VersionText(groups, tail)
    ensures VersionParts(Dotted(groups, tail)) == Some((Part(groups, 0), Part(groups, 1), Part(groups, 2)))
  {
    var a := groups[0];
    if |groups| == 1 {
      assert groups == [a];
      ComponentOf(a, tail);
    } else if |groups| == 2 {
      var b := groups[1];
      assert groups == [a, b];
      DottedForms(a, b, [], tail);
      TwoParts(a, b, tail);
    } else {
      var b, c := groups[1], groups[2];
      assert groups == [a, b, c];
      DottedForms(a, b, c, tail);
      ThreeParts(a, b, c, tail);
    }
  }

  // A version as written, with one to three parts and whatever follows them, is accepted exactly when its parts
  // fit seven bits, and is never truncated.
  lemma WrittenVersionParses(groups: seq<string>, tail: string)
    requires VersionText(groups, tail)
    ensures ParseOsVersion(Dotted(groups, tail))
         == if Part(groups, 0) < 128 && Part(groups, 1) < 128 && Part(groups, 2) < 128
            then Success(PackVersion(Part(groups, 0), Part(groups, 1), Part(groups, 2)))
            else Failure(AssertionError)
  {
    PartsOfText(groups, tail);
  }

  // The first group of a text and what follows it.
  lemma SplitGroup(x: string) returns (s: string, tail: string)
    requires x != [] && IsDigit(x[0])
    ensures VersionGroup(s) && EndsGroup(s, tail, 3) && x == s + tail
  {
    var n := DigitRun(x, 3);
    s, tail := x[..n], x[n..];
  }

  // Every text is one of those, or does not start with a digit and gives 0.
  lemma EveryVersionText(x: string)
    ensures if x == [] || !IsDigit(x[0]) then ParseOsVersion(x) == Success(0)
            else exists groups, tail :: VersionText(groups, tail) && x == Dotted(groups, tail)
  {
    if x != [] && IsDigit(x[0]) {
      var a, t := SplitGroup(x);
      DottedForms(a, [], [], t);
      if !HasNext(t) {
        assert VersionText([a], t);
      } else {
        var b, u := SplitGroup(t[1..]);
        assert t == "." + (b + u);
        DottedForms(a, b, [], u);
        if !HasNext(u) {
          assert VersionText([a, b], u);
        } else {
          var c, v := SplitGroup(u[1..]);
          assert u == "." + (c + v);
          DottedForms(a, b, c, v);
          assert VersionText([a, b, c], v);
        }
      }
    }
  }

  // ---------- the texts of a patch level ----------

  function PatchText(year: nat, month: nat, tail: string): string {
    Digits(year, 4) + ("-" + (Digits(month, 2) + tail))
  }

  lemma PatchPieces(y: string, m: string, tail: string)
    requires |y| == 4 && |m| == 2
    ensures var x := y + ("-" + (m + tail));
            |x| >= 7 && x[..4] == y && x[4] == '-' && x[5..] == m + tail && x[5..7] == m
  {
    var x := y + ("-" + (m + tail));
    assert x[5..] == m + tail;
    assert x[5..7] == x[5..][..2];
  }

  lemma PatchPartsOf(y: string, m: string, tail: string)
    requires |y| == 4 && |m| == 2 && AllDigits(y) && AllDigits(m)
    ensures PatchParts(y + ("-" + (m + tail))) == Some((ToInt(y), ToInt(m)))
  {
    PatchPieces(y, m, tail);
    RunOfDigits(y, "-" + (m + tail), 4);
    RunOfDigits(m, tail, 2);
  }

  lemma HundredAndTenThousand()
    ensures Pow10(2) == 100 && Pow10(4) == 10000
  {
    assert Pow10(4) == 100 * Pow10(2);
  }

  // A patch level as written, whatever follows it: years 2000 to 2127 and months 1 to 12 are accepted.
  lemma WrittenPatchLevelParses(year: nat, month: nat, tail: string)
    requires year < 10000 && month < 100
    ensures PatchParts(PatchText(year, month, tail)) == Some((year, month))
    ensures ParseOsPatchLevel(PatchText(year, month, tail))
         == if 2000 <= year < 2128 && 0 < month <= 12 then Success(PackPatchLevel(year - 2000, month))
            else Failure(AssertionError)
  {
    HundredAndTenThousand();
    DigitsValue(year, 4);
    DigitsValue(month, 2);
    PatchPartsOf(Digits(year, 4), Digits(month, 2), tail);
  }

  lemma CutPatchText(x: string)
    requires |x| >= 7 && x[4] == '-'
    ensures x == x[..4] + ("-" + (x[5..7] + x[7..]))
  {}

  // Every text is one of those, or gives 0.
  lemma EveryPatchText(x: string)
    ensures PatchParts(x) == None ==> ParseOsPatchLevel(x) == Success(0)
    ensures PatchParts(x).Some? ==>
              var (year, month) := PatchParts(x).value;
              year < 10000 && month < 100 && exists tail :: x == PatchText(year, month, tail)
  {
    if PatchParts(x).Some? {
      var (year, month) := PatchParts(x).value;
      CutPatchText(x);
      HundredAndTenThousand();
      assert x[5..7] == x[5..][..2];
      DigitsOfValue(x[..4]);
      DigitsOfValue(x[5..7]);
      assert x == PatchText(year, month, x[7..]);
    }
  }

  // Decimal, most significant digit first.
  lemma ToIntNext(x: string, c: char)
    requires AllDigits(x) && IsDigit(c)
    ensures ToInt("") == 0 && ToInt(x + [c]) == 10 * ToInt(x) + (c as int - 48)
  {
    assert (x + [c])[..|x|] == x;
  }
}
