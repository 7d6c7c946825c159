/** The vendor ramdisk table: building it, and what its bytes mean. */
module VendorTable {
  import opened Outcomes
  import opened Bytes
  import opened Struct
  import opened Paging
  import opened Sections
  import opened Inputs

  const VENDOR_RAMDISK_TYPE_PLATFORM: int := 1
  const VENDOR_RAMDISK_NAME_SIZE: nat := 32
  const VENDOR_RAMDISK_TABLE_ENTRY_BOARD_ID_SIZE: nat := 16
  const VENDOR_RAMDISK_TABLE_ENTRY_V4_SIZE: nat := 108

  // "default"
  const BANNED_NAME: bytes := [100, 101, 102, 97, 117, 108, 116]

  datatype Entry = Entry(path: string, size: nat, offset: nat, rtype: int, name: bytes, boardId: seq<int>)

  datatype Table = Table(entries: seq<Entry>, totalSize: nat, names: set<bytes>)

  const EMPTY_TABLE := Table([], 0, {})

  // One call of add_entry; boardId is None where the source passes no list.
  datatype Request = Request(path: string, rtype: int, name: bytes, boardId: Option<seq<int>>)

  predicate BoardIdOk(b: seq<int>) {
    |b| == VENDOR_RAMDISK_TABLE_ENTRY_BOARD_ID_SIZE && AllPackable(BoardFields(b))
  }

  function BoardFields(b: seq<int>): (fs: seq<Field>)
    ensures |fs| == |b| && forall i :: 0 <= i < |b| ==> fs[i] == I(b[i])
  {
    seq(|b|, i requires 0 <= i < |b| => I(b[i]))
  }

  function BoardIdOf(r: Request): seq<int> {
    match r.boardId
    case None => seq(VENDOR_RAMDISK_TABLE_ENTRY_BOARD_ID_SIZE, _ => 0)
    case Some(b) => b
  }

  function FileOf(fs: FileSystem, path: string): bytes {
    if path in fs then fs[path] else []
  }

  predicate Acceptable(fs: FileSystem, names: set<bytes>, r: Request) {
    && RStrip(r.name) != BANNED_NAME
    && RStrip(r.name) !in names
    && BoardIdOk(BoardIdOf(r))
    && r.path in fs
  }

  function Add(fs: FileSystem, t: Table, r: Request): Table {
    var size := |FileOf(fs, r.path)|;
    Table(t.entries + [Entry(r.path, size, t.totalSize, r.rtype, r.name, BoardIdOf(r))],
          t.totalSize + size,
          t.names + {RStrip(r.name)})
  }

  // The names recorded after one call, which happens before the board id and the file are looked at.
  function NamesAfter(names: set<bytes>, r: Request): set<bytes> {
    if RStrip(r.name) == BANNED_NAME then names else names + {RStrip(r.name)}
  }

  // A refused call records a name exactly when the name was fine and the board id or the path was not.
  lemma RefusedCallRecordsIff(fs: FileSystem, names: set<bytes>, r: Request)
    requires !Acceptable(fs, names, r)
    ensures NamesAfter(names, r) != names
       <==> && RStrip(r.name) != BANNED_NAME && RStrip(r.name) !in names
            && !(BoardIdOk(BoardIdOf(r)) && r.path in fs)
  {
    assert RStrip(r.name) !in names ==> RStrip(r.name) in names + {RStrip(r.name)};
  }

  // What a call, accepted or refused, does to the calls after it: it takes its name away and nothing else.
  lemma AcceptableAfter(fs: FileSystem, names: set<bytes>, r: Request, later: Request)
    ensures Acceptable(fs, NamesAfter(names, r), later)
       <==> Acceptable(fs, names, later) && RStrip(later.name) != RStrip(r.name)
  {}

  // So a valid request is refused when one with the same name was refused for its board id before it.
  lemma RefusedNameIsTaken(fs: FileSystem, path: string)
    requires path in fs
    ensures var bad, good := Request(path, 0, [97], Some([])), Request(path, 0, [97], None);
            && !Acceptable(fs, {}, bad) && Acceptable(fs, {}, good)
            && !Acceptable(fs, NamesAfter({}, bad), good)
  {
    var bad, good := Request(path, 0, [97], Some([])), Request(path, 0, [97], None);
    AcceptableAfter(fs, {}, bad, good);
    assert |RStrip(good.name)| <= 1 < |BANNED_NAME|;
  }

  // A run of add_entry calls; None when one of them raises.
  function AddAll(fs: FileSystem, t: Table, rs: seq<Request>): Option<Table>
    decreases |rs|
  {
    if rs == [] then Some(t)
    else if !Acceptable(fs, t.names, rs[0]) then None
    else AddAll(fs, Add(fs, t, rs[0]), rs[1..])
  }

  function FilesOf(fs: FileSystem, es: seq<Entry>): (r: seq<bytes>)
    ensures |r| == |es| && forall i :: 0 <= i < |es| ==> r[i] == FileOf(fs, es[i].path)
  {
    seq(|es|, i requires 0 <= i < |es| => FileOf(fs, es[i].path))
  }

  // The ramdisks one after the other, as they are written.
  function Ramdisks(fs: FileSystem, es: seq<Entry>): bytes {
    Concat(FilesOf(fs, es))
  }

  // ---------- what every run of the builder keeps ----------

  predicate Describes(fs: FileSystem, e: Entry, start: nat) {
    && e.path in fs
    && e.size == |FileOf(fs, e.path)|
    && e.offset == start
    && BoardIdOk(e.boardId)
  }

  // Each entry describes its file and starts where the entries before it end.
  predicate LaidOut(fs: FileSystem, es: seq<Entry>) {
    es == [] ||
    var front, e := es[..|es| - 1], es[|es| - 1];
    LaidOut(fs, front) && Describes(fs, e, |Ramdisks(fs, front)|)
  }

  predicate NamesUnique(es: seq<Entry>, names: set<bytes>) {
    && (forall i :: 0 <= i < |es| ==> RStrip(es[i].name) in names && RStrip(es[i].name) != BANNED_NAME)
    && (forall i, j :: 0 <= i < j < |es| ==> RStrip(es[i].name) != RStrip(es[j].name))
  }

  predicate TableInv(fs: FileSystem, t: Table) {
    && LaidOut(fs, t.entries)
    && t.totalSize == |Ramdisks(fs, t.entries)|
    && NamesUnique(t.entries, t.names)
  }

  lemma FilesOfPrefix(fs: FileSystem, es: seq<Entry>, i: nat)
    requires i <= |es|
    ensures FilesOf(fs, es[..i]) == FilesOf(fs, es)[..i]
  {}

  lemma RamdisksStep(fs: FileSystem, es: seq<Entry>, i: nat)
    requires i < |es|
    ensures Ramdisks(fs, es[..i + 1]) == Ramdisks(fs, es[..i]) + FileOf(fs, es[i].path)
  {
    FilesOfPrefix(fs, es, i);
    FilesOfPrefix(fs, es, i + 1);
    ConcatStep(FilesOf(fs, es), i);
  }

  lemma RamdisksSnoc(fs: FileSystem, es: seq<Entry>, e: Entry)
    ensures Ramdisks(fs, es + [e]) == Ramdisks(fs, es) + FileOf(fs, e.path)
  {
    assert FilesOf(fs, es + [e]) == FilesOf(fs, es) + [FileOf(fs, e.path)];
    ConcatSnoc(FilesOf(fs, es), FileOf(fs, e.path));
  }

  lemma AddKeepsNames(es: seq<Entry>, names: set<bytes>, e: Entry)
    requires NamesUnique(es, names) && RStrip(e.name) != BANNED_NAME && RStrip(e.name) !in names
    ensures NamesUnique(es + [e], names + {RStrip(e.name)})
  {}

  lemma AddKeepsTable(fs: FileSystem, t: Table, r: Request)
    requires TableInv(fs, t) && Acceptable(fs, t.names, r)
    ensures TableInv(fs, Add(fs, t, r))
  {
    var e := Entry(r.path, |FileOf(fs, r.path)|, t.totalSize, r.rtype, r.name, BoardIdOf(r));
    AddKeepsNames(t.entries, t.names, e);
    RamdisksSnoc(fs, t.entries, e);
    assert (t.entries + [e])[..|t.entries|] == t.entries;
  }

  predicate MadeFrom(e: Entry, r: Request) {
    e.path == r.path && e.rtype == r.rtype && e.name == r.name && e.boardId == BoardIdOf(r)
  }

  predicate EntriesOf(es: seq<Entry>, rs: seq<Request>) {
    |es| == |rs| && forall i :: 0 <= i < |es| ==> MadeFrom(es[i], rs[i])
  }

  lemma AddMakesEntry(fs: FileSystem, t: Table, done: seq<Request>, r: Request)
    requires EntriesOf(t.entries, done)
    ensures EntriesOf(Add(fs, t, r).entries, done + [r])
  {}

  lemma {:induction false} RunsKeepInv(fs: FileSystem, t: Table, rs: seq<Request>)
    requires TableInv(fs, t) && AddAll(fs, t, rs).Some?
    ensures TableInv(fs, AddAll(fs, t, rs).value)
    decreases |rs|
  {
    if rs != [] {
      AddKeepsTable(fs, t, rs[0]);
      RunsKeepInv(fs, Add(fs, t, rs[0]), rs[1..]);
    }
  }

  lemma {:induction false} RunsMakeEntries(fs: FileSystem, t: Table, done: seq<Request>, rs: seq<Request>)
    requires EntriesOf(t.entries, done) && AddAll(fs, t, rs).Some?
    ensures EntriesOf(AddAll(fs, t, rs).value.entries, done + rs)
    decreases |rs|
  {
    if rs == [] {
      assert done + rs == done;
    } else {
      AddMakesEntry(fs, t, done, rs[0]);
      RunsMakeEntries(fs, Add(fs, t, rs[0]), done + [rs[0]], rs[1..]);
      assert done + [rs[0]] + rs[1..] == done + rs;
    }
  }

  // For any run of add_entry calls on a new builder: every entry describes its file and starts where the files
  // before it end, the total is the length of the section, names are unique, and the entries are the requests
  // in order.
  lemma BuilderRuns(fs: FileSystem, rs: seq<Request>)
    requires AddAll(fs, EMPTY_TABLE, rs).Some?
    ensures TableInv(fs, AddAll(fs, EMPTY_TABLE, rs).value)
    ensures EntriesOf(AddAll(fs, EMPTY_TABLE, rs).value.entries, rs)
  {
    RunsKeepInv(fs, EMPTY_TABLE, rs);
    RunsMakeEntries(fs, EMPTY_TABLE, [], rs);
    assert [] + rs == rs;
  }

  // What a request has to be, whatever came before it: a name other than "default", sixteen unsigned 32-bit words
  // if it gives a board id, and a file that exists.
  predicate RequestFits(fs: FileSystem, r: Request) {
    && RStrip(r.name) != [100, 101, 102, 97, 117, 108, 116]
    && (r.boardId.Some? ==>
          && |r.boardId.value| == 16
          && forall j :: 0 <= j < 16 ==> 0 <= r.boardId.value[j] < 0x1_0000_0000)
    && r.path in fs
  }

  // The board id that goes into the entry: the one given, or zeros.
  function BoardWords(r: Request): seq<int> {
    if r.boardId.Some? then r.boardId.value else [0, 0, 0, 0, 0, 0, 0, 0, 0, 0, 0, 0, 0, 0, 0, 0]
  }

  lemma AcceptableIff(fs: FileSystem, names: set<bytes>, r: Request)
    ensures Acceptable(fs, names, r) <==> RequestFits(fs, r) && RStrip(r.name) !in names
    ensures BoardIdOf(r) == BoardWords(r)
  {
    BoardFits(BoardIdOf(r));
    assert r.boardId == None ==> forall j :: 0 <= j < 16 ==> BoardIdOf(r)[j] == 0;
  }

  lemma BoardFits(b: seq<int>)
    ensures BoardIdOk(b) <==> |b| == 16 && forall j :: 0 <= j < 16 ==> 0 <= b[j] < 0x1_0000_0000
  {
    assert forall j :: 0 <= j < |b| ==> BoardFields(b)[j] == I(b[j]);
    if BoardIdOk(b) {
      forall j | 0 <= j < 16 ensures 0 <= b[j] < 0x1_0000_0000 {
        assert Packable(BoardFields(b)[j]);
      }
    }
  }

  // A run of requests: each one fits, and no two names are the same once stripped.
  predicate RequestsFit(fs: FileSystem, rs: seq<Request>) {
    EachFits(fs, rs) && NamesDiffer(rs)
  }

  predicate EachFits(fs: FileSystem, rs: seq<Request>) {
    forall k :: 0 <= k < |rs| ==> RequestFits(fs, rs[k])
  }

  predicate NamesDiffer(rs: seq<Request>) {
    forall j, k :: 0 <= j < k < |rs| ==> RStrip(rs[j].name) != RStrip(rs[k].name)
  }

  predicate NoneTaken(names: set<bytes>, rs: seq<Request>) {
    forall k :: 0 <= k < |rs| ==> RStrip(rs[k].name) !in names
  }

  lemma EachFitsFirst(fs: FileSystem, rs: seq<Request>)
    requires rs != []
    ensures EachFits(fs, rs) <==> RequestFits(fs, rs[0]) && EachFits(fs, rs[1..])
  {
    if EachFits(fs, rs[1..]) {
      assert forall k :: 1 <= k < |rs| ==> rs[1..][k - 1] == rs[k];
    }
  }

  lemma NamesDifferFirst(names: set<bytes>, rs: seq<Request>)
    requires rs != []
    ensures NamesDiffer(rs) && NoneTaken(names, rs)
       <==> RStrip(rs[0].name) !in names && NamesDiffer(rs[1..]) && NoneTaken(names + {RStrip(rs[0].name)}, rs[1..])
  {
    var rest := rs[1..];
    if NamesDiffer(rest) && RStrip(rs[0].name) !in names && NoneTaken(names + {RStrip(rs[0].name)}, rest) {
      assert forall k :: 1 <= k < |rs| ==> rest[k - 1] == rs[k];
    }
    if NamesDiffer(rs) && NoneTaken(names, rs) {
      forall k | 0 <= k < |rest| ensures RStrip(rest[k].name) !in names + {RStrip(rs[0].name)} {
        assert RStrip(rs[0].name) != RStrip(rs[k + 1].name) && RStrip(rs[k + 1].name) !in names;
      }
    }
  }

  lemma {:induction false} RunsFit(fs: FileSystem, t: Table, rs: seq<Request>)
    ensures AddAll(fs, t, rs).Some? <==> RequestsFit(fs, rs) && NoneTaken(t.names, rs)
    decreases |rs|
  {
    if rs != [] {
      AcceptableIff(fs, t.names, rs[0]);
      EachFitsFirst(fs, rs);
      NamesDifferFirst(t.names, rs);
      if Acceptable(fs, t.names, rs[0]) {
        RunsFit(fs, Add(fs, t, rs[0]), rs[1..]);
      }
    }
  }

  // A run of add_entry calls on a new builder succeeds exactly when its requests fit.
  lemma BuilderRunsIff(fs: FileSystem, rs: seq<Request>)
    ensures AddAll(fs, EMPTY_TABLE, rs).Some? <==> RequestsFit(fs, rs)
  {
    RunsFit(fs, EMPTY_TABLE, rs);
  }

  function TotalSize(fs: FileSystem, rs: seq<Request>): nat {
    if rs == [] then 0
    else (if rs[0].path in fs then |fs[rs[0].path]| else 0) + TotalSize(fs, rs[1..])
  }

  lemma {:induction false} RunsTotal(fs: FileSystem, t: Table, rs: seq<Request>)
    requires AddAll(fs, t, rs).Some?
    ensures AddAll(fs, t, rs).value.totalSize == t.totalSize + TotalSize(fs, rs)
    decreases |rs|
  {
    if rs != [] {
      RunsTotal(fs, Add(fs, t, rs[0]), rs[1..]);
    }
  }

  lemma {:induction false} LaidOutPrefix(fs: FileSystem, es: seq<Entry>, i: nat)
    requires LaidOut(fs, es) && i < |es|
    ensures LaidOut(fs, es[..i]) && Describes(fs, es[i], |Ramdisks(fs, es[..i])|)
  {
    var k := |es| - 1;
    var front := es[..k];
    assert LaidOut(fs, front) && Describes(fs, es[k], |Ramdisks(fs, front)|);
    if i < k {
      LaidOutPrefix(fs, front, i);
      assert front[..i] == es[..i] && front[i] == es[i];
    }
  }

  // The slice an entry describes is the file it was made from.
  lemma EntrySlice(fs: FileSystem, es: seq<Entry>, i: nat)
    requires LaidOut(fs, es) && i < |es|
    ensures Slice(Ramdisks(fs, es), es[i].offset, es[i].size) == Some(FileOf(fs, es[i].path))
  {
    LaidOutPrefix(fs, es, i);
    FilesOfPrefix(fs, es, i);
    ConcatSlice(FilesOf(fs, es), i);
  }

  // The slices follow each other without gap or overlap and cover the section.
  lemma SlicesTile(fs: FileSystem, es: seq<Entry>, i: nat)
    requires LaidOut(fs, es) && i < |es|
    ensures i == 0 ==> es[i].offset == 0
    ensures es[i].offset + es[i].size == if i + 1 < |es| then es[i + 1].offset else |Ramdisks(fs, es)|
  {
    LaidOutPrefix(fs, es, i);
    RamdisksStep(fs, es, i);
    if i + 1 < |es| {
      LaidOutPrefix(fs, es, i + 1);
    } else {
      assert es[..i + 1] == es;
    }
  }

  lemma {:induction false} SlicesDisjoint(fs: FileSystem, es: seq<Entry>, i: nat, j: nat)
    requires LaidOut(fs, es) && i < j < |es|
    ensures es[i].offset + es[i].size <= es[j].offset
    decreases j - i
  {
    SlicesTile(fs, es, i);
    if i + 1 < j {
      SlicesDisjoint(fs, es, i + 1, j);
    }
  }

  // The total of a run is the sum of the sizes of its files.
  lemma BuilderTotal(fs: FileSystem, rs: seq<Request>)
    requires AddAll(fs, EMPTY_TABLE, rs).Some?
    ensures AddAll(fs, EMPTY_TABLE, rs).value.totalSize == TotalSize(fs, rs)
  {
    RunsTotal(fs, EMPTY_TABLE, rs);
  }

  // ---------- names on disk ----------

  // Names that fit their field stay distinct on disk.
  lemma NamesDistinctOnDisk(t: Table, i: nat, j: nat)
    requires NamesUnique(t.entries, t.names) && i < |t.entries| && j < |t.entries| && i != j
    requires |t.entries[i].name| <= VENDOR_RAMDISK_NAME_SIZE && |t.entries[j].name| <= VENDOR_RAMDISK_NAME_SIZE
    ensures Fit(VENDOR_RAMDISK_NAME_SIZE, t.entries[i].name) != Fit(VENDOR_RAMDISK_NAME_SIZE, t.entries[j].name)
    ensures Fit(VENDOR_RAMDISK_NAME_SIZE, t.entries[i].name) != Fit(VENDOR_RAMDISK_NAME_SIZE, BANNED_NAME)
  {
    FitStrips(VENDOR_RAMDISK_NAME_SIZE, t.entries[i].name);
    FitStrips(VENDOR_RAMDISK_NAME_SIZE, t.entries[j].name);
    FitStrips(VENDOR_RAMDISK_NAME_SIZE, BANNED_NAME);
    assert RStrip(BANNED_NAME) == BANNED_NAME;
  }

  function Cut(name: bytes): bytes {
    if |name| > VENDOR_RAMDISK_NAME_SIZE then name[..VENDOR_RAMDISK_NAME_SIZE] else name
  }

  lemma FieldOfStripped(name: bytes)
    ensures Fit(VENDOR_RAMDISK_NAME_SIZE, name) == Fit(VENDOR_RAMDISK_NAME_SIZE, RStrip(Cut(name)))
  {
    var c := Cut(name);
    var r := RStrip(c);
    FitPads(VENDOR_RAMDISK_NAME_SIZE, c);
    FitPads(VENDOR_RAMDISK_NAME_SIZE, r);
    assert Fit(VENDOR_RAMDISK_NAME_SIZE, name) == Fit(VENDOR_RAMDISK_NAME_SIZE, c);
    assert c == r + c[|r|..];
  }

  // Two names share a field exactly when they agree once cut to 32 bytes and stripped.
  lemma SharedFieldIff(x: bytes, y: bytes)
    ensures Fit(VENDOR_RAMDISK_NAME_SIZE, x) == Fit(VENDOR_RAMDISK_NAME_SIZE, y) <==> RStrip(Cut(x)) == RStrip(Cut(y))
  {
    FieldOfStripped(x);
    FieldOfStripped(y);
    StrippedOfField(x);
    StrippedOfField(y);
  }

  lemma StrippedOfField(name: bytes)
    ensures RStrip(Fit(VENDOR_RAMDISK_NAME_SIZE, name)) == RStrip(Cut(name))
  {
    FitStrips(VENDOR_RAMDISK_NAME_SIZE, Cut(name));
    assert Fit(VENDOR_RAMDISK_NAME_SIZE, name) == Fit(VENDOR_RAMDISK_NAME_SIZE, Cut(name));
  }

  // add_entry itself does not bound the name: two longer names it accepts as different can share a field.
  lemma LongNamesCollide(fs: FileSystem, path: string)
    requires path in fs
    ensures var x, y := Request(path, 0, seq(33, _ => 97), None), Request(path, 0, seq(33, _ => 97) + [98], None);
            && AddAll(fs, EMPTY_TABLE, [x, y]).Some?
            && Fit(VENDOR_RAMDISK_NAME_SIZE, x.name) == Fit(VENDOR_RAMDISK_NAME_SIZE, y.name)
  {
    var x, y := Request(path, 0, seq(33, _ => 97), None), Request(path, 0, seq(33, _ => 97) + [98], None);
    var t := Add(fs, EMPTY_TABLE, x);
    assert RStrip(x.name) == x.name && RStrip(y.name) == y.name;
    assert |x.name| != |BANNED_NAME| && |y.name| != |BANNED_NAME| && |x.name| != |y.name|;
    assert [x, y][1..] == [y] && [y][1..] == [];
    assert AddAll(fs, t, [y]) == AddAll(fs, Add(fs, t, y), []);
    assert x.name[..32] == y.name[..32];
  }

  // ---------- table bytes ----------

  function EntryFields(e: Entry): seq<Field> {
    [I(e.size), I(e.offset), I(e.rtype), S(VENDOR_RAMDISK_NAME_SIZE, e.name)] + BoardFields(e.boardId)
  }

  function EntryBytes(e: Entry): bytes {
    Serialize(EntryFields(e))
  }

  function EncodedEntries(es: seq<Entry>): (r: seq<bytes>)
    ensures |r| == |es| && forall i :: 0 <= i < |es| ==> r[i] == EntryBytes(es[i])
  {
    seq(|es|, i requires 0 <= i < |es| => EntryBytes(es[i]))
  }

  function TableBytes(es: seq<Entry>): bytes {
    Concat(EncodedEntries(es))
  }

  lemma TableBytesStep(es: seq<Entry>, i: nat)
    requires i < |es|
    ensures TableBytes(es[..i + 1]) == TableBytes(es[..i]) + EntryBytes(es[i])
  {
    EncodedPrefix(es, i);
    EncodedPrefix(es, i + 1);
    ConcatStep(EncodedEntries(es), i);
  }

  lemma EncodedPrefix(es: seq<Entry>, i: nat)
    requires i <= |es|
    ensures EncodedEntries(es[..i]) == EncodedEntries(es)[..i]
  {}
}
