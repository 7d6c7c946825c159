/** The vendor ramdisk table builder as an object. */
module Builder {
  import opened Outcomes
  import opened Bytes
  import opened Struct
  import opened Paging
  import opened Inputs
  import opened VendorTable
  import opened VendorImage
  import opened Files

  class VendorRamdiskTableBuilder {
    var entries: seq<Entry>
    var ramdiskTotalSize: nat
    var ramdiskNames: set<bytes>

    function Model(): Table
      reads this
    {
      Table(entries, ramdiskTotalSize, ramdiskNames)
    }

    constructor ()
      ensures Model() == EMPTY_TABLE
    {
      entries := [];
      ramdiskTotalSize := 0;
      ramdiskNames := {};
    }

    // A refused call leaves the entries alone, but its name is recorded unless it is the banned one.
    method AddEntry(fs: FileSystem, r: Request) returns (s: Status)
      modifies this
      ensures s.Ok? <==> Acceptable(fs, old(ramdiskNames), r)
      ensures s.Ok? <==> RequestFits(fs, r) && RStrip(r.name) !in old(ramdiskNames)
      ensures s.Ok? ==> Model() == Add(fs, old(Model()), r)
      ensures s.Ok? ==>
                entries == old(entries)
                           + [Entry(r.path, |fs[r.path]|, old(ramdiskTotalSize), r.rtype, r.name, BoardWords(r))]
      ensures s.Raised? ==> entries == old(entries) && ramdiskTotalSize == old(ramdiskTotalSize)
      ensures ramdiskNames == NamesAfter(old(ramdiskNames), r)
    {
      AcceptableIff(fs, ramdiskNames, r);
      var stripped := RStrip(r.name);
      if stripped == BANNED_NAME {
        return Raised(ValueError);
      }
      if stripped in ramdiskNames {
        return Raised(ValueError);
      }
      ramdiskNames := ramdiskNames + {stripped};
      var boardId: seq<int>;
      if r.boardId == None {
        boardId := seq(VENDOR_RAMDISK_TABLE_ENTRY_BOARD_ID_SIZE, _ => 0);
      } else {
        boardId := r.boardId.value;
        if !AllPackable(BoardFields(boardId)) {
          return Raised(OverflowError);
        }
      }
      if |boardId| != VENDOR_RAMDISK_TABLE_ENTRY_BOARD_ID_SIZE {
        return Raised(ValueError);
      }
      if r.path !in fs {
        return Raised(FileMissing);
      }
      var size := |fs[r.path]|;
      entries := entries + [Entry(r.path, size, ramdiskTotalSize, r.rtype, r.name, boardId)];
      ramdiskTotalSize := ramdiskTotalSize + size;
      return Ok;
    }

    method WriteRamdisksPadded(fs: FileSystem, fout: OutFile, alignment: nat) returns (s: Status)
      requires alignment > 0
      modifies fout
      ensures s.Ok? <==> forall i :: 0 <= i < |entries| ==> entries[i].path in fs
      ensures s.Ok? ==> fout.data == Padded(old(fout.data) + Ramdisks(fs, entries), alignment)
    {
      assert entries[..0] == [];
      for i := 0 to |entries|
        invariant forall j :: 0 <= j < i ==> entries[j].path in fs
        invariant fout.data == old(fout.data) + Ramdisks(fs, entries[..i])
      {
        if entries[i].path !in fs {
          return Raised(FileMissing);
        }
        fout.Write(fs[entries[i].path]);
        RamdisksStep(fs, entries, i);
        AppendAssoc(old(fout.data), Ramdisks(fs, entries[..i]), fs[entries[i].path]);
      }
      assert entries[..|entries|] == entries;
      PadFile(fout, alignment);
      return Ok;
    }

    method WriteEntriesPadded(fout: OutFile, alignment: nat) returns (s: Status)
      requires alignment > 0
      requires forall i :: 0 <= i < |entries| ==> BoardIdOk(entries[i].boardId)
      modifies fout
      ensures s.Ok? <==> EntriesPackable(entries)
      ensures s.Ok? ==> fout.data == Padded(old(fout.data) + TableBytes(entries), alignment)
    {
      assert entries[..0] == [];
      for i := 0 to |entries|
        invariant EntriesPackable(entries[..i])
        invariant fout.data == old(fout.data) + TableBytes(entries[..i])
      {
        var e := entries[i];
        s := WriteEntry(fout, e);
        EntriesPackableStep(entries, i);
        if s.Raised? {
          return;
        }
        TableBytesStep(entries, i);
        AppendAssoc(old(fout.data), TableBytes(entries[..i]), EntryBytes(e));
      }
      assert entries[..|entries|] == entries;
      PadFile(fout, alignment);
      return Ok;
    }

    static method WriteEntry(fout: OutFile, e: Entry) returns (s: Status)
      requires BoardIdOk(e.boardId)
      modifies fout
      ensures s.Ok? <==> AllPackable(EntryFields(e))
      ensures s.Ok? ==> fout.data == old(fout.data) + EntryBytes(e)
    {
      ghost var base := fout.data;
      var head := [I(e.size), I(e.offset), I(e.rtype), S(VENDOR_RAMDISK_NAME_SIZE, e.name)];
      var board := BoardFields(e.boardId);
      assert EntryFields(e) == head + board;
      assert forall i :: 0 <= i < 4 ==> EntryFields(e)[i] == head[i];
      assert forall i :: 4 <= i < 20 ==> EntryFields(e)[i] == board[i - 4];
      :- WriteFields(fout, head);
      // The board id array is written as raw memory: its elements, little-endian.
      fout.Write(Serialize(board));
      SerializeConcat(head, board);
      AppendAssoc(base, Serialize(head), Serialize(board));
      return Ok;
    }
  }
}
