/** Splitting the vendor ramdisk argument groups and feeding them to the table builder. */
module RamdiskArgs {
  import opened Outcomes
  import opened Struct
  import opened Inputs
  import opened VendorTable
  import opened Builder

  const FRAGMENT: string := "--vendor_ramdisk_fragment"

  // What the group parser makes of one group: an add_entry request and the arguments it did not know.
  datatype Group = Group(request: Request, extra: seq<string>)

  // The group parser is an arbitrary function; None where it exits with an error.
  type GroupParser = seq<string> -> Option<Group>

  // list.index(flag) for a flag that occurs.
  function IndexOf(args: seq<string>, flag: string): (i: nat)
    requires flag in args
    ensures i < |args| && args[i] == flag && flag !in args[..i]
  {
    if args[0] == flag then 0
    else
      assert args == [args[0]] + args[1..];
      1 + IndexOf(args[1..], flag)
  }

  // The end of the first group: after the flag and its value, where there is one.
  function GroupEnd(args: seq<string>): (n: nat)
    requires FRAGMENT in args
    ensures 0 < n <= |args|
  {
    var idx := IndexOf(args, FRAGMENT) + 2;
    if idx <= |args| then idx else |args|
  }

  function Groups(args: seq<string>): seq<seq<string>>
    decreases |args|
  {
    if FRAGMENT !in args then []
    else [args[..GroupEnd(args)]] + Groups(args[GroupEnd(args)..])
  }

  function Remainder(args: seq<string>): (rest: seq<string>)
    ensures FRAGMENT !in rest
    decreases |args|
  {
    if FRAGMENT !in args then args else Remainder(args[GroupEnd(args)..])
  }

  function Flatten(groups: seq<seq<string>>): seq<string> {
    if groups == [] then [] else groups[0] + Flatten(groups[1..])
  }

  // A group ends with the flag and its value, and has no earlier flag; only a last group can lack the value.
  predicate WellFormedGroup(g: seq<string>, last: bool) {
    var flag := "--vendor_ramdisk_fragment";
    || (|g| >= 2 && g[|g| - 2] == flag && flag !in g[..|g| - 2])
    || (last && |g| >= 1 && g[|g| - 1] == flag && flag !in g[..|g| - 1])
  }

  lemma FlattenFirst(head: seq<string>, tail: seq<seq<string>>, rest: seq<string>)
    ensures Flatten([head] + tail) + rest == head + (Flatten(tail) + rest)
  {
    assert ([head] + tail)[1..] == tail;
  }

  lemma SplitAt(args: seq<string>, n: nat)
    requires n <= |args|
    ensures args == args[..n] + args[n..]
  {}

  // Nothing is lost or reordered: the groups and the remainder are the original list.
  lemma {:induction false} GroupsCover(args: seq<string>)
    ensures Flatten(Groups(args)) + Remainder(args) == args
    ensures "--vendor_ramdisk_fragment" !in Remainder(args)
    decreases |args|
  {
    if FRAGMENT !in args {
      assert [] + args == args;
    } else {
      var n := GroupEnd(args);
      GroupsCover(args[n..]);
      FlattenFirst(args[..n], Groups(args[n..]), Remainder(args[n..]));
      SplitAt(args, n);
    }
  }

  lemma {:induction false} GroupsWellFormed(args: seq<string>, i: nat)
    requires i < |Groups(args)|
    ensures WellFormedGroup(Groups(args)[i], i == |Groups(args)| - 1 && Remainder(args) == [])
    decreases |args|
  {
    var n, k := GroupEnd(args), IndexOf(args, FRAGMENT);
    if i == 0 {
      var g := args[..n];
      assert g[k] == FRAGMENT && g[..k] == args[..k];
      if n < k + 2 {
        assert args[n..] == [];
      }
    } else {
      GroupsWellFormed(args[n..], i - 1);
      assert Groups(args)[i] == Groups(args[n..])[i - 1];
    }
  }

  // The requests of a list of groups, None where the parser rejects one.
  function RequestsOf(parse: GroupParser, groups: seq<seq<string>>): Option<seq<Request>> {
    if groups == [] then Some([])
    else
      match (RequestsOf(parse, groups[..|groups| - 1]), parse(groups[|groups| - 1]))
      case (Some(front), Some(g)) => Some(front + [g.request])
      case _ => None
  }

  function ExtrasOf(parse: GroupParser, groups: seq<seq<string>>): seq<string> {
    if groups == [] then []
    else
      ExtrasOf(parse, groups[..|groups| - 1])
      + (match parse(groups[|groups| - 1]) case None => [] case Some(g) => g.extra)
  }

  // The platform ramdisk of --vendor_ramdisk comes first, without a name.
  function PlatformRequests(vendorRamdisk: Option<string>): seq<Request> {
    match vendorRamdisk
    case None => []
    case Some(path) => [Request(path, VENDOR_RAMDISK_TYPE_PLATFORM, [], None)]
  }

  lemma {:induction false} AddAllSnoc(fs: FileSystem, t: Table, rs: seq<Request>, r: Request)
    ensures AddAll(fs, t, rs + [r])
         == match AddAll(fs, t, rs)
            case None => None
            case Some(u) => if Acceptable(fs, u.names, r) then Some(Add(fs, u, r)) else None
    decreases |rs|
  {
    if rs == [] {
      assert rs + [r] == [r] && [r][1..] == [];
    } else {
      assert (rs + [r])[1..] == rs[1..] + [r];
      if Acceptable(fs, t.names, rs[0]) {
        AddAllSnoc(fs, Add(fs, t, rs[0]), rs[1..], r);
      }
    }
  }

  lemma RequestsSnoc(parse: GroupParser, groups: seq<seq<string>>, g: seq<string>)
    ensures RequestsOf(parse, groups + [g])
         == match (RequestsOf(parse, groups), parse(g))
            case (Some(front), Some(p)) => Some(front + [p.request])
            case _ => None
    ensures ExtrasOf(parse, groups + [g])
         == ExtrasOf(parse, groups) + (match parse(g) case None => [] case Some(p) => p.extra)
  {
    assert (groups + [g])[..|groups|] == groups;
  }

  // The table for these arguments, where nothing raises.
  function TableFrom(fs: FileSystem, parse: GroupParser, vendorRamdisk: Option<string>, args: seq<string>)
    : Option<Table>
  {
    match RequestsOf(parse, Groups(args))
    case None => None
    case Some(rs) => AddAll(fs, EMPTY_TABLE, PlatformRequests(vendorRamdisk) + rs)
  }

  // ---------- the same in plain terms ----------

  function RequestOf(parse: GroupParser, group: seq<string>): Request {
    match parse(group)
    case None => Request([], 0, [], None)
    case Some(g) => g.request
  }

  // What a command line asks for: the platform ramdisk of type 1, without name or board id, then one per group.
  function TypedRequests(parse: GroupParser, vendorRamdisk: Option<string>, args: seq<string>): seq<Request> {
    var groups := Groups(args);
    (if vendorRamdisk.Some? then [Request(vendorRamdisk.value, 1, [], None)] else [])
    + seq(|groups|, k requires 0 <= k < |groups| => RequestOf(parse, groups[k]))
  }

  // Every group parses and knows all its arguments, nothing follows the last group, and the requests fit.
  predicate GroupsFit(fs: FileSystem, parse: GroupParser, vendorRamdisk: Option<string>, args: seq<string>) {
    && AllKnown(parse, Groups(args))
    && Remainder(args) == []
    && RequestsFit(fs, TypedRequests(parse, vendorRamdisk, args))
  }

  predicate AllKnown(parse: GroupParser, groups: seq<seq<string>>) {
    forall k :: 0 <= k < |groups| ==> parse(groups[k]).Some? && parse(groups[k]).value.extra == []
  }

  lemma {:induction false} RequestsOfAll(parse: GroupParser, groups: seq<seq<string>>)
    ensures RequestsOf(parse, groups).Some? && ExtrasOf(parse, groups) == [] <==> AllKnown(parse, groups)
    ensures RequestsOf(parse, groups).Some? ==>
              RequestsOf(parse, groups).value
              == seq(|groups|, k requires 0 <= k < |groups| => RequestOf(parse, groups[k]))
  {
    if groups != [] {
      var n := |groups| - 1;
      RequestsOfAll(parse, groups[..n]);
      assert groups == groups[..n] + [groups[n]];
      assert AllKnown(parse, groups)
         <==> AllKnown(parse, groups[..n]) && parse(groups[n]).Some? && parse(groups[n]).value.extra == [];
    }
  }

  // The loop accepts all its arguments exactly when the groups fit, and then the table is for these requests.
  lemma GroupsAcceptedIff(fs: FileSystem, parse: GroupParser, vendorRamdisk: Option<string>, args: seq<string>)
    ensures TableFrom(fs, parse, vendorRamdisk, args).Some? && ExtrasOf(parse, Groups(args)) + Remainder(args) == []
       <==> GroupsFit(fs, parse, vendorRamdisk, args)
    ensures TableFrom(fs, parse, vendorRamdisk, args).Some? ==>
              PlatformRequests(vendorRamdisk) + RequestsOf(parse, Groups(args)).value
              == TypedRequests(parse, vendorRamdisk, args)
  {
    RequestsOfAll(parse, Groups(args));
    BuilderRunsIff(fs, TypedRequests(parse, vendorRamdisk, args));
  }

  lemma TableIsTyped(fs: FileSystem, parse: GroupParser, vendorRamdisk: Option<string>, args: seq<string>)
    requires TableFrom(fs, parse, vendorRamdisk, args).Some?
    ensures var t, rs := TableFrom(fs, parse, vendorRamdisk, args).value, TypedRequests(parse, vendorRamdisk, args);
            TableInv(fs, t) && EntriesOf(t.entries, rs) && t.totalSize == TotalSize(fs, rs)
  {
    GroupsAcceptedIff(fs, parse, vendorRamdisk, args);
    BuilderRuns(fs, TypedRequests(parse, vendorRamdisk, args));
    BuilderTotal(fs, TypedRequests(parse, vendorRamdisk, args));
  }

  // The platform entry, if any.
  method AddPlatform(fs: FileSystem, builder: VendorRamdiskTableBuilder, vendorRamdisk: Option<string>)
    returns (s: Status)
    requires builder.Model() == EMPTY_TABLE
    modifies builder
    ensures s.Ok? ==> AddAll(fs, EMPTY_TABLE, PlatformRequests(vendorRamdisk)) == Some(builder.Model())
    ensures s.Raised? ==> AddAll(fs, EMPTY_TABLE, PlatformRequests(vendorRamdisk)) == None
  {
    s := Ok;
    if vendorRamdisk.Some? {
      var r := Request(vendorRamdisk.value, VENDOR_RAMDISK_TYPE_PLATFORM, [], None);
      AddAllSnoc(fs, EMPTY_TABLE, [], r);
      assert [] + [r] == [r];
      s := builder.AddEntry(fs, r);
    }
  }

  lemma {:induction false} AddAllStaysNone(fs: FileSystem, t: Table, rs: seq<Request>, more: seq<Request>)
    requires AddAll(fs, t, rs) == None
    ensures AddAll(fs, t, rs + more) == None
    decreases |more|
  {
    if more == [] {
      assert rs + more == rs;
    } else {
      var k := |more| - 1;
      AddAllStaysNone(fs, t, rs, more[..k]);
      AddAllSnoc(fs, t, rs + more[..k], more[k]);
      assert rs + more[..k] + [more[k]] == rs + more;
    }
  }

  // The requests of the first groups are the first requests.
  lemma {:induction false} RequestsExtend(parse: GroupParser, a: seq<seq<string>>, b: seq<seq<string>>)
    ensures RequestsOf(parse, a) == None ==> RequestsOf(parse, a + b) == None
    ensures RequestsOf(parse, a).Some? && RequestsOf(parse, a + b).Some? ==>
              RequestsOf(parse, a).value <= RequestsOf(parse, a + b).value
    decreases |b|
  {
    if b == [] {
      assert a + b == a;
    } else {
      var k := |b| - 1;
      RequestsExtend(parse, a, b[..k]);
      RequestsSnoc(parse, a + b[..k], b[k]);
      assert a + b[..k] + [b[k]] == a + b;
    }
  }

  // A failure among the first groups is a failure of the whole.
  lemma FailureIsFinal(fs: FileSystem, parse: GroupParser, platform: seq<Request>, a: seq<seq<string>>,
                       b: seq<seq<string>>)
    requires RequestsOf(parse, a) == None
          || AddAll(fs, EMPTY_TABLE, platform + RequestsOf(parse, a).value) == None
    ensures RequestsOf(parse, a + b) == None
         || AddAll(fs, EMPTY_TABLE, platform + RequestsOf(parse, a + b).value) == None
  {
    RequestsExtend(parse, a, b);
    if RequestsOf(parse, a).Some? && RequestsOf(parse, a + b).Some? {
      var rs, all := RequestsOf(parse, a).value, RequestsOf(parse, a + b).value;
      AddAllStaysNone(fs, EMPTY_TABLE, platform + rs, all[|rs|..]);
      assert platform + rs + all[|rs|..] == platform + all;
    }
  }

  lemma PlatformAlone(fs: FileSystem, parse: GroupParser, platform: seq<Request>, groups: seq<seq<string>>)
    ensures platform + RequestsOf(parse, []).value == platform && [] + groups == groups
    ensures AddAll(fs, EMPTY_TABLE, platform) == None ==>
              RequestsOf(parse, groups) == None
              || AddAll(fs, EMPTY_TABLE, platform + RequestsOf(parse, groups).value) == None
  {
    assert platform + [] == platform;
    if AddAll(fs, EMPTY_TABLE, platform) == None {
      FailureIsFinal(fs, parse, platform, [], groups);
      assert [] + groups == groups;
    }
  }

  // One group: split off, parsed and added.
  method AddGroup(fs: FileSystem, parse: GroupParser, builder: VendorRamdiskTableBuilder, group: seq<string>,
                  ghost platform: seq<Request>, ghost done: seq<seq<string>>)
    returns (s: Status, extra: seq<string>)
    requires RequestsOf(parse, done).Some?
    requires AddAll(fs, EMPTY_TABLE, platform + RequestsOf(parse, done).value) == Some(builder.Model())
    modifies builder
    ensures var rs := RequestsOf(parse, done + [group]);
            && (s.Ok? ==> rs.Some? && AddAll(fs, EMPTY_TABLE, platform + rs.value) == Some(builder.Model()))
            && (s.Raised? ==> rs == None || AddAll(fs, EMPTY_TABLE, platform + rs.value) == None)
    ensures s.Ok? ==> ExtrasOf(parse, done + [group]) == ExtrasOf(parse, done) + extra
  {
    RequestsSnoc(parse, done, group);
    extra := [];
    var parsed := parse(group);
    if parsed == None {
      s := Raised(ArgumentError);
      return;
    }
    ghost var rs := RequestsOf(parse, done).value;
    AddAllSnoc(fs, EMPTY_TABLE, platform + rs, parsed.value.request);
    assert platform + rs + [parsed.value.request] == platform + (rs + [parsed.value.request]);
    extra := parsed.value.extra;
    s := builder.AddEntry(fs, parsed.value.request);
  }

  lemma Regroup(done: seq<seq<string>>, group: seq<string>, rest: seq<seq<string>>)
    ensures done + ([group] + rest) == done + [group] + rest
  {}

  // The loop over the argument list. It accepts exactly when every group parses and every entry is acceptable;
  // then the builder holds the entries in order, and what no group knew is handed back.
  method ParseVendorRamdiskArgs(fs: FileSystem, parse: GroupParser, vendorRamdisk: Option<string>, args: seq<string>)
    returns (s: Status, builder: VendorRamdiskTableBuilder, unknown: seq<string>)
    ensures fresh(builder)
    ensures s.Ok? <==> TableFrom(fs, parse, vendorRamdisk, args).Some?
    ensures s.Ok? ==>
              && TableFrom(fs, parse, vendorRamdisk, args) == Some(builder.Model())
              && unknown == ExtrasOf(parse, Groups(args)) + Remainder(args)
  {
    unknown := [];
    builder := new VendorRamdiskTableBuilder();
    ghost var platform := PlatformRequests(vendorRamdisk);
    s := AddPlatform(fs, builder, vendorRamdisk);
    PlatformAlone(fs, parse, platform, Groups(args));
    if s.Raised? {
      return;
    }
    var argsList := args;
    ghost var done: seq<seq<string>> := [];
    while FRAGMENT in argsList
      invariant Groups(args) == done + Groups(argsList) && Remainder(args) == Remainder(argsList)
      invariant RequestsOf(parse, done).Some?
      invariant AddAll(fs, EMPTY_TABLE, platform + RequestsOf(parse, done).value) == Some(builder.Model())
      invariant unknown == ExtrasOf(parse, done)
      decreases |argsList|
    {
      var idx := GroupEnd(argsList);
      var group := argsList[..idx];
      ghost var rest := Groups(argsList[idx..]);
      var extra;
      s, extra := AddGroup(fs, parse, builder, group, platform, done);
      Regroup(done, group, rest);
      if s.Raised? {
        FailureIsFinal(fs, parse, platform, done + [group], rest);
        return;
      }
      unknown := unknown + extra;
      done := done + [group];
      argsList := argsList[idx..];
    }
    assert done + [] == done;
    unknown := unknown + argsList;
    s := Ok;
  }

  // The table has one entry per group, after the platform ramdisk if there is one, in the order given.
  lemma TableMatchesGroups(fs: FileSystem, parse: GroupParser, vendorRamdisk: Option<string>, args: seq<string>)
    requires TableFrom(fs, parse, vendorRamdisk, args).Some?
    ensures var t := TableFrom(fs, parse, vendorRamdisk, args).value;
            && TableInv(fs, t)
            && EntriesOf(t.entries, PlatformRequests(vendorRamdisk) + RequestsOf(parse, Groups(args)).value)
            && |t.entries| == |Groups(args)| + (if vendorRamdisk.Some? then 1 else 0)
  {
    var rs := RequestsOf(parse, Groups(args)).value;
    BuilderRuns(fs, PlatformRequests(vendorRamdisk) + rs);
    RequestCount(parse, Groups(args));
  }

  lemma {:induction false} RequestCount(parse: GroupParser, groups: seq<seq<string>>)
    requires RequestsOf(parse, groups).Some?
    ensures |RequestsOf(parse, groups).value| == |groups|
  {
    if groups != [] {
      RequestCount(parse, groups[..|groups| - 1]);
    }
  }

  // The group parser takes --ramdisk_name through AsciizBytes(32).
  ghost predicate BoundsNames(parse: GroupParser) {
    forall g :: parse(g).Some? ==> |parse(g).value.request.name| <= VENDOR_RAMDISK_NAME_SIZE
  }

  lemma {:induction false} RequestNamesBounded(parse: GroupParser, groups: seq<seq<string>>)
    requires BoundsNames(parse) && RequestsOf(parse, groups).Some?
    ensures forall r :: r in RequestsOf(parse, groups).value ==> |r.name| <= VENDOR_RAMDISK_NAME_SIZE
  {
    if groups != [] {
      RequestNamesBounded(parse, groups[..|groups| - 1]);
    }
  }

  lemma AllNamesBounded(parse: GroupParser, vendorRamdisk: Option<string>, groups: seq<seq<string>>, k: nat)
    requires BoundsNames(parse) && RequestsOf(parse, groups).Some?
    requires k < |PlatformRequests(vendorRamdisk) + RequestsOf(parse, groups).value|
    ensures |(PlatformRequests(vendorRamdisk) + RequestsOf(parse, groups).value)[k].name| <= VENDOR_RAMDISK_NAME_SIZE
  {
    RequestNamesBounded(parse, groups);
    var first, rest := PlatformRequests(vendorRamdisk), RequestsOf(parse, groups).value;
    if k >= |first| {
      assert (first + rest)[k] == rest[k - |first|];
    }
  }

  // So the names in any table built from a command line are pairwise different on disk, and none is the banned one.
  lemma NamesOnDisk(fs: FileSystem, parse: GroupParser, vendorRamdisk: Option<string>, args: seq<string>, i: nat,
                    j: nat)
    requires BoundsNames(parse) && TableFrom(fs, parse, vendorRamdisk, args).Some?
    requires var es := TableFrom(fs, parse, vendorRamdisk, args).value.entries;
             i < |es| && j < |es| && i != j
    ensures var es := TableFrom(fs, parse, vendorRamdisk, args).value.entries;
            && Fit(VENDOR_RAMDISK_NAME_SIZE, es[i].name) != Fit(VENDOR_RAMDISK_NAME_SIZE, es[j].name)
            && Fit(VENDOR_RAMDISK_NAME_SIZE, es[i].name) != Fit(VENDOR_RAMDISK_NAME_SIZE, BANNED_NAME)
  {
    var t := TableFrom(fs, parse, vendorRamdisk, args).value;
    var rs := PlatformRequests(vendorRamdisk) + RequestsOf(parse, Groups(args)).value;
    TableMatchesGroups(fs, parse, vendorRamdisk, args);
    AllNamesBounded(parse, vendorRamdisk, Groups(args), i);
    AllNamesBounded(parse, vendorRamdisk, Groups(args), j);
    assert MadeFrom(t.entries[i], rs[i]) && MadeFrom(t.entries[j], rs[j]);
    NamesDistinctOnDisk(t, i, j);
  }
}
