/** Removing and applying the Mu_Basecore patches around a build, over any sequence of interrupted builds. */
module PatchProtocol {
  import opened Outcomes

  // The files of the submodule by path.
  type Tree = map<string, string>

  // The content of each file a patch touches, before and after.
  datatype Patch = Patch(pre: Tree, post: Tree)

  // The patch files that are there.
  type Patches = map<string, Patch>

  const PATCH_NAMES: seq<string> := ["Auth-Service.patch", "Boot-Manager.patch", "Timer.patch", "Usb-Bus.patch"]

  predicate Matches(tree: Tree, part: Tree) {
    forall f :: f in part ==> f in tree && tree[f] == part[f]
  }

  // `git apply`, with -R if remove: all or nothing, and only where the files are as the patch expects.
  function GitApply(tree: Tree, p: Patch, remove: bool): (Tree, bool) {
    var from, to := if remove then p.post else p.pre, if remove then p.pre else p.post;
    if Matches(tree, from) then (tree + to, true) else (tree, false)
  }

  function HandlePatch(tree: Tree, patches: Patches, name: string, remove: bool): (Tree, bool) {
    if name in patches then GitApply(tree, patches[name], remove) else (tree, false)
  }

  // Patches change something, keep the set of files, and do not touch each other's files.
  ghost predicate Independent(patches: Patches) {
    && (forall n :: n in patches ==> patches[n].pre.Keys == patches[n].post.Keys && patches[n].pre != patches[n].post)
    && (forall n, m :: n in patches && m in patches && n != m ==> patches[n].pre.Keys !! patches[m].pre.Keys)
  }

  // A patch is either out or in, as a whole.
  predicate SettledFor(tree: Tree, p: Patch) {
    Matches(tree, p.pre) || Matches(tree, p.post)
  }

  predicate Settled(tree: Tree, patches: Patches) {
    forall n :: n in patches ==> SettledFor(tree, patches[n])
  }

  // ---------- the two loops ----------

  // The tree after the first k removals; their results are ignored.
  function Removed(tree: Tree, patches: Patches, names: seq<string>): Tree {
    if names == [] then tree
    else HandlePatch(Removed(tree, patches, names[..|names| - 1]), patches, names[|names| - 1], true).0
  }

  // The tree after applying, and whether all of it succeeded; a failure stops the loop.
  function Applied(tree: Tree, patches: Patches, names: seq<string>): (Tree, bool) {
    if names == [] then (tree, true)
    else
      var (front, ok) := Applied(tree, patches, names[..|names| - 1]);
      if ok then HandlePatch(front, patches, names[|names| - 1], false) else (front, false)
  }

  // The Mu_Basecore working tree.
  class Basecore {
    var tree: Tree

    method HandleGitPatch(patches: Patches, name: string, remove: bool) returns (ok: bool)
      modifies this
      ensures (tree, ok) == HandlePatch(old(tree), patches, name, remove)
    {
      if name !in patches {
        return false;
      }
      var p := patches[name];
      var from := if remove then p.post else p.pre;
      var to := if remove then p.pre else p.post;
      ok := Matches(tree, from);
      if ok {
        tree := tree + to;
      }
    }

    method RemovePatches(patches: Patches, names: seq<string>)
      modifies this
      ensures tree == Removed(old(tree), patches, names)
    {
      for i := 0 to |names|
        invariant tree == Removed(old(tree), patches, names[..i])
      {
        assert names[..i + 1][..i] == names[..i];
        var _ := HandleGitPatch(patches, names[i], true);
      }
      assert names[..|names|] == names;
    }

    method ApplyPatches(patches: Patches, names: seq<string>) returns (ok: bool)
      modifies this
      ensures (tree, ok) == Applied(old(tree), patches, names)
    {
      for i := 0 to |names|
        invariant (tree, true) == Applied(old(tree), patches, names[..i])
      {
        assert names[..i + 1][..i] == names[..i];
        ok := HandleGitPatch(patches, names[i], false);
        if !ok {
          FailureStays(old(tree), patches, names, i + 1);
          return;
        }
      }
      assert names[..|names|] == names;
      ok := true;
    }
  }

  // What an external command leaves behind; a failed one may have changed files too.
  datatype Outcome = Outcome(ok: bool, tree: Tree, patches: Patches)

  // The external commands of one build; None for one that is not run.
  datatype Externals = Externals(update: Option<Outcome>, shim: Option<bool>, prepare: Option<Outcome>)

  // Preparing the environment sets up the submodule and leaves the patch files alone.
  function PatchesBefore(patches: Patches, ext: Externals): Patches {
    match ext.update
    case None => patches
    case Some(u) => u.patches
  }

  // The tree the patches are applied to.
  function TreeBefore(removed: Tree, ext: Externals): Tree {
    match (ext.prepare, ext.update)
    case (Some(p), _) => p.tree
    case (None, Some(u)) => u.tree
    case (None, None) => removed
  }

  predicate ExternalsOk(ext: Externals) {
    && (ext.update.Some? ==> ext.update.value.ok)
    && (ext.shim.Some? ==> ext.shim.value)
    && (ext.prepare.Some? ==> ext.prepare.value.ok)
  }

  // The commands that are run; a failure ends the build.
  function Ran(ext: Externals): Externals {
    if ext.update.Some? && !ext.update.value.ok then ext.(shim := None, prepare := None)
    else if ext.shim == Some(false) then ext.(prepare := None)
    else ext
  }

  // The part of main between cleaning up and compiling. ready tells that compile_uefi is reached.
  method PrepareSources(core: Basecore, patches: Patches, ext: Externals) returns (ready: bool)
    modifies core
    ensures var base := TreeBefore(Removed(old(core.tree), patches, PATCH_NAMES), ext);
            var (tree, applied) := Applied(base, PatchesBefore(patches, ext), PATCH_NAMES);
            && (ready <==> ExternalsOk(ext) && applied)
            && (ExternalsOk(ext) ==> core.tree == tree)
    ensures !ExternalsOk(ext) ==> core.tree == TreeBefore(Removed(old(core.tree), patches, PATCH_NAMES), Ran(ext))
    ensures var present := if ext.update.Some? then ext.update.value.patches else patches;
            ready && Independent(present) ==> AllIn(core.tree, present, PATCH_NAMES)
    ensures var present := if ext.update.Some? then ext.update.value.patches else patches;
            Independent(patches) && Independent(present) ==>
              (ready <==>
                 && (ext.update.Some? ==> ext.update.value.ok) && ext.shim != Some(false)
                 && (ext.prepare.Some? ==> ext.prepare.value.ok)
                 && forall n :: n in PATCH_NAMES ==>
                      && n in present
                      && (if ext.prepare.Some? then Matches(ext.prepare.value.tree, present[n].pre)
                          else if ext.update.Some? then Matches(ext.update.value.tree, present[n].pre)
                          else SettledFor(old(core.tree), present[n])))
  {
    PreparedIff(core.tree, patches, ext);
    var present := patches;
    core.RemovePatches(present, PATCH_NAMES);
    if ext.update.Some? {
      core.tree := ext.update.value.tree;
      present := ext.update.value.patches;
      if !ext.update.value.ok {
        return false;
      }
    }
    if ext.shim == Some(false) {
      return false;
    }
    if ext.prepare.Some? {
      core.tree := ext.prepare.value.tree;
      if !ext.prepare.value.ok {
        return false;
      }
    }
    ready := core.ApplyPatches(present, PATCH_NAMES);
  }

  lemma {:induction false} FailureStays(tree: Tree, patches: Patches, names: seq<string>, i: nat)
    requires i <= |names| && !Applied(tree, patches, names[..i]).1
    ensures Applied(tree, patches, names) == Applied(tree, patches, names[..i])
  {
    if i == |names| {
      assert names[..i] == names;
    } else {
      var k := |names| - 1;
      assert names[..k][..i] == names[..i];
      FailureStays(tree, patches, names[..k], i);
    }
  }

  // ---------- what one patch command does to the others ----------

  lemma ApplyKeepsOther(tree: Tree, p: Patch, remove: bool, q: Patch)
    requires p.pre.Keys == p.post.Keys && q.pre.Keys == q.post.Keys && p.pre.Keys !! q.pre.Keys
    ensures var t := GitApply(tree, p, remove).0;
            && (Matches(t, q.pre) <==> Matches(tree, q.pre))
            && (Matches(t, q.post) <==> Matches(tree, q.post))
  {
    var to := if remove then p.pre else p.post;
    assert forall f :: f in q.pre ==> f !in to;
    assert forall f :: f in q.post ==> f !in to;
  }

  lemma HandleKeepsOther(tree: Tree, patches: Patches, n: string, remove: bool, m: string)
    requires Independent(patches) && m in patches && n != m
    ensures var t := HandlePatch(tree, patches, n, remove).0;
            && (Matches(t, patches[m].pre) <==> Matches(tree, patches[m].pre))
            && (Matches(t, patches[m].post) <==> Matches(tree, patches[m].post))
  {
    if n in patches {
      ApplyKeepsOther(tree, patches[n], remove, patches[m]);
    }
  }

  // No patch command leaves a patch half in.
  lemma HandleKeepsSettled(tree: Tree, patches: Patches, n: string, remove: bool)
    requires Independent(patches) && Settled(tree, patches)
    ensures Settled(HandlePatch(tree, patches, n, remove).0, patches)
  {
    var t := HandlePatch(tree, patches, n, remove).0;
    forall m | m in patches ensures SettledFor(t, patches[m]) {
      if m != n {
        HandleKeepsOther(tree, patches, n, remove, m);
      }
    }
  }

  predicate Distinct(names: seq<string>) {
    forall i, j :: 0 <= i < j < |names| ==> names[i] != names[j]
  }

  lemma DistinctFront(names: seq<string>)
    requires Distinct(names) && names != []
    ensures Distinct(names[..|names| - 1]) && names[|names| - 1] !in names[..|names| - 1]
  {}

  // Removing or applying some patches says nothing about the others.
  lemma {:induction false} RemovedKeepsOther(tree: Tree, patches: Patches, names: seq<string>, m: string)
    requires Independent(patches) && m in patches && m !in names
    ensures var t := Removed(tree, patches, names);
            && (Matches(t, patches[m].pre) <==> Matches(tree, patches[m].pre))
            && (Matches(t, patches[m].post) <==> Matches(tree, patches[m].post))
  {
    if names != [] {
      var k := |names| - 1;
      RemovedKeepsOther(tree, patches, names[..k], m);
      HandleKeepsOther(Removed(tree, patches, names[..k]), patches, names[k], true, m);
    }
  }

  lemma {:induction false} AppliedKeepsOther(tree: Tree, patches: Patches, names: seq<string>, m: string)
    requires Independent(patches) && m in patches && m !in names
    ensures var t := Applied(tree, patches, names).0;
            && (Matches(t, patches[m].pre) <==> Matches(tree, patches[m].pre))
            && (Matches(t, patches[m].post) <==> Matches(tree, patches[m].post))
  {
    if names != [] {
      var k := |names| - 1;
      AppliedKeepsOther(tree, patches, names[..k], m);
      HandleKeepsOther(Applied(tree, patches, names[..k]).0, patches, names[k], false, m);
    }
  }

  // ---------- what the loops achieve ----------

  lemma BothMatch(tree: Tree, p: Patch)
    requires p.pre.Keys == p.post.Keys && Matches(tree, p.pre) && Matches(tree, p.post)
    ensures p.pre == p.post
  {}

  lemma NotBoth(tree: Tree, patches: Patches, n: string)
    requires Independent(patches) && n in patches && Matches(tree, patches[n].pre)
    ensures !Matches(tree, patches[n].post)
  {
    if Matches(tree, patches[n].post) {
      BothMatch(tree, patches[n]);
    }
  }

  // After the removals a patch is out exactly when it was settled before them.
  lemma {:induction false} RemovedIsOut(tree: Tree, patches: Patches, names: seq<string>, n: string)
    requires Independent(patches) && Distinct(names) && n in names && n in patches
    ensures Matches(Removed(tree, patches, names), patches[n].pre) <==> SettledFor(tree, patches[n])
  {
    var k := |names| - 1;
    var front := Removed(tree, patches, names[..k]);
    DistinctFront(names);
    if n == names[k] {
      RemovedKeepsOther(tree, patches, names[..k], n);
      if Matches(front, patches[n].pre) {
        NotBoth(front, patches, n);
      }
    } else {
      RemovedIsOut(tree, patches, names[..k], n);
      HandleKeepsOther(front, patches, names[k], true, n);
    }
  }

  predicate AllOut(tree: Tree, patches: Patches, names: seq<string>) {
    forall n :: n in names ==> n in patches && Matches(tree, patches[n].pre)
  }

  predicate AllIn(tree: Tree, patches: Patches, names: seq<string>) {
    forall n :: n in names ==> n in patches && Matches(tree, patches[n].post)
  }

  // Applying succeeds exactly when every patch is there and out; then every patch is in.
  lemma {:induction false} AppliedIff(tree: Tree, patches: Patches, names: seq<string>)
    requires Independent(patches) && Distinct(names)
    ensures Applied(tree, patches, names).1 <==> AllOut(tree, patches, names)
    ensures Applied(tree, patches, names).1 ==> AllIn(Applied(tree, patches, names).0, patches, names)
  {
    if names != [] {
      var k := |names| - 1;
      var n := names[k];
      var front := Applied(tree, patches, names[..k]).0;
      DistinctFront(names);
      AppliedIff(tree, patches, names[..k]);
      assert names == names[..k] + [n];
      if n in patches {
        AppliedKeepsOther(tree, patches, names[..k], n);
        forall m | m in names[..k] && m in patches
          ensures Matches(HandlePatch(front, patches, n, false).0, patches[m].post) <==> Matches(front, patches[m].post)
        {
          HandleKeepsOther(front, patches, n, false, m);
        }
      }
    }
  }

  // A build that is not interrupted gets to compile exactly when every patch file is there and every patch is
  // wholly in or wholly out, whatever earlier builds left behind.
  lemma BuildReachesCompileIff(tree: Tree, patches: Patches, names: seq<string>)
    requires Independent(patches) && Distinct(names)
    ensures Applied(Removed(tree, patches, names), patches, names).1
       <==> forall n :: n in names ==> n in patches && SettledFor(tree, patches[n])
  {
    var t := Removed(tree, patches, names);
    AppliedIff(t, patches, names);
    forall n | n in names && n in patches
      ensures Matches(t, patches[n].pre) <==> SettledFor(tree, patches[n])
    {
      RemovedIsOut(tree, patches, names, n);
    }
  }

  // When the patches can all be applied, in terms of the tree that the last external command left, or of the tree
  // from before the removals where there was none.
  lemma PreparedIff(tree: Tree, patches: Patches, ext: Externals)
    ensures var present := PatchesBefore(patches, ext);
            var base := TreeBefore(Removed(tree, patches, PATCH_NAMES), ext);
            Independent(patches) && Independent(present) ==>
              (Applied(base, present, PATCH_NAMES).1
               <==> forall n :: n in PATCH_NAMES ==>
                      && n in present
                      && (if ext.prepare.Some? then Matches(ext.prepare.value.tree, present[n].pre)
                          else if ext.update.Some? then Matches(ext.update.value.tree, present[n].pre)
                          else SettledFor(tree, present[n])))
    ensures var present := PatchesBefore(patches, ext);
            var base := TreeBefore(Removed(tree, patches, PATCH_NAMES), ext);
            Independent(present) && Applied(base, present, PATCH_NAMES).1 ==>
              AllIn(Applied(base, present, PATCH_NAMES).0, present, PATCH_NAMES)
  {
    var present := PatchesBefore(patches, ext);
    var base := TreeBefore(Removed(tree, patches, PATCH_NAMES), ext);
    NamesDistinct();
    if Independent(present) {
      AppliedIff(base, present, PATCH_NAMES);
      if ext.update == None && ext.prepare == None {
        BuildReachesCompileIff(tree, present, PATCH_NAMES);
      }
    }
  }

  // ---------- files no patch touches ----------

  predicate Touched(patches: Patches, f: string) {
    exists n :: n in patches && f in patches[n].pre
  }

  ghost predicate SameElsewhere(t: Tree, u: Tree, patches: Patches) {
    forall f :: !Touched(patches, f) ==> (f in t <==> f in u) && (f in t ==> t[f] == u[f])
  }

  lemma HandleSameElsewhere(tree: Tree, patches: Patches, n: string, remove: bool)
    requires Independent(patches)
    ensures SameElsewhere(tree, HandlePatch(tree, patches, n, remove).0, patches)
  {
    if n in patches {
      assert forall f :: f in patches[n].pre ==> Touched(patches, f);
    }
  }

  lemma {:induction false} AppliedSameElsewhere(tree: Tree, patches: Patches, names: seq<string>)
    requires Independent(patches)
    ensures SameElsewhere(tree, Applied(tree, patches, names).0, patches)
  {
    if names != [] {
      var k := |names| - 1;
      AppliedSameElsewhere(tree, patches, names[..k]);
      HandleSameElsewhere(Applied(tree, patches, names[..k]).0, patches, names[k], false);
    }
  }

  // ---------- sequences of builds, interrupted anywhere ----------

  datatype Pc = Idle | Removing(k: nat) | Updating | Shim | Preparing | Applying(k: nat) | Compiling | Imaging

  // base is the tree as it was when the current build began to apply patches; patches are the files there now.
  datatype State = State(pc: Pc, tree: Tree, base: Tree, patches: Patches)

  // The steps of one build in order. An external command either succeeds or ends the build.
  predicate LocalStep(s: State, s': State) {
    match s.pc
    case Idle => s' == s.(pc := Removing(0))
    case Removing(k) =>
      if k < |PATCH_NAMES|
      then s' == s.(pc := Removing(k + 1), tree := HandlePatch(s.tree, s.patches, PATCH_NAMES[k], true).0)
      else s' == s.(pc := Updating)
    case Updating => s' == s.(pc := Shim)
    case Shim => s' == s.(pc := Preparing)
    case Preparing => s' == s.(pc := Applying(0), base := s.tree)
    case Applying(k) =>
      if k < |PATCH_NAMES|
      then
        var (tree, ok) := HandlePatch(s.tree, s.patches, PATCH_NAMES[k], false);
        s' == s.(pc := if ok then Applying(k + 1) else Idle, tree := tree)
      else s' == s.(pc := Compiling)
    case Compiling => s' == s.(pc := Imaging)
    case Imaging => s' == s.(pc := Idle)
  }

  // A build can end at any point: a failed command, or the process being killed.
  predicate Stop(s: State, s': State) {
    s' == s.(pc := Idle)
  }

  // Updating the repository or preparing the environment may check out other files, even when it fails. An update
  // may replace the patches as well.
  predicate UpstreamStep(s: State, s': State) {
    && (s.pc.Updating? || s.pc.Preparing?)
    && (s.pc.Preparing? ==> s'.patches == s.patches)
    && (s'.pc == Idle
        || (s.pc.Updating? && s'.pc == Shim)
        || (s.pc.Preparing? && s'.pc == Applying(0) && s'.base == s'.tree))
  }

  predicate Step(s: State, s': State) {
    LocalStep(s, s') || Stop(s, s') || UpstreamStep(s, s')
  }

  ghost predicate Run(run: seq<State>) {
    && run != [] && run[0].pc == Idle
    && forall i :: 0 <= i < |run| - 1 ==> Step(run[i], run[i + 1])
  }

  // Wherever a run is, the build can be stopped there, and an update can bring any tree and any patches.
  lemma AnythingCanHappen(run: seq<State>, tree: Tree, patches: Patches)
    requires Run(run)
    ensures var last := run[|run| - 1]; (
            && Run(run + [last.(pc := Idle)])
            && (last.pc == Updating ==>
                  && Run(run + [last.(pc := Shim, tree := tree, patches := patches)])
                  && Run(run + [last.(pc := Idle, tree := tree, patches := patches)])))
  {
    var last := run[|run| - 1];
    RunExtends(run, last.(pc := Idle));
    if last.pc == Updating {
      RunExtends(run, last.(pc := Shim, tree := tree, patches := patches));
      RunExtends(run, last.(pc := Idle, tree := tree, patches := patches));
    }
  }

  lemma RunExtends(run: seq<State>, s: State)
    requires Run(run) && Step(run[|run| - 1], s)
    ensures Run(run + [s])
  {
    var more := run + [s];
    forall i | 0 <= i < |more| - 1 ensures Step(more[i], more[i + 1]) {
      assert i < |run| - 1 ==> Step(run[i], run[i + 1]);
    }
  }

  // While patches are being applied, the tree is the base with exactly the patches so far.
  predicate Inv(s: State) {
    match s.pc
    case Applying(k) => k <= |PATCH_NAMES| && Applied(s.base, s.patches, PATCH_NAMES[..k]) == (s.tree, true)
    case Compiling => Applied(s.base, s.patches, PATCH_NAMES) == (s.tree, true)
    case Imaging => Applied(s.base, s.patches, PATCH_NAMES) == (s.tree, true)
    case _ => true
  }

  lemma StepKeepsInv(s: State, s': State)
    requires Inv(s) && Step(s, s')
    ensures Inv(s')
  {
    if s.pc.Applying? && s.pc.k < |PATCH_NAMES| {
      var k := s.pc.k;
      assert PATCH_NAMES[..k + 1][..k] == PATCH_NAMES[..k];
    }
    assert PATCH_NAMES[..|PATCH_NAMES|] == PATCH_NAMES;
    assert PATCH_NAMES[..0] == [];
  }

  lemma {:induction false} RunKeepsInv(run: seq<State>, i: nat)
    requires Run(run) && i < |run|
    ensures Inv(run[i])
  {
    if i > 0 {
      RunKeepsInv(run, i - 1);
      StepKeepsInv(run[i - 1], run[i]);
    }
  }

  lemma NamesDistinct()
    ensures PATCH_NAMES == ["Auth-Service.patch", "Boot-Manager.patch", "Timer.patch", "Usb-Bus.patch"]
    ensures Distinct(PATCH_NAMES)
  {
    assert PATCH_NAMES[0][0] == 'A' && PATCH_NAMES[1][0] == 'B' && PATCH_NAMES[2][0] == 'T' && PATCH_NAMES[3][0] == 'U';
  }

  // Safety over any sequence of builds, updates and interruptions, from any tree and with patches that updates may
  // replace: whenever UEFI is compiled, every patch there is now was out when applying began and is in now, and no
  // other file has changed since.
  lemma CompileSeesEveryPatchOnce(run: seq<State>, i: nat)
    requires Run(run) && i < |run| && run[i].pc == Compiling && Independent(run[i].patches)
    ensures AllOut(run[i].base, run[i].patches, PATCH_NAMES) && AllIn(run[i].tree, run[i].patches, PATCH_NAMES)
    ensures SameElsewhere(run[i].base, run[i].tree, run[i].patches)
  {
    AppliedSameElsewhere(run[i].base, run[i].patches, PATCH_NAMES);
    RunKeepsInv(run, i);
    NamesDistinct();
    AppliedIff(run[i].base, run[i].patches, PATCH_NAMES);
  }

  // At every point the patch files are independent of each other.
  ghost predicate AlwaysIndependent(run: seq<State>) {
    forall i :: 0 <= i < |run| ==> Independent(run[i].patches)
  }

  // The updates in a run leave no patch half in.
  ghost predicate UpdatesSettle(run: seq<State>) {
    forall i :: 0 < i < |run| && UpstreamStep(run[i - 1], run[i]) ==> Settled(run[i].tree, run[i].patches)
  }

  lemma StepKeepsSettled(s: State, s': State)
    requires Independent(s.patches) && Settled(s.tree, s.patches) && Step(s, s')
    requires UpstreamStep(s, s') ==> Settled(s'.tree, s'.patches)
    ensures Settled(s'.tree, s'.patches)
  {
    match s.pc
    case Removing(k) =>
      if k < |PATCH_NAMES| {
        HandleKeepsSettled(s.tree, s.patches, PATCH_NAMES[k], true);
      }
    case Applying(k) =>
      if k < |PATCH_NAMES| {
        HandleKeepsSettled(s.tree, s.patches, PATCH_NAMES[k], false);
      }
    case _ =>
  }

  lemma {:induction false} RunKeepsSettled(run: seq<State>, i: nat)
    requires Run(run) && AlwaysIndependent(run) && UpdatesSettle(run) && i < |run|
    requires Settled(run[0].tree, run[0].patches)
    ensures Settled(run[i].tree, run[i].patches)
  {
    if i > 0 {
      RunKeepsSettled(run, i - 1);
      StepKeepsSettled(run[i - 1], run[i]);
    }
  }

  // ---------- one build that is not interrupted ----------

  // A step that does not end the build early; an update or a preparation that goes through leaves every patch out.
  predicate Proceeds(s: State, s': State) {
    || LocalStep(s, s')
    || (UpstreamStep(s, s') && s'.pc != Idle && AllOut(s'.tree, s'.patches, PATCH_NAMES))
  }

  ghost predicate Uninterrupted(run: seq<State>, i: nat, n: nat) {
    i + n < |run| && forall j :: i <= j < i + n ==> Proceeds(run[j], run[j + 1])
  }

  // After the first steps of a build, k patches have been removed.
  lemma {:induction false} BuildRemoves(run: seq<State>, i: nat, k: nat)
    requires Uninterrupted(run, i, k + 1) && run[i].pc == Idle && k <= |PATCH_NAMES|
    ensures run[i + 1 + k]
         == run[i].(pc := Removing(k), tree := Removed(run[i].tree, run[i].patches, PATCH_NAMES[..k]))
  {
    assert Proceeds(run[i + k], run[i + k + 1]);
    if k > 0 {
      BuildRemoves(run, i, k - 1);
      assert PATCH_NAMES[..k][..k - 1] == PATCH_NAMES[..k - 1];
    } else {
      assert PATCH_NAMES[..0] == [];
    }
  }

  // k steps after applying has begun: the first k patches are in, or one has failed and a next build is removing.
  lemma {:induction false} BuildApplies(run: seq<State>, m: nat, k: nat)
    requires Uninterrupted(run, m, k) && run[m].pc == Applying(0) && k <= |PATCH_NAMES|
    ensures var s := run[m];
            var (tree, ok) := Applied(s.tree, s.patches, PATCH_NAMES[..k]);
            if ok then run[m + k] == s.(pc := Applying(k), tree := tree)
            else run[m + k].pc == Idle || (run[m + k].pc.Removing? && run[m + k].pc.k + 2 <= k)
  {
    if k > 0 {
      assert Proceeds(run[m + k - 1], run[m + k]);
      BuildApplies(run, m, k - 1);
      assert PATCH_NAMES[..k][..k - 1] == PATCH_NAMES[..k - 1];
    } else {
      assert PATCH_NAMES[..0] == [];
    }
  }

  // Five steps after applying has begun the build compiles, exactly when all patches could be applied.
  lemma BuildCompilesIff(run: seq<State>, m: nat)
    requires Uninterrupted(run, m, 5) && run[m].pc == Applying(0)
    ensures run[m + 5].pc == Compiling <==> Applied(run[m].tree, run[m].patches, PATCH_NAMES).1
    ensures run[m + 5].pc == Compiling ==> run[m + 5].tree == Applied(run[m].tree, run[m].patches, PATCH_NAMES).0
  {
    assert Proceeds(run[m + 4], run[m + 5]);
    BuildApplies(run, m, 4);
    assert PATCH_NAMES[..4] == PATCH_NAMES;
  }

  // The steps before applying, where nothing comes from upstream.
  lemma LocalBuildBegins(run: seq<State>, i: nat)
    requires Uninterrupted(run, i, 14) && run[i].pc == Idle
    requires forall j :: i <= j < i + 14 ==> LocalStep(run[j], run[j + 1])
    ensures run[i + 9].pc == Applying(0) && run[i + 9].patches == run[i].patches
    ensures run[i + 9].tree == Removed(run[i].tree, run[i].patches, PATCH_NAMES)
  {
    BuildRemoves(run, i, 4);
    assert PATCH_NAMES[..4] == PATCH_NAMES;
    assert LocalStep(run[i + 5], run[i + 6]) && LocalStep(run[i + 6], run[i + 7]);
    assert LocalStep(run[i + 7], run[i + 8]) && LocalStep(run[i + 8], run[i + 9]);
  }

  // A build in a run, with its fourteen steps up to compiling uninterrupted and without updates, compiles exactly
  // when every patch file is there and every patch is wholly in or wholly out when it starts.
  lemma BuildInRunCompilesIff(run: seq<State>, i: nat)
    requires i + 14 < |run| && run[i].pc == Idle && Independent(run[i].patches)
    requires forall j :: i <= j < i + 14 ==> LocalStep(run[j], run[j + 1])
    ensures run[i + 14].pc == Compiling
       <==> forall n :: n in PATCH_NAMES ==> n in run[i].patches && SettledFor(run[i].tree, run[i].patches[n])
    ensures run[i + 14].pc == Compiling ==>
              run[i + 14].tree
              == Applied(Removed(run[i].tree, run[i].patches, PATCH_NAMES), run[i].patches, PATCH_NAMES).0
  {
    NamesDistinct();
    LocalBuildBegins(run, i);
    BuildCompilesIff(run, i + 9);
    BuildReachesCompileIff(run[i].tree, run[i].patches, PATCH_NAMES);
  }

  // The steps before applying leave every patch out, whether or not there was an update among them.
  lemma BuildBegins(run: seq<State>, i: nat)
    requires Uninterrupted(run, i, 9) && run[i].pc == Idle
    requires AllOut(Removed(run[i].tree, run[i].patches, PATCH_NAMES), run[i].patches, PATCH_NAMES)
    ensures run[i + 9].pc == Applying(0) && AllOut(run[i + 9].tree, run[i + 9].patches, PATCH_NAMES)
  {
    BuildRemoves(run, i, 4);
    assert PATCH_NAMES[..4] == PATCH_NAMES;
    assert Proceeds(run[i + 5], run[i + 6]) && Proceeds(run[i + 6], run[i + 7]);
    assert Proceeds(run[i + 7], run[i + 8]) && Proceeds(run[i + 8], run[i + 9]);
  }

  lemma AllOutAfterRemovals(tree: Tree, patches: Patches)
    requires Independent(patches) && Settled(tree, patches) && forall n :: n in PATCH_NAMES ==> n in patches
    ensures AllOut(Removed(tree, patches, PATCH_NAMES), patches, PATCH_NAMES)
  {
    NamesDistinct();
    forall n | n in PATCH_NAMES
      ensures Matches(Removed(tree, patches, PATCH_NAMES), patches[n].pre)
    {
      RemovedIsOut(tree, patches, PATCH_NAMES, n);
    }
  }

  // Wherever earlier builds were interrupted, and whether or not this one updates first, a build that starts at
  // point i of a run and is not interrupted compiles with every patch in.
  lemma EveryInterruptionIsRecovered(run: seq<State>, i: nat)
    requires Run(run) && AlwaysIndependent(run) && UpdatesSettle(run) && Settled(run[0].tree, run[0].patches)
    requires Uninterrupted(run, i, 14) && run[i].pc == Idle
    requires forall n :: n in PATCH_NAMES ==> n in run[i].patches
    ensures run[i + 14].pc == Compiling && AllIn(run[i + 14].tree, run[i + 14].patches, PATCH_NAMES)
  {
    RunKeepsSettled(run, i);
    NamesDistinct();
    AllOutAfterRemovals(run[i].tree, run[i].patches);
    BuildBegins(run, i);
    AppliedIff(run[i + 9].tree, run[i + 9].patches, PATCH_NAMES);
    BuildCompilesIff(run, i + 9);
    CompileSeesEveryPatchOnce(run, i + 14);
  }

  // ---------- builds without updates ----------

  ghost predicate NoUpdates(run: seq<State>, i: nat)
    requires i < |run|
  {
    forall j :: 0 < j <= i ==> LocalStep(run[j - 1], run[j]) || Stop(run[j - 1], run[j])
  }

  lemma LocalStepSameElsewhere(s: State, s': State)
    requires Independent(s.patches) && (LocalStep(s, s') || Stop(s, s'))
    ensures s'.patches == s.patches && SameElsewhere(s.tree, s'.tree, s.patches)
  {
    if (s.pc.Removing? || s.pc.Applying?) && s.pc.k < |PATCH_NAMES| {
      HandleSameElsewhere(s.tree, s.patches, PATCH_NAMES[s.pc.k], s.pc.Removing?);
    }
  }

  // Without updates, patches and the files no patch touches never change...
  lemma {:induction false} RunSameElsewhere(run: seq<State>, i: nat)
    requires Run(run) && i < |run| && NoUpdates(run, i) && Independent(run[0].patches)
    ensures run[i].patches == run[0].patches && SameElsewhere(run[0].tree, run[i].tree, run[0].patches)
  {
    if i > 0 {
      RunSameElsewhere(run, i - 1);
      LocalStepSameElsewhere(run[i - 1], run[i]);
    }
  }

  // ...so every compilation sees the same files.
  lemma CompilationsAgree(run: seq<State>, i: nat, j: nat)
    requires Run(run) && i <= j < |run| && NoUpdates(run, j) && Independent(run[0].patches)
    requires forall n :: n in run[0].patches ==> n in PATCH_NAMES
    requires run[i].pc == Compiling && run[j].pc == Compiling
    ensures run[i].tree == run[j].tree
  {
    RunSameElsewhere(run, i);
    RunSameElsewhere(run, j);
    CompileSeesEveryPatchOnce(run, i);
    CompileSeesEveryPatchOnce(run, j);
    TreesAgree(run[0].tree, run[i].tree, run[j].tree, run[0].patches);
  }

  lemma TreesAgree(start: Tree, t: Tree, u: Tree, patches: Patches)
    requires Independent(patches) && forall n :: n in patches ==> n in PATCH_NAMES
    requires SameElsewhere(start, t, patches) && SameElsewhere(start, u, patches)
    requires AllIn(t, patches, PATCH_NAMES) && AllIn(u, patches, PATCH_NAMES)
    ensures t == u
  {
    forall f
      ensures (f in t <==> f in u) && (f in t ==> t[f] == u[f])
    {
      if Touched(patches, f) {
        var n :| n in patches && f in patches[n].pre;
        assert f in patches[n].post;
      }
    }
  }
}
