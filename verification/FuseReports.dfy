/** Merging of lists of stale units, and the report of configured roots. */
module FuseReports {
  import opened Wrappers
  import opened FuseUnitFile
  import opened FuseUnits
  import opened Paths
  import RootIds
  import opened SortedMaps
  import Utf8

  // ---------------------------------------------------------------- merging

  function Named(units: seq<StaleUnit>, name: string): seq<StaleUnit> {
    if units == [] then []
    else (if units[0].unitName == name then [units[0]] else []) + Named(units[1..], name)
  }

  function FirstMountpoint(units: seq<StaleUnit>): Option<string> {
    if units == [] then None
    else if units[0].mountpoint.Some? then units[0].mountpoint
    else FirstMountpoint(units[1..])
  }

  predicate AnyLegacy(units: seq<StaleUnit>) {
    exists i :: 0 <= i < |units| && units[i].legacy
  }

  /** What a group of units of one name becomes. */
  function Merged(units: seq<StaleUnit>): Option<StaleUnit> {
    if units == [] then None
    else Some(StaleUnit(units[0].unitName, units[0].unitPath, FirstMountpoint(units), AnyLegacy(units)))
  }

  lemma {:induction false} NamedAppend(units: seq<StaleUnit>, unit: StaleUnit, name: string)
    ensures Named(units + [unit], name) == Named(units, name) + (if unit.unitName == name then [unit] else [])
  {
    if units == [] {
      assert [unit][1..] == [];
      assert [] + [unit] == [unit];
    } else {
      var all := units + [unit];
      assert all[0] == units[0] && all[1..] == units[1..] + [unit];
      NamedAppend(units[1..], unit, name);
      var head := if units[0].unitName == name then [units[0]] else [];
      var last := if unit.unitName == name then [unit] else [];
      assert Named(all, name) == head + (Named(units[1..], name) + last);
      assert head + (Named(units[1..], name) + last) == (head + Named(units[1..], name)) + last;
    }
  }

  lemma {:induction false} FirstMountpointAppend(units: seq<StaleUnit>, unit: StaleUnit)
    ensures FirstMountpoint(units + [unit])
         == if FirstMountpoint(units).Some? then FirstMountpoint(units) else unit.mountpoint
  {
    if units == [] {
      assert [unit][1..] == [] && [] + [unit] == [unit];
    } else {
      assert (units + [unit])[1..] == units[1..] + [unit];
      FirstMountpointAppend(units[1..], unit);
    }
  }

  lemma MergedAppend(units: seq<StaleUnit>, unit: StaleUnit)
    requires units != []
    ensures Merged(units + [unit])
         == Some(StaleUnit(units[0].unitName, units[0].unitPath,
                           if FirstMountpoint(units).Some? then FirstMountpoint(units) else unit.mountpoint,
                           AnyLegacy(units) || unit.legacy))
  {
    FirstMountpointAppend(units, unit);
    var all := units + [unit];
    assert all[|units|] == unit && forall i :: 0 <= i < |units| ==> all[i] == units[i];
  }

  lemma {:induction false} NamedHaveTheName(units: seq<StaleUnit>, name: string)
    ensures forall i :: 0 <= i < |Named(units, name)| ==> Named(units, name)[i].unitName == name
  {
    if units != [] {
      NamedHaveTheName(units[1..], name);
    }
  }

  ghost predicate AscendingNames(units: seq<StaleUnit>) {
    forall i, j :: 0 <= i < j < |units| ==> StringLess(units[i].unitName, units[j].unitName)
  }

  /** One unit for each name that occurs, in ascending order of the names. It takes its path from the
      first of its name and the first known mountpoint of its name, and is legacy if any of its name is. */
  ghost predicate IsMergeOf(result: seq<StaleUnit>, units: seq<StaleUnit>) {
    && AscendingNames(result)
    && (forall i :: 0 <= i < |result| ==> Merged(Named(units, result[i].unitName)) == Some(result[i]))
    && (forall name :: Named(units, name) != [] ==> exists i :: 0 <= i < |result| && result[i].unitName == name)
  }

  /** The map holds, for each name, what the units of that name become. */
  ghost predicate Combines(combined: seq<(string, StaleUnit)>, units: seq<StaleUnit>) {
    && Ascending(combined, StringLess)
    && forall name :: Find(combined, name) == Merged(Named(units, name))
  }

  /** What an entry of the map becomes when one more unit of its name arrives. */
  function Updated(entry: Option<StaleUnit>, unit: StaleUnit): StaleUnit {
    if entry.None? then unit
    else entry.value.(legacy := entry.value.legacy || unit.legacy,
                      mountpoint := if entry.value.mountpoint.None? then unit.mountpoint else entry.value.mountpoint)
  }

  lemma CombineOneMore(combined: seq<(string, StaleUnit)>, units: seq<StaleUnit>, unit: StaleUnit)
    requires Combines(combined, units)
    ensures Combines(Put(combined, unit.unitName, Updated(Find(combined, unit.unitName), unit), StringLess), units + [unit])
  {
    var updated := Updated(Find(combined, unit.unitName), unit);
    StringLessIsStrictTotalOrder();
    PutKeepsAscending(combined, unit.unitName, updated, StringLess);
    forall name
      ensures Find(Put(combined, unit.unitName, updated, StringLess), name) == Merged(Named(units + [unit], name))
    {
      NamedAppend(units, unit, name);
      PutFind(combined, unit.unitName, updated, StringLess, name);
      if name == unit.unitName {
        MergeOneMore(Named(units, name), unit);
      } else {
        assert Named(units, name) + [] == Named(units, name);
      }
    }
  }

  function Values<K, V>(m: seq<(K, V)>): (values: seq<V>)
    ensures |values| == |m| && forall k :: 0 <= k < |m| ==> values[k] == m[k].1
  {
    if m == [] then [] else [m[0].1] + Values(m[1..])
  }

  lemma CombinedIsMerge(combined: seq<(string, StaleUnit)>, units: seq<StaleUnit>)
    requires Combines(combined, units)
    ensures IsMergeOf(Values(combined), units)
  {
    var result := Values(combined);
    StringLessIsStrictTotalOrder();
    forall k | 0 <= k < |combined|
      ensures combined[k].1.unitName == combined[k].0 && Merged(Named(units, combined[k].0)) == Some(combined[k].1)
    {
      FindInAscending(combined, k, StringLess);
      NamedHaveTheName(units, combined[k].0);
    }
    forall name | Named(units, name) != [] ensures exists k :: 0 <= k < |result| && result[k].unitName == name {
      FindIsMembership(combined, name);
      var k :| 0 <= k < |combined| && combined[k].0 == name;
      assert result[k].unitName == name;
    }
  }

  /** `combine_stale_linux_fuse_units`. */
  method CombineStale(left: seq<StaleUnit>, right: seq<StaleUnit>) returns (result: seq<StaleUnit>)
    ensures IsMergeOf(result, left + right)
  {
    var units := left + right;
    var combined: seq<(string, StaleUnit)> := [];
    for i := 0 to |units|
      invariant Combines(combined, units[..i])
    {
      var unit := units[i];
      var updated := unit;
      var entry := Find(combined, unit.unitName);
      if entry.Some? {
        var existing := entry.value;
        existing := existing.(legacy := existing.legacy || unit.legacy);
        if existing.mountpoint.None? {
          existing := existing.(mountpoint := unit.mountpoint);
        }
        updated := existing;
      }
      CombineOneMore(combined, units[..i], unit);
      assert units[..i + 1] == units[..i] + [unit];
      combined := Put(combined, unit.unitName, updated, StringLess);
    }
    assert units[..|units|] == units;
    CombinedIsMerge(combined, units);
    result := Values(combined);
  }

  lemma MergeOneMore(before: seq<StaleUnit>, unit: StaleUnit)
    ensures Merged(before + [unit]) == if before == [] then Some(unit) else
              var e := Merged(before).value;
              Some(e.(legacy := e.legacy || unit.legacy,
                      mountpoint := if e.mountpoint.None? then unit.mountpoint else e.mountpoint))
  {
    if before == [] {
      var one := before + [unit];
      assert one == [unit] && one[1..] == [];
      assert FirstMountpoint(one) == unit.mountpoint;
      assert one[0].legacy == unit.legacy;
    } else {
      MergedAppend(before, unit);
    }
  }

  lemma {:induction false} NamedInAscending(units: seq<StaleUnit>, k: nat)
    requires forall i, j :: 0 <= i < j < |units| ==> StringLess(units[i].unitName, units[j].unitName)
    requires k < |units|
    ensures Named(units, units[k].unitName) == [units[k]]
  {
    StringLessIsStrictTotalOrder();
    if k == 0 {
      NamedIsEmptyWithout(units[1..], units[0].unitName);
    } else {
      assert units[k] == units[1..][k - 1];
      NamedInAscending(units[1..], k - 1);
    }
  }

  lemma {:induction false} NamedIsEmptyWithout(units: seq<StaleUnit>, name: string)
    requires forall i :: 0 <= i < |units| ==> units[i].unitName != name
    ensures Named(units, name) == []
  {
    if units != [] {
      NamedIsEmptyWithout(units[1..], name);
    }
  }

  /** Merging a merged list again changes nothing. */
  lemma MergeIsIdempotent(result: seq<StaleUnit>, units: seq<StaleUnit>)
    requires IsMergeOf(result, units)
    ensures IsMergeOf(result, result)
  {
    forall k | 0 <= k < |result| ensures Merged(Named(result, result[k].unitName)) == Some(result[k]) {
      NamedInAscending(result, k);
      MergeOneMore([], result[k]);
      assert [] + [result[k]] == [result[k]];
    }
    forall name | Named(result, name) != [] ensures exists i :: 0 <= i < |result| && result[i].unitName == name {
      if forall i :: 0 <= i < |result| ==> result[i].unitName != name {
        NamedIsEmptyWithout(result, name);
        assert false;
      }
    }
  }

  predicate NameBefore(u: StaleUnit, v: StaleUnit) {
    StringLess(u.unitName, v.unitName)
  }

  lemma NameBeforeIsStrict()
    ensures StrictOrder(NameBefore)
  {
    StringLessIsStrictTotalOrder();
    forall u, v, w | NameBefore(u, v) && NameBefore(v, w) ensures NameBefore(u, w) {
      assert StringLess(u.unitName, v.unitName) && StringLess(v.unitName, w.unitName);
    }
  }

  /** A unit of one merge of a list is in every merge of that list. */
  lemma MergeHoldsUnit(a: seq<StaleUnit>, b: seq<StaleUnit>, units: seq<StaleUnit>, unit: StaleUnit)
    requires IsMergeOf(a, units) && IsMergeOf(b, units) && unit in a
    ensures unit in b
  {
    assert Merged(Named(units, unit.unitName)) == Some(unit);
    var k :| 0 <= k < |b| && b[k].unitName == unit.unitName;
    assert Merged(Named(units, b[k].unitName)) == Some(b[k]);
  }

  /** The contract of the merge leaves no choice: there is only one merge of a list. */
  lemma MergeIsUnique(a: seq<StaleUnit>, b: seq<StaleUnit>, units: seq<StaleUnit>)
    requires IsMergeOf(a, units) && IsMergeOf(b, units)
    ensures a == b
  {
    forall unit ensures unit in a <==> unit in b {
      if unit in a {
        MergeHoldsUnit(a, b, units, unit);
      }
      if unit in b {
        MergeHoldsUnit(b, a, units, unit);
      }
    }
    NameBeforeIsStrict();
    AscendingListsAreEqual(a, b, NameBefore);
  }

  // ---------------------------------------------------------------- what a merged unit says

  /** Unit i is the first of the name. */
  ghost predicate IsFirstOf(units: seq<StaleUnit>, i: nat, name: string) {
    i < |units| && units[i].unitName == name && forall j: nat :: j < i ==> units[j].unitName != name
  }

  /** Unit i is the first of the name whose mountpoint is known. */
  ghost predicate IsFirstKnownOf(units: seq<StaleUnit>, i: nat, name: string) {
    && i < |units| && units[i].unitName == name && units[i].mountpoint.Some?
    && forall j: nat :: j < i && units[j].unitName == name ==> units[j].mountpoint.None?
  }

  lemma {:induction false} NamedHolds(units: seq<StaleUnit>, name: string, unit: StaleUnit)
    ensures unit in Named(units, name) <==> unit in units && unit.unitName == name
  {
    if units != [] {
      assert units == [units[0]] + units[1..];
      NamedHolds(units[1..], name, unit);
    }
  }

  lemma {:induction false} NamedStartsWithFirst(units: seq<StaleUnit>, i: nat, name: string)
    requires IsFirstOf(units, i, name)
    ensures Named(units, name) != [] && Named(units, name)[0] == units[i]
  {
    if i > 0 {
      assert units[0].unitName != name;
      assert forall j: nat :: j < i - 1 ==> units[1..][j] == units[j + 1];
      NamedStartsWithFirst(units[1..], i - 1, name);
    }
  }

  lemma {:induction false} MountpointOfFirstKnown(units: seq<StaleUnit>, i: nat, name: string)
    requires IsFirstKnownOf(units, i, name)
    ensures FirstMountpoint(Named(units, name)) == units[i].mountpoint
  {
    if i == 0 {
      assert Named(units, name)[0] == units[0];
    } else {
      assert forall j: nat :: j < i - 1 ==> units[1..][j] == units[j + 1];
      MountpointOfFirstKnown(units[1..], i - 1, name);
      if units[0].unitName == name {
        assert Named(units, name)[1..] == Named(units[1..], name);
      } else {
        assert Named(units, name) == Named(units[1..], name);
      }
    }
  }

  lemma {:induction false} NoKnownMountpoint(units: seq<StaleUnit>)
    requires forall unit :: unit in units ==> unit.mountpoint.None?
    ensures FirstMountpoint(units) == None
  {
    if units != [] {
      assert units[0] in units;
      NoKnownMountpoint(units[1..]);
    }
  }

  /** What a merge says of each name: the path of the first unit of the name, legacy if any of them is, and
      the mountpoint of the first of them that knows one. */
  lemma MergedUnitSays(result: seq<StaleUnit>, units: seq<StaleUnit>, merged: StaleUnit)
    requires IsMergeOf(result, units) && merged in result
    ensures merged.legacy <==> exists unit :: unit in units && unit.unitName == merged.unitName && unit.legacy
    ensures forall i: nat :: IsFirstOf(units, i, merged.unitName) ==> merged.unitPath == units[i].unitPath
    ensures forall i: nat :: IsFirstKnownOf(units, i, merged.unitName) ==> merged.mountpoint == units[i].mountpoint
    ensures (forall unit :: unit in units && unit.unitName == merged.unitName ==> unit.mountpoint.None?) ==> merged.mountpoint == None
  {
    var name := merged.unitName;
    var named := Named(units, name);
    assert Merged(named) == Some(merged);
    forall unit ensures unit in named <==> unit in units && unit.unitName == name {
      NamedHolds(units, name, unit);
    }
    forall i: nat | IsFirstOf(units, i, name) ensures merged.unitPath == units[i].unitPath {
      NamedStartsWithFirst(units, i, name);
    }
    forall i: nat | IsFirstKnownOf(units, i, name) ensures merged.mountpoint == units[i].mountpoint {
      MountpointOfFirstKnown(units, i, name);
    }
    if forall unit :: unit in units && unit.unitName == name ==> unit.mountpoint.None? {
      NoKnownMountpoint(named);
    }
    AnyLegacyIff(named);
  }

  lemma AnyLegacyIff(units: seq<StaleUnit>)
    ensures AnyLegacy(units) <==> exists unit :: unit in units && unit.legacy
  {
    if unit :| unit in units && unit.legacy {
      var i :| 0 <= i < |units| && units[i] == unit;
      assert units[i].legacy;
    }
  }

  // ---------------------------------------------------------------- root reports

  datatype RootReport = RootReport(rootId: string, service: string, mountpoint: string, stateDir: string,
                                   mountIds: seq<string>, registered: bool, active: Option<bool>, unitPath: Option<string>)

  predicate IsMountOf(mount: MountConfig, root: seq<Component>) {
    mount.projection == LinuxFuse && Components(mount.projectionRoot) == root
  }

  function IfMountOf(mount: MountConfig, root: seq<Component>): seq<MountConfig> {
    if IsMountOf(mount, root) then [mount] else []
  }

  /** The FUSE mounts of one root, in configuration order. Roots are compared as paths, so the mounts of
      one root may spell it differently. */
  function MountsOf(mounts: seq<MountConfig>, root: seq<Component>): seq<MountConfig> {
    if mounts == [] then [] else IfMountOf(mounts[0], root) + MountsOf(mounts[1..], root)
  }

  function Ids(mounts: seq<MountConfig>): (ids: seq<string>)
    ensures |ids| == |mounts| && forall i :: 0 <= i < |ids| ==> ids[i] == mounts[i].mountId
  {
    if mounts == [] then [] else [mounts[0].mountId] + Ids(mounts[1..])
  }

  /** What the map holds for a root: its first spelling, and its ids. */
  function Group(members: seq<MountConfig>): Option<(string, seq<string>)> {
    if members == [] then None else Some((members[0].projectionRoot, Ids(members)))
  }

  lemma {:induction false} MountsOfAppend(mounts: seq<MountConfig>, mount: MountConfig, root: seq<Component>)
    ensures MountsOf(mounts + [mount], root) == MountsOf(mounts, root) + IfMountOf(mount, root)
  {
    var all := mounts + [mount];
    if mounts == [] {
      assert all[1..] == [] && all[0] == mount;
      assert IfMountOf(mount, root) + [] == [] + IfMountOf(mount, root);
    } else {
      assert all[0] == mounts[0] && all[1..] == mounts[1..] + [mount];
      MountsOfAppend(mounts[1..], mount, root);
      var head, middle, last := IfMountOf(mounts[0], root), MountsOf(mounts[1..], root), IfMountOf(mount, root);
      assert head + (middle + last) == head + middle + last;
    }
  }

  /** The mounts of a root are exactly the configured FUSE mounts whose root is that path. */
  lemma {:induction false} MountsOfHolds(mounts: seq<MountConfig>, root: seq<Component>, mount: MountConfig)
    ensures mount in MountsOf(mounts, root) <==> mount in mounts && IsMountOf(mount, root)
  {
    if mounts != [] {
      assert mounts == [mounts[0]] + mounts[1..];
      MountsOfHolds(mounts[1..], root, mount);
    }
  }

  lemma GroupOneMore(members: seq<MountConfig>, mount: MountConfig)
    ensures Group(members + [mount])
         == Some(if members == [] then (mount.projectionRoot, [mount.mountId])
                 else (members[0].projectionRoot, Ids(members) + [mount.mountId]))
  {
    var all := members + [mount];
    assert Ids(all) == Ids(members) + [mount.mountId];
    if members == [] {
      assert Ids(members) + [mount.mountId] == [mount.mountId] && all[0] == mount;
    } else {
      assert all[0] == members[0];
    }
  }

  /** A unit file that can register a root: for this state root and not of the one-mount kind. */
  function RegistrationOf(stateRoot: string, same: (string, string) -> bool, unit: UnitFile): Option<(string, Option<string>)> {
    var e := ParseExecStart(unit.contents);
    if e.None? || e.value.stateDir.None? || e.value.hasMountId || !same(e.value.stateDir.value, stateRoot) then None
    else Some((unit.unitPath, e.value.mountpoint))
  }

  /** The last unit file of a name that can register a root decides. */
  function LastRegistration(stateRoot: string, same: (string, string) -> bool, units: seq<UnitFile>, name: string): Option<(string, Option<string>)> {
    if units == [] then None
    else
      var last := units[|units| - 1];
      if last.unitName == name && RegistrationOf(stateRoot, same, last).Some? then RegistrationOf(stateRoot, same, last)
      else LastRegistration(stateRoot, same, units[..|units| - 1], name)
  }

  /** The path of the unit file that registers a root, if its mountpoint is that root. */
  function RegisteredPath(registration: Option<(string, Option<string>)>, same: (string, string) -> bool, root: string): Option<string> {
    if registration.Some? && registration.value.1.Some? && same(registration.value.1.value, root)
    then Some(registration.value.0) else None
  }

  method CollectRegistered(stateRoot: string, same: (string, string) -> bool, units: seq<UnitFile>)
      returns (registered: seq<(string, (string, Option<string>))>)
    ensures forall name :: Find(registered, name) == LastRegistration(stateRoot, same, units, name)
  {
    registered := [];
    for i := 0 to |units|
      invariant forall name :: Find(registered, name) == LastRegistration(stateRoot, same, units[..i], name)
    {
      var unit := units[i];
      assert units[..i + 1][..i] == units[..i];
      var registration := RegistrationOf(stateRoot, same, unit);
      if registration.None? {
        continue;
      }
      forall name {
        PutFind(registered, unit.unitName, registration.value, StringLess, name);
      }
      registered := Put(registered, unit.unitName, registration.value, StringLess);
    }
    assert units[..|units|] == units;
  }

  type Roots = seq<(seq<Component>, (string, seq<string>))>

  ghost predicate Groups(roots: Roots, mounts: seq<MountConfig>) {
    && Ascending(roots, PathLess)
    && forall root :: Find(roots, root) == Group(MountsOf(mounts, root))
  }

  /** What an entry of the map becomes when one more mount arrives: the key keeps its first spelling. */
  function Pushed(entry: Option<(string, seq<string>)>, mount: MountConfig): (string, seq<string>) {
    if entry.None? then (mount.projectionRoot, [mount.mountId]) else (entry.value.0, entry.value.1 + [mount.mountId])
  }

  lemma PushMount(roots: Roots, mounts: seq<MountConfig>, mount: MountConfig)
    requires Groups(roots, mounts) && mount.projection == LinuxFuse
    ensures var key := Components(mount.projectionRoot);
            Groups(Put(roots, key, Pushed(Find(roots, key), mount), PathLess), mounts + [mount])
  {
    var key := Components(mount.projectionRoot);
    var pushed := Pushed(Find(roots, key), mount);
    PathLessIsStrictTotalOrder();
    PutKeepsAscending(roots, key, pushed, PathLess);
    forall root ensures Find(Put(roots, key, pushed, PathLess), root) == Group(MountsOf(mounts + [mount], root)) {
      PutFind(roots, key, pushed, PathLess, root);
      MountsOfAppend(mounts, mount, root);
      if root == key {
        GroupOneMore(MountsOf(mounts, root), mount);
      } else {
        assert MountsOf(mounts, root) + [] == MountsOf(mounts, root);
      }
    }
  }

  lemma SkipOtherMount(roots: Roots, mounts: seq<MountConfig>, mount: MountConfig)
    requires Groups(roots, mounts) && mount.projection != LinuxFuse
    ensures Groups(roots, mounts + [mount])
  {
    forall root ensures Find(roots, root) == Group(MountsOf(mounts + [mount], root)) {
      MountsOfAppend(mounts, mount, root);
      assert MountsOf(mounts, root) + [] == MountsOf(mounts, root);
    }
  }

  method GroupByRoot(mounts: seq<MountConfig>) returns (roots: Roots)
    ensures Groups(roots, mounts)
  {
    roots := [];
    for i := 0 to |mounts|
      invariant Groups(roots, mounts[..i])
    {
      var mount := mounts[i];
      assert mounts[..i + 1] == mounts[..i] + [mount];
      if mount.projection == LinuxFuse {
        PushMount(roots, mounts[..i], mount);
        var key := Components(mount.projectionRoot);
        var entry := Find(roots, key);
        var ids := if entry.Some? then entry.value.1 else [];
        var spelling := if entry.Some? then entry.value.0 else mount.projectionRoot;
        assert ids + [mount.mountId] == Pushed(entry, mount).1;
        roots := Put(roots, key, (spelling, ids + [mount.mountId]), PathLess);
      } else {
        SkipOtherMount(roots, mounts[..i], mount);
      }
    }
    assert mounts[..|mounts|] == mounts;
  }

  /** A report stands for the mounts of one root, in the spelling of the first of them. It lists exactly
      their ids, each as often as it is configured, sorted; and it is registered by the last fitting unit
      file of its own name, if that one's mountpoint is the root. */
  ghost predicate Describes(report: RootReport, stateRoot: string, mounts: seq<MountConfig>, units: seq<UnitFile>,
                            same: (string, string) -> bool) {
    var members := MountsOf(mounts, Components(report.mountpoint));
    && members != [] && report.mountpoint == members[0].projectionRoot
    && multiset(report.mountIds) == multiset(Ids(members))
    && Sorted(report.mountIds)
    && report.rootId == RootIds.RootId(report.mountpoint)
    && report.service == RootIds.UnitName(report.rootId)
    && report.stateDir == stateRoot
    && report.active == None
    && report.unitPath == RegisteredPath(LastRegistration(stateRoot, same, units, report.service), same, report.mountpoint)
    && report.registered == report.unitPath.Some?
  }

  ghost predicate IsReportOf(report: RootReport, root: seq<Component>, stateRoot: string, mounts: seq<MountConfig>,
                             units: seq<UnitFile>, same: (string, string) -> bool) {
    Components(report.mountpoint) == root && Describes(report, stateRoot, mounts, units, same)
  }

  method ReportRoot(stateRoot: string, mounts: seq<MountConfig>, units: seq<UnitFile>, same: (string, string) -> bool,
                    registered: seq<(string, (string, Option<string>))>, root: string, ids: seq<string>)
      returns (report: RootReport)
    requires forall name :: Find(registered, name) == LastRegistration(stateRoot, same, units, name)
    requires Some((root, ids)) == Group(MountsOf(mounts, Components(root)))
    ensures report.mountpoint == root && Describes(report, stateRoot, mounts, units, same)
  {
    var rootId := RootIds.RootId(root);
    var service := RootIds.UnitName(rootId);
    var unitPath := RegisteredPath(Find(registered, service), same, root);
    SortSorts(ids);
    report := RootReport(rootId, service, root, stateRoot, Sort(ids), unitPath.Some?, None, unitPath);
  }

  /** Each root with a FUSE mount is in the map and no other is, under its own components. */
  lemma GroupsCoverRoots(roots: Roots, mounts: seq<MountConfig>)
    requires Groups(roots, mounts)
    ensures forall k :: 0 <= k < |roots| ==> IsGroup(roots[k], mounts)
    ensures forall mount :: mount in mounts && mount.projection == LinuxFuse ==>
              exists k :: 0 <= k < |roots| && roots[k].0 == Components(mount.projectionRoot)
  {
    PathLessIsStrictTotalOrder();
    forall k | 0 <= k < |roots| ensures IsGroup(roots[k], mounts) {
      FindInAscending(roots, k, PathLess);
      var members := MountsOf(mounts, roots[k].0);
      MountsOfHolds(mounts, roots[k].0, members[0]);
    }
    forall mount | mount in mounts && mount.projection == LinuxFuse
      ensures exists k :: 0 <= k < |roots| && roots[k].0 == Components(mount.projectionRoot)
    {
      MountsOfHolds(mounts, Components(mount.projectionRoot), mount);
      FindIsMembership(roots, Components(mount.projectionRoot));
    }
  }

  /** An entry of the map: the components of a root, with the spelling and the ids of its mounts. */
  ghost predicate IsGroup(entry: (seq<Component>, (string, seq<string>)), mounts: seq<MountConfig>) {
    Components(entry.1.0) == entry.0 && Some(entry.1) == Group(MountsOf(mounts, entry.0))
  }

  method ReportGroups(stateRoot: string, mounts: seq<MountConfig>, units: seq<UnitFile>, same: (string, string) -> bool,
                      registered: seq<(string, (string, Option<string>))>, roots: Roots)
      returns (reports: seq<RootReport>)
    requires forall name :: Find(registered, name) == LastRegistration(stateRoot, same, units, name)
    requires forall k :: 0 <= k < |roots| ==> IsGroup(roots[k], mounts)
    ensures |reports| == |roots|
    ensures forall k :: 0 <= k < |roots| ==> IsReportOf(reports[k], roots[k].0, stateRoot, mounts, units, same)
  {
    reports := [];
    for k := 0 to |roots|
      invariant |reports| == k
      invariant forall i :: 0 <= i < k ==> IsReportOf(reports[i], roots[i].0, stateRoot, mounts, units, same)
    {
      var (root, ids) := roots[k].1;
      assert IsGroup(roots[k], mounts);
      var report := ReportRoot(stateRoot, mounts, units, same, registered, root, ids);
      assert IsReportOf(report, roots[k].0, stateRoot, mounts, units, same);
      reports := reports + [report];
    }
  }

  lemma ReportsFollowRoots(reports: seq<RootReport>, roots: Roots, stateRoot: string, mounts: seq<MountConfig>,
                           units: seq<UnitFile>, same: (string, string) -> bool)
    requires |reports| == |roots| && Ascending(roots, PathLess)
    requires forall k :: 0 <= k < |roots| ==> IsReportOf(reports[k], roots[k].0, stateRoot, mounts, units, same)
    requires forall mount :: mount in mounts && mount.projection == LinuxFuse ==>
               exists k :: 0 <= k < |roots| && roots[k].0 == Components(mount.projectionRoot)
    ensures forall i, j :: 0 <= i < j < |reports| ==>
              PathLess(Components(reports[i].mountpoint), Components(reports[j].mountpoint))
    ensures forall mount :: mount in mounts && mount.projection == LinuxFuse ==>
              exists i :: 0 <= i < |reports| && Components(reports[i].mountpoint) == Components(mount.projectionRoot)
    ensures forall i :: 0 <= i < |reports| ==> Describes(reports[i], stateRoot, mounts, units, same)
  {
    forall i | 0 <= i < |reports|
      ensures Components(reports[i].mountpoint) == roots[i].0 && Describes(reports[i], stateRoot, mounts, units, same)
    {
      assert IsReportOf(reports[i], roots[i].0, stateRoot, mounts, units, same);
    }
    forall mount | mount in mounts && mount.projection == LinuxFuse
      ensures exists i :: 0 <= i < |reports| && Components(reports[i].mountpoint) == Components(mount.projectionRoot)
    {
      var i :| 0 <= i < |roots| && roots[i].0 == Components(mount.projectionRoot);
      assert Components(reports[i].mountpoint) == roots[i].0;
    }
  }

  /** `linux_fuse_root_reports_for_state`: reports in strictly ascending order of their roots, as paths,
      and one for the root of each FUSE mount. */
  method RootReports(stateRoot: string, mounts: seq<MountConfig>, units: seq<UnitFile>, same: (string, string) -> bool)
      returns (reports: seq<RootReport>)
    ensures forall i, j :: 0 <= i < j < |reports| ==>
              PathLess(Components(reports[i].mountpoint), Components(reports[j].mountpoint))
    ensures forall mount :: mount in mounts && mount.projection == LinuxFuse ==>
              exists i :: 0 <= i < |reports| && Components(reports[i].mountpoint) == Components(mount.projectionRoot)
    ensures forall i :: 0 <= i < |reports| ==> Describes(reports[i], stateRoot, mounts, units, same)
  {
    var registered := CollectRegistered(stateRoot, same, units);
    var roots := GroupByRoot(mounts);
    GroupsCoverRoots(roots, mounts);
    reports := ReportGroups(stateRoot, mounts, units, same, registered, roots);
    ReportsFollowRoots(reports, roots, stateRoot, mounts, units, same);
  }

  // ---------------------------------------------------------------- what a report says

  /** A mount is listed under its root as often as it is configured, and under no other. */
  lemma {:induction false} MountsOfCounts(mounts: seq<MountConfig>, root: seq<Component>, mount: MountConfig)
    ensures multiset(MountsOf(mounts, root))[mount]
         == if mount.projection == LinuxFuse && Components(mount.projectionRoot) == root then multiset(mounts)[mount] else 0
  {
    if mounts != [] {
      assert mounts == [mounts[0]] + mounts[1..];
      MountsOfCounts(mounts[1..], root, mount);
    }
  }

  /** Mount i is the first FUSE mount of the root. */
  ghost predicate IsFirstMountOf(mounts: seq<MountConfig>, i: nat, root: seq<Component>) {
    && i < |mounts| && mounts[i].projection == LinuxFuse && Components(mounts[i].projectionRoot) == root
    && forall j: nat :: j < i && mounts[j].projection == LinuxFuse ==> Components(mounts[j].projectionRoot) != root
  }

  lemma {:induction false} MountsOfStartsWithFirst(mounts: seq<MountConfig>, i: nat, root: seq<Component>)
    requires IsFirstMountOf(mounts, i, root)
    ensures MountsOf(mounts, root) != [] && MountsOf(mounts, root)[0] == mounts[i]
  {
    if i > 0 {
      assert !IsMountOf(mounts[0], root);
      assert forall j: nat :: j < i - 1 ==> mounts[1..][j] == mounts[j + 1];
      MountsOfStartsWithFirst(mounts[1..], i - 1, root);
    }
  }

  /** Unit file i can register a root under the name: it is for this state root, without a mount id. */
  ghost predicate CanRegister(units: seq<UnitFile>, i: nat, name: string, stateRoot: string, same: (string, string) -> bool, e: ExecStart) {
    i < |units| && units[i].unitName == name && ReadsFor(units[i], stateRoot, same, e) && !e.hasMountId
  }

  ghost predicate IsLastToRegister(units: seq<UnitFile>, i: nat, name: string, stateRoot: string, same: (string, string) -> bool, e: ExecStart) {
    CanRegister(units, i, name, stateRoot, same, e)
    && forall j: nat, f :: i < j ==> !CanRegister(units, j, name, stateRoot, same, f)
  }

  lemma RegistrationIff(unit: UnitFile, stateRoot: string, same: (string, string) -> bool)
    ensures forall e :: ReadsFor(unit, stateRoot, same, e) && !e.hasMountId ==>
              RegistrationOf(stateRoot, same, unit) == Some((unit.unitPath, e.mountpoint))
    ensures RegistrationOf(stateRoot, same, unit).Some? ==>
              exists f :: ReadsFor(unit, stateRoot, same, f) && !f.hasMountId
  {
    if RegistrationOf(stateRoot, same, unit).Some? {
      assert ReadsFor(unit, stateRoot, same, ParseExecStart(unit.contents).value);
    }
  }

  /** A unit file that cannot register leaves the registration to those before it. */
  lemma LastCannotRegister(units: seq<UnitFile>, n: nat, name: string, stateRoot: string, same: (string, string) -> bool)
    requires |units| == n + 1 && forall f: ExecStart :: !CanRegister(units, n, name, stateRoot, same, f)
    ensures LastRegistration(stateRoot, same, units, name) == LastRegistration(stateRoot, same, units[..n], name)
  {
    var unit := units[n];
    if unit.unitName == name {
      forall f: ExecStart ensures !(ReadsFor(unit, stateRoot, same, f) && !f.hasMountId) {
        assert !CanRegister(units, n, name, stateRoot, same, f);
      }
      RegistrationIff(unit, stateRoot, same);
    }
  }

  lemma IsLastToRegisterInFront(units: seq<UnitFile>, i: nat, name: string, stateRoot: string,
                                same: (string, string) -> bool, e: ExecStart)
    requires IsLastToRegister(units, i, name, stateRoot, same, e) && i < |units| - 1
    ensures IsLastToRegister(units[..|units| - 1], i, name, stateRoot, same, e)
  {
    var front := units[..|units| - 1];
    forall j: nat, f: ExecStart | i < j && CanRegister(front, j, name, stateRoot, same, f) ensures false {
      assert CanRegister(units, j, name, stateRoot, same, f);
    }
  }

  lemma {:induction false} LastToRegisterDecides(units: seq<UnitFile>, i: nat, name: string, stateRoot: string,
                                                 same: (string, string) -> bool, e: ExecStart)
    requires IsLastToRegister(units, i, name, stateRoot, same, e)
    ensures LastRegistration(stateRoot, same, units, name) == Some((units[i].unitPath, e.mountpoint))
    decreases |units|
  {
    if i == |units| - 1 {
      RegistrationIff(units[i], stateRoot, same);
    } else {
      LastCannotRegister(units, |units| - 1, name, stateRoot, same);
      IsLastToRegisterInFront(units, i, name, stateRoot, same, e);
      LastToRegisterDecides(units[..|units| - 1], i, name, stateRoot, same, e);
    }
  }

  lemma {:induction false} NoneCanRegister(units: seq<UnitFile>, name: string, stateRoot: string, same: (string, string) -> bool)
    requires forall i: nat, e :: !CanRegister(units, i, name, stateRoot, same, e)
    ensures LastRegistration(stateRoot, same, units, name) == None
    decreases |units|
  {
    if units != [] {
      var front := units[..|units| - 1];
      LastCannotRegister(units, |units| - 1, name, stateRoot, same);
      assert forall j: nat, f :: CanRegister(front, j, name, stateRoot, same, f) ==> CanRegister(units, j, name, stateRoot, same, f);
      NoneCanRegister(front, name, stateRoot, same);
    }
  }

  /** What a report says of its registration: it is that by the last unit file of its name that is for this
      state root and has no mount id, if the mountpoint in that one is the same path as the root. */
  lemma ReportSaysRegistered(report: RootReport, stateRoot: string, mounts: seq<MountConfig>, units: seq<UnitFile>,
                             same: (string, string) -> bool, i: nat, e: ExecStart)
    requires Describes(report, stateRoot, mounts, units, same)
    ensures IsLastToRegister(units, i, report.service, stateRoot, same, e) ==>
              && report.registered == (e.mountpoint.Some? && same(e.mountpoint.value, report.mountpoint))
              && report.unitPath == (if report.registered then Some(units[i].unitPath) else None)
    ensures (forall j: nat, f :: !CanRegister(units, j, report.service, stateRoot, same, f)) ==> !report.registered && report.unitPath == None
  {
    if IsLastToRegister(units, i, report.service, stateRoot, same, e) {
      LastToRegisterDecides(units, i, report.service, stateRoot, same, e);
    }
    if forall j: nat, f :: !CanRegister(units, j, report.service, stateRoot, same, f) {
      NoneCanRegister(units, report.service, stateRoot, same);
    }
  }

  // ---------------------------------------------------------------- the unit written for a mount

  /** A registration is that of a unit file of the name. */
  lemma {:induction false} LastRegistrationIsOfUnit(stateRoot: string, same: (string, string) -> bool, units: seq<UnitFile>, name: string)
    ensures LastRegistration(stateRoot, same, units, name).Some? ==>
              exists u :: u in units && u.unitName == name && RegistrationOf(stateRoot, same, u) == LastRegistration(stateRoot, same, units, name)
  {
    if units != [] {
      LastRegistrationIsOfUnit(stateRoot, same, units[..|units| - 1], name);
      assert units[|units| - 1] in units;
    }
  }

  lemma {:induction false} OnlyUnitOfNameRegisters(stateRoot: string, same: (string, string) -> bool, units: seq<UnitFile>, unit: UnitFile)
    requires unit in units && forall u :: u in units && u.unitName == unit.unitName ==> u == unit
    requires RegistrationOf(stateRoot, same, unit).Some?
    ensures LastRegistration(stateRoot, same, units, unit.unitName) == RegistrationOf(stateRoot, same, unit)
  {
    var n := |units| - 1;
    assert units == units[..n] + [units[n]];
    if units[n] != unit {
      OnlyUnitOfNameRegisters(stateRoot, same, units[..n], unit);
    }
  }

  lemma WrittenUnitIsRegistration(helper: string, stateRoot: string, mount: MountConfig, logPath: string, unitPath: string,
                                  same: (string, string) -> bool)
    requires ReadsBack(helper, stateRoot, mount.projectionRoot) && same(stateRoot, stateRoot)
    ensures var unit := UnitFile(UnitNameOf(mount), unitPath, UnitContents(helper, stateRoot, mount.projectionRoot, logPath));
            RegistrationOf(stateRoot, same, unit) == Some((unitPath, Some(mount.projectionRoot)))
  {
    UnitFileRoundTrip(helper, stateRoot, mount.projectionRoot, logPath);
  }

  /** A unit registers a root's report exactly if it has the name the report looks under, and its
      mountpoint is the same path as the report's. */
  lemma UnitRegistersReportIff(stateRoot: string, root: string, unit: UnitFile, report: RootReport, mounts: seq<MountConfig>,
                               units: seq<UnitFile>, same: (string, string) -> bool)
    requires RegistrationOf(stateRoot, same, unit) == Some((unit.unitPath, Some(root)))
    requires unit in units && forall u :: u in units && (u.unitName == unit.unitName || u.unitPath == unit.unitPath) ==> u == unit
    requires Describes(report, stateRoot, mounts, units, same)
    ensures report.unitPath == Some(unit.unitPath) <==> report.service == unit.unitName && same(root, report.mountpoint)
  {
    LastRegistrationIsOfUnit(stateRoot, same, units, report.service);
    if report.service == unit.unitName {
      OnlyUnitOfNameRegisters(stateRoot, same, units, unit);
    }
  }

  /** The unit written for a mount, under its own name, registers the report of the mount's root exactly if
      the root's first spelling has the same root id as the mount's own, and is the same path to `same`.
      The report looks under the name of the first spelling only. */
  lemma WrittenUnitRegistersRootIff(helper: string, stateRoot: string, mount: MountConfig, logPath: string, unitPath: string,
                                    report: RootReport, mounts: seq<MountConfig>, units: seq<UnitFile>, same: (string, string) -> bool)
    requires ReadsBack(helper, stateRoot, mount.projectionRoot) && same(stateRoot, stateRoot)
    requires var unit := UnitFile(UnitNameOf(mount), unitPath, UnitContents(helper, stateRoot, mount.projectionRoot, logPath));
             unit in units && forall u :: u in units && (u.unitName == unit.unitName || u.unitPath == unit.unitPath) ==> u == unit
    requires Describes(report, stateRoot, mounts, units, same)
    requires Components(report.mountpoint) == Components(mount.projectionRoot)
    ensures report.unitPath == Some(unitPath) <==>
            RootIds.RootId(report.mountpoint) == RootIds.RootId(mount.projectionRoot) && same(mount.projectionRoot, report.mountpoint)
  {
    var unit := UnitFile(UnitNameOf(mount), unitPath, UnitContents(helper, stateRoot, mount.projectionRoot, logPath));
    WrittenUnitIsRegistration(helper, stateRoot, mount, logPath, unitPath, same);
    UnitRegistersReportIff(stateRoot, mount.projectionRoot, unit, report, mounts, units, same);
    RootIds.SameRootIdIffSameHintAndHash(report.mountpoint, mount.projectionRoot);
  }

  lemma LastByteDiffers(front: seq<Utf8.Byte>, a: Utf8.Byte, b: Utf8.Byte)
    requires a != b
    ensures RootIds.DifferInExactlyOneByte(front + [a], front + [b])
  {
    var x, y, k := front + [a], front + [b], |front|;
    assert x[k] == a && y[k] == b && x[..k] == front == y[..k] && x[k + 1..] == [] == y[k + 1..];
  }

  lemma EncodeAsciiLast(s: string, c: char)
    requires c as int < 0x80
    ensures Utf8.Encode(s + [c]) == Utf8.Encode(s) + [c as int]
  {
    Utf8.EncodeAppend(s, [c]);
    assert [c][1..] == [] && Utf8.Encode([c]) == Utf8.EncodeChar(c) + [];
  }

  lemma SpellingsDifferInOneByte(path: string)
    ensures RootIds.DifferInExactlyOneByte(Utf8.Encode(path + "/."), Utf8.Encode(path + "//"))
  {
    assert path + "/." == path + "/" + ['.'] && path + "//" == path + "/" + ['/'];
    EncodeAsciiLast(path + "/", '.');
    EncodeAsciiLast(path + "/", '/');
    LastByteDiffers(Utf8.Encode(path + "/"), '.' as int, '/' as int);
  }

  /** So two spellings of one root can have different root ids: then the unit written for the mount that
      is configured second is never the one that registers their report. */
  lemma SecondSpellingIsNotRegistered(path: string)
    requires path != ""
    ensures Components(path + "/.") == Components(path + "//")
    ensures RootIds.RootId(path + "/.") != RootIds.RootId(path + "//")
  {
    TrailingDotDoesNotCount(path);
    TrailingSlashesDoNotCount(path, "//");
    SpellingsDifferInOneByte(path);
    RootIds.OneByteChangesTheUnitName(path + "/.", path + "//");
  }
}
