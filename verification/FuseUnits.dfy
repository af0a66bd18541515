/** Which unit files are stale, restartable, stoppable or deprecated. `same` stands for the comparison of
    two paths, which may consult the file system. */
module FuseUnits {
  import opened Wrappers
  import opened Text
  import opened FuseUnitFile
  import Paths
  import RootIds

  const LEGACY_AFS_FUSE_UNIT_PREFIX := "ai.codeflash.afs.fuse."
  const LEGACY_AGENTFS_FUSE_UNIT_PREFIX := "ai.codeflash.agentfs.fuse."

  datatype ProjectionMode = PlainFiles | MacosFileProvider | LinuxFuse | WindowsCloudFiles

  /** A mount, with the root `virtual_projection_root` computes for it. */
  datatype MountConfig = MountConfig(mountId: string, projection: ProjectionMode, projectionRoot: string)

  datatype UnitFile = UnitFile(unitName: string, unitPath: string, contents: string)

  datatype StaleUnit = StaleUnit(unitName: string, unitPath: string, mountpoint: Option<string>, legacy: bool)

  datatype ManagedUnit = ManagedUnit(unitName: string, mountpoint: Option<string>)

  function FilterMap<A, B>(f: A -> Option<B>, xs: seq<A>): seq<B> {
    if xs == [] then []
    else (if f(xs[0]).Some? then [f(xs[0]).value] else []) + FilterMap(f, xs[1..])
  }

  lemma {:induction false} FilterMapElements<A, B>(f: A -> Option<B>, xs: seq<A>, y: B)
    ensures y in FilterMap(f, xs) <==> exists x :: x in xs && f(x) == Some(y)
  {
    if xs != [] {
      FilterMapElements(f, xs[1..], y);
      assert xs == [xs[0]] + xs[1..];
    }
  }

  // ---------------------------------------------------------------- classification

  function UnitNameOf(mount: MountConfig): string {
    RootIds.UnitName(RootIds.RootId(mount.projectionRoot))
  }

  /** `desired_linux_fuse_unit_names`. */
  function DesiredUnits(mounts: seq<MountConfig>): set<string> {
    set mount | mount in mounts && mount.projection == LinuxFuse :: UnitNameOf(mount)
  }

  predicate IsDeprecatedUnitName(name: string) {
    (StartsWith(name, LEGACY_AFS_FUSE_UNIT_PREFIX) || StartsWith(name, LEGACY_AGENTFS_FUSE_UNIT_PREFIX))
    && EndsWith(name, RootIds.LINUX_FUSE_UNIT_SUFFIX)
  }

  predicate IsDeprecatedStateRoot(path: string) {
    Paths.FileName(path) == Some(".afs")
  }

  function StaleOf(stateRoot: string, desired: set<string>, same: (string, string) -> bool, unit: UnitFile): Option<StaleUnit> {
    var e := ParseExecStart(unit.contents);
    if e.None? || e.value.stateDir.None? then None
    else if !same(e.value.stateDir.value, stateRoot) then None
    else if !e.value.hasMountId && unit.unitName in desired then None
    else Some(StaleUnit(unit.unitName, unit.unitPath, e.value.mountpoint, e.value.hasMountId))
  }

  function RestartableOf(stateRoot: string, desired: set<string>, same: (string, string) -> bool, unit: UnitFile): Option<ManagedUnit> {
    var e := ParseExecStart(unit.contents);
    if e.None? || e.value.stateDir.None? then None
    else if e.value.hasMountId || !same(e.value.stateDir.value, stateRoot) || unit.unitName !in desired then None
    else Some(ManagedUnit(unit.unitName, e.value.mountpoint))
  }

  function StoppableOf(stateRoot: string, same: (string, string) -> bool, unit: UnitFile): Option<ManagedUnit> {
    var e := ParseExecStart(unit.contents);
    if e.None? || e.value.stateDir.None? then None
    else if !same(e.value.stateDir.value, stateRoot) then None
    else Some(ManagedUnit(unit.unitName, e.value.mountpoint))
  }

  function DeprecatedOf(unit: UnitFile): Option<StaleUnit> {
    var e := ParseExecStart(unit.contents);
    if e.None? then None
    else if !IsDeprecatedUnitName(unit.unitName)
            && !(e.value.stateDir.Some? && IsDeprecatedStateRoot(e.value.stateDir.value)) then None
    else Some(StaleUnit(unit.unitName, unit.unitPath, e.value.mountpoint, true))
  }

  function StaleFilter(stateRoot: string, desired: set<string>, same: (string, string) -> bool): UnitFile -> Option<StaleUnit> {
    unit => StaleOf(stateRoot, desired, same, unit)
  }

  function RestartableFilter(stateRoot: string, desired: set<string>, same: (string, string) -> bool): UnitFile -> Option<ManagedUnit> {
    unit => RestartableOf(stateRoot, desired, same, unit)
  }

  function StoppableFilter(stateRoot: string, same: (string, string) -> bool): UnitFile -> Option<ManagedUnit> {
    unit => StoppableOf(stateRoot, same, unit)
  }

  function Stale(stateRoot: string, mounts: seq<MountConfig>, same: (string, string) -> bool, units: seq<UnitFile>): seq<StaleUnit> {
    FilterMap(StaleFilter(stateRoot, DesiredUnits(mounts), same), units)
  }

  function Restartable(stateRoot: string, mounts: seq<MountConfig>, same: (string, string) -> bool, units: seq<UnitFile>): seq<ManagedUnit> {
    FilterMap(RestartableFilter(stateRoot, DesiredUnits(mounts), same), units)
  }

  function Stoppable(stateRoot: string, same: (string, string) -> bool, units: seq<UnitFile>): seq<ManagedUnit> {
    FilterMap(StoppableFilter(stateRoot, same), units)
  }

  function Deprecated(units: seq<UnitFile>): seq<StaleUnit> {
    FilterMap(DeprecatedOf, units)
  }

  /** The elements at the positions where the mask says `side`, in order. */
  function Select<T>(xs: seq<T>, mask: seq<bool>, side: bool): seq<T>
    requires |xs| == |mask|
  {
    if xs == [] then []
    else (if mask[0] == side then [xs[0]] else []) + Select(xs[1..], mask[1..], side)
  }

  function AsManaged(stale: seq<StaleUnit>): seq<ManagedUnit> {
    if stale == [] then []
    else [ManagedUnit(stale[0].unitName, stale[0].mountpoint)] + AsManaged(stale[1..])
  }

  lemma {:induction false} AsManagedAppend(a: seq<StaleUnit>, b: seq<StaleUnit>)
    ensures AsManaged(a + b) == AsManaged(a) + AsManaged(b)
  {
    if a == [] {
      assert a + b == b;
    } else {
      assert (a + b)[1..] == a[1..] + b;
      AsManagedAppend(a[1..], b);
    }
  }

  /** Each unit file is stoppable exactly if it is stale or restartable, and it is never both. */
  lemma StoppableIsStaleOrRestartable(stateRoot: string, desired: set<string>, same: (string, string) -> bool, unit: UnitFile)
    ensures var stale := StaleOf(stateRoot, desired, same, unit);
            var restartable := RestartableOf(stateRoot, desired, same, unit);
            var stoppable := StoppableOf(stateRoot, same, unit);
            && !(stale.Some? && restartable.Some?)
            && (stoppable.Some? <==> stale.Some? || restartable.Some?)
            && (restartable.Some? ==> stoppable == restartable)
            && (stale.Some? ==> stoppable == Some(ManagedUnit(stale.value.unitName, stale.value.mountpoint)))
  {
  }

  function ToSeq<T>(o: Option<T>): seq<T> {
    if o.Some? then [o.value] else []
  }

  lemma FilterMapFirst<A, B>(f: A -> Option<B>, xs: seq<A>)
    requires xs != []
    ensures FilterMap(f, xs) == ToSeq(f(xs[0])) + FilterMap(f, xs[1..])
  {
  }

  lemma SelectFirst<T>(x: T, xs: seq<T>, b: bool, mask: seq<bool>, side: bool)
    requires |xs| == |mask|
    ensures Select([x] + xs, [b] + mask, side) == (if b == side then [x] else []) + Select(xs, mask, side)
  {
    assert ([x] + xs)[1..] == xs && ([b] + mask)[1..] == mask;
  }

  /** The stoppable units split into the stale and the restartable ones: a mask over the stoppable
      list picks out the one list, in order, and leaves exactly the other, in order. */
  lemma {:induction false} StoppableSplits(stateRoot: string, mounts: seq<MountConfig>, same: (string, string) -> bool, units: seq<UnitFile>)
      returns (isStale: seq<bool>)
    ensures |isStale| == |Stoppable(stateRoot, same, units)|
    ensures Select(Stoppable(stateRoot, same, units), isStale, true) == AsManaged(Stale(stateRoot, mounts, same, units))
    ensures Select(Stoppable(stateRoot, same, units), isStale, false) == Restartable(stateRoot, mounts, same, units)
    decreases |units|
  {
    if units == [] {
      isStale := [];
    } else {
      var desired := DesiredUnits(mounts);
      var unit := units[0];
      var stale := StaleOf(stateRoot, desired, same, unit);
      var restartable := RestartableOf(stateRoot, desired, same, unit);
      var stoppable := StoppableOf(stateRoot, same, unit);
      var rest := StoppableSplits(stateRoot, mounts, same, units[1..]);
      StoppableIsStaleOrRestartable(stateRoot, desired, same, unit);
      var tail := Stoppable(stateRoot, same, units[1..]);
      assert Stoppable(stateRoot, same, units) == ToSeq(stoppable) + tail by {
        FilterMapFirst(StoppableFilter(stateRoot, same), units);
      }
      assert Restartable(stateRoot, mounts, same, units) == ToSeq(restartable) + Restartable(stateRoot, mounts, same, units[1..]) by {
        FilterMapFirst(RestartableFilter(stateRoot, desired, same), units);
      }
      assert AsManaged(Stale(stateRoot, mounts, same, units))
          == AsManaged(ToSeq(stale)) + AsManaged(Stale(stateRoot, mounts, same, units[1..])) by {
        FilterMapFirst(StaleFilter(stateRoot, desired, same), units);
        AsManagedAppend(ToSeq(stale), Stale(stateRoot, mounts, same, units[1..]));
      }
      if stoppable.Some? {
        isStale := [stale.Some?] + rest;
        SelectFirst(stoppable.value, tail, stale.Some?, rest, true);
        SelectFirst(stoppable.value, tail, stale.Some?, rest, false);
        assert AsManaged(ToSeq(stale)) == if stale.Some? then [stoppable.value] else [];
        assert ToSeq(restartable) == if stale.Some? then [] else [stoppable.value];
      } else {
        isStale := rest;
        assert ToSeq(stoppable) + tail == tail;
        assert AsManaged(ToSeq(stale)) + AsManaged(Stale(stateRoot, mounts, same, units[1..]))
            == AsManaged(Stale(stateRoot, mounts, same, units[1..]));
        assert ToSeq(restartable) + Restartable(stateRoot, mounts, same, units[1..])
            == Restartable(stateRoot, mounts, same, units[1..]);
      }
    }
  }

  // ---------------------------------------------------------------- what the lists hold

  /** The unit file is read, and is for this state root. */
  predicate ReadsFor(unit: UnitFile, stateRoot: string, same: (string, string) -> bool, e: ExecStart) {
    ParseExecStart(unit.contents) == Some(e) && e.stateDir.Some? && same(e.stateDir.value, stateRoot)
  }

  /** Some configured FUSE mount has the unit name. */
  ghost predicate IsConfigured(mounts: seq<MountConfig>, name: string) {
    exists mount :: mount in mounts && mount.projection == LinuxFuse
                    && RootIds.UnitName(RootIds.RootId(mount.projectionRoot)) == name
  }

  lemma DesiredIsConfigured(mounts: seq<MountConfig>, name: string)
    ensures name in DesiredUnits(mounts) <==> IsConfigured(mounts, name)
  {
  }

  /** The restartable units are those of the unit files for this state root that have no mount id and whose
      name a configured FUSE mount has. */
  lemma RestartableIff(stateRoot: string, mounts: seq<MountConfig>, same: (string, string) -> bool, units: seq<UnitFile>, m: ManagedUnit)
    ensures m in Restartable(stateRoot, mounts, same, units) <==>
            exists u, e :: u in units && ReadsFor(u, stateRoot, same, e) && !e.hasMountId
                           && IsConfigured(mounts, u.unitName) && m == ManagedUnit(u.unitName, e.mountpoint)
  {
    var f := RestartableFilter(stateRoot, DesiredUnits(mounts), same);
    FilterMapElements(f, units, m);
    forall u | u in units
      ensures f(u) == Some(m) <==> exists e ::
                ReadsFor(u, stateRoot, same, e) && !e.hasMountId
                && IsConfigured(mounts, u.unitName) && m == ManagedUnit(u.unitName, e.mountpoint)
    {
      DesiredIsConfigured(mounts, u.unitName);
      var parsed := ParseExecStart(u.contents);
      assert parsed.Some? && parsed.value.stateDir.Some? && same(parsed.value.stateDir.value, stateRoot)
         <==> exists e :: ReadsFor(u, stateRoot, same, e) by {
        if parsed.Some? && parsed.value.stateDir.Some? && same(parsed.value.stateDir.value, stateRoot) {
          assert ReadsFor(u, stateRoot, same, parsed.value);
        }
      }
    }
  }

  /** The stale units are those of the unit files for this state root that have a mount id, and are legacy
      then, or whose name no configured FUSE mount has. */
  lemma StaleIff(stateRoot: string, mounts: seq<MountConfig>, same: (string, string) -> bool, units: seq<UnitFile>, s: StaleUnit)
    ensures s in Stale(stateRoot, mounts, same, units) <==>
            exists u, e :: u in units && ReadsFor(u, stateRoot, same, e) && (e.hasMountId || !IsConfigured(mounts, u.unitName))
                           && s == StaleUnit(u.unitName, u.unitPath, e.mountpoint, e.hasMountId)
  {
    var f := StaleFilter(stateRoot, DesiredUnits(mounts), same);
    FilterMapElements(f, units, s);
    forall u | u in units
      ensures f(u) == Some(s) <==> exists e ::
                ReadsFor(u, stateRoot, same, e) && (e.hasMountId || !IsConfigured(mounts, u.unitName))
                && s == StaleUnit(u.unitName, u.unitPath, e.mountpoint, e.hasMountId)
    {
      DesiredIsConfigured(mounts, u.unitName);
      var parsed := ParseExecStart(u.contents);
      if parsed.Some? && parsed.value.stateDir.Some? && same(parsed.value.stateDir.value, stateRoot) {
        assert ReadsFor(u, stateRoot, same, parsed.value);
      }
    }
  }

  /** Name by name: restartable. */
  lemma RestartableNamesIff(stateRoot: string, mounts: seq<MountConfig>, same: (string, string) -> bool, units: seq<UnitFile>, name: string)
    ensures (exists m :: m in Restartable(stateRoot, mounts, same, units) && m.unitName == name) <==>
            (exists u, e :: u in units && u.unitName == name && ReadsFor(u, stateRoot, same, e) && !e.hasMountId)
            && IsConfigured(mounts, name)
  {
    forall m { RestartableIff(stateRoot, mounts, same, units, m); }
    if IsConfigured(mounts, name) {
      if u, e :| u in units && u.unitName == name && ReadsFor(u, stateRoot, same, e) && !e.hasMountId {
        assert ManagedUnit(u.unitName, e.mountpoint) in Restartable(stateRoot, mounts, same, units);
      }
    }
  }

  /** Name by name: stale. */
  lemma StaleNamesIff(stateRoot: string, mounts: seq<MountConfig>, same: (string, string) -> bool, units: seq<UnitFile>, name: string)
    ensures (exists s :: s in Stale(stateRoot, mounts, same, units) && s.unitName == name) <==>
            exists u, e :: u in units && u.unitName == name && ReadsFor(u, stateRoot, same, e)
                           && (e.hasMountId || !IsConfigured(mounts, name))
  {
    forall s { StaleIff(stateRoot, mounts, same, units, s); }
    if u, e :| u in units && u.unitName == name && ReadsFor(u, stateRoot, same, e) && (e.hasMountId || !IsConfigured(mounts, name)) {
      assert StaleUnit(u.unitName, u.unitPath, e.mountpoint, e.hasMountId) in Stale(stateRoot, mounts, same, units);
    }
  }

  lemma SplitName(prefix: string, x: string, suffix: string)
    ensures StartsWith(prefix + x + suffix, prefix) && EndsWith(prefix + x + suffix, suffix)
  {
    assert prefix + x + suffix == prefix + (x + suffix);
    assert (prefix + x + suffix)[|prefix + x|..] == suffix;
  }

  /** A name with a prefix that ends in a dot and a suffix with a dot in front and no other: the two stand
      apart, or share their dot. */
  lemma PrefixAndSuffixIff(name: string, prefix: string, suffix: string)
    requires |prefix| > 0 && prefix[|prefix| - 1] == '.'
    requires |suffix| > 0 && suffix[0] == '.' && forall i :: 0 < i < |suffix| ==> suffix[i] != '.'
    ensures StartsWith(name, prefix) && EndsWith(name, suffix)
       <==> (exists x :: name == prefix + x + suffix) || name == prefix + suffix[1..]
  {
    if StartsWith(name, prefix) && EndsWith(name, suffix) {
      if |prefix| + |suffix| <= |name| {
        assert name == prefix + name[|prefix|..|name| - |suffix|] + suffix;
      } else {
        var k := |prefix| - 1 - (|name| - |suffix|);
        assert suffix[k] == name[|name| - |suffix|..][k] == name[|prefix| - 1] == '.';
        assert name == prefix + name[|prefix|..];
        assert name[|prefix|..] == name[|name| - |suffix|..][1..];
      }
    }
    forall x | name == prefix + x + suffix ensures StartsWith(name, prefix) && EndsWith(name, suffix) {
      SplitName(prefix, x, suffix);
    }
    if name == prefix + suffix[1..] {
      assert name[|prefix| - 1..] == suffix;
    }
  }

  /** The names of the two former kinds, among them, by the letter of the test, those with nothing but the
      one dot between prefix and suffix. */
  lemma DeprecatedNamesIff(name: string)
    ensures IsDeprecatedUnitName(name) <==>
            (exists x :: name == "ai.codeflash.afs.fuse." + x + ".service") || name == "ai.codeflash.afs.fuse." + "service"
            || (exists x :: name == "ai.codeflash.agentfs.fuse." + x + ".service") || name == "ai.codeflash.agentfs.fuse." + "service"
  {
    assert ".service"[1..] == "service";
    PrefixAndSuffixIff(name, "ai.codeflash.afs.fuse.", ".service");
    PrefixAndSuffixIff(name, "ai.codeflash.agentfs.fuse.", ".service");
  }

  /** The deprecated units are those of the unit files that are read and have a name of a former kind, or a
      state directory whose last component is `.afs`; all are legacy. */
  lemma DeprecatedIff(units: seq<UnitFile>, s: StaleUnit)
    ensures s in Deprecated(units) <==>
            exists u, e :: u in units && ParseExecStart(u.contents) == Some(e)
                           && (IsDeprecatedUnitName(u.unitName) || (e.stateDir.Some? && Paths.FileName(e.stateDir.value) == Some(".afs")))
                           && s == StaleUnit(u.unitName, u.unitPath, e.mountpoint, true)
  {
    FilterMapElements(DeprecatedOf, units, s);
  }

  // ---------------------------------------------------------------- the unit written for a mount

  lemma CurrentPrefixIsNotDeprecated(middle: string)
    ensures !IsDeprecatedUnitName(RootIds.LINUX_FUSE_UNIT_PREFIX + middle + RootIds.LINUX_FUSE_UNIT_SUFFIX)
  {
    var name := RootIds.LINUX_FUSE_UNIT_PREFIX + middle + RootIds.LINUX_FUSE_UNIT_SUFFIX;
    assert name[13] == RootIds.LINUX_FUSE_UNIT_PREFIX[13] == 'l';
    assert LEGACY_AFS_FUSE_UNIT_PREFIX[13] == 'a' && LEGACY_AGENTFS_FUSE_UNIT_PREFIX[13] == 'a';
  }

  /** The class of a unit file that reads back, under a name that is configured and not deprecated. */
  lemma ClassOfReadUnit(stateRoot: string, root: string, desired: set<string>, same: (string, string) -> bool, unit: UnitFile)
    requires ParseExecStart(unit.contents) == Some(ExecStart(Some(stateRoot), Some(root), false))
    requires unit.unitName in desired && !IsDeprecatedUnitName(unit.unitName)
    requires same(stateRoot, stateRoot) && !IsDeprecatedStateRoot(stateRoot)
    ensures RestartableOf(stateRoot, desired, same, unit) == Some(ManagedUnit(unit.unitName, Some(root)))
    ensures StaleOf(stateRoot, desired, same, unit) == None && DeprecatedOf(unit) == None
  {
  }

  /** A unit file that reads back, under a configured name and the only one of that name, is in the list
      of restartable units, and its name in neither other list. */
  lemma ReadUnitIsRestartable(stateRoot: string, root: string, unit: UnitFile, mounts: seq<MountConfig>,
                              same: (string, string) -> bool, units: seq<UnitFile>)
    requires ParseExecStart(unit.contents) == Some(ExecStart(Some(stateRoot), Some(root), false))
    requires unit.unitName in DesiredUnits(mounts) && !IsDeprecatedUnitName(unit.unitName)
    requires same(stateRoot, stateRoot) && !IsDeprecatedStateRoot(stateRoot)
    requires unit in units && forall u :: u in units && u.unitName == unit.unitName ==> u == unit
    ensures ManagedUnit(unit.unitName, Some(root)) in Restartable(stateRoot, mounts, same, units)
    ensures forall s :: s in Stale(stateRoot, mounts, same, units) ==> s.unitName != unit.unitName
    ensures forall s :: s in Deprecated(units) ==> s.unitName != unit.unitName
  {
    var desired := DesiredUnits(mounts);
    ClassOfReadUnit(stateRoot, root, desired, same, unit);
    FilterMapElements(RestartableFilter(stateRoot, desired, same), units, ManagedUnit(unit.unitName, Some(root)));
    forall s | s in Stale(stateRoot, mounts, same, units) ensures s.unitName != unit.unitName {
      FilterMapElements(StaleFilter(stateRoot, desired, same), units, s);
    }
    forall s | s in Deprecated(units) ensures s.unitName != unit.unitName {
      FilterMapElements(DeprecatedOf, units, s);
    }
  }

  /** The unit file written for a configured mount, under its own name, is restartable and neither
      stale nor deprecated, in whatever list of unit files it is found. */
  lemma WrittenUnitIsRestartable(helper: string, stateRoot: string, mount: MountConfig, logPath: string, unitPath: string,
                                 mounts: seq<MountConfig>, same: (string, string) -> bool, units: seq<UnitFile>)
    requires ReadsBack(helper, stateRoot, mount.projectionRoot)
    requires mount in mounts && mount.projection == LinuxFuse
    requires same(stateRoot, stateRoot) && !IsDeprecatedStateRoot(stateRoot)
    requires UnitFile(UnitNameOf(mount), unitPath, UnitContents(helper, stateRoot, mount.projectionRoot, logPath)) in units
    requires forall u, v :: u in units && v in units && u.unitName == v.unitName ==> u == v
    ensures ManagedUnit(UnitNameOf(mount), Some(mount.projectionRoot)) in Restartable(stateRoot, mounts, same, units)
    ensures forall s :: s in Stale(stateRoot, mounts, same, units) ==> s.unitName != UnitNameOf(mount)
    ensures forall s :: s in Deprecated(units) ==> s.unitName != UnitNameOf(mount)
  {
    var contents := UnitContents(helper, stateRoot, mount.projectionRoot, logPath);
    UnitFileRoundTrip(helper, stateRoot, mount.projectionRoot, logPath);
    CurrentPrefixIsNotDeprecated(RootIds.Sanitize(RootIds.RootId(mount.projectionRoot)));
    ReadUnitIsRestartable(stateRoot, mount.projectionRoot, UnitFile(UnitNameOf(mount), unitPath, contents), mounts, same, units);
  }
}
