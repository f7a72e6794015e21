/**
 The FAT volume inside the image: a bounded stream over the image file, the calls the patch makes on
 the file system, and the patch itself.
 */
module FatVolume {
  import opened Wrappers
  import opened Bytes
  import opened Streams
  import opened BootPatch

  /** The window on the image that the FAT library reads and writes through. */
  class StreamSlice {
    const image: ImageFile
    const start: nat
    const end: nat
    var offset: nat

    ghost predicate Valid()
      reads this
    {
      start <= offset <= end
    }

    constructor (image: ImageFile, start: nat, end: nat)
      requires start <= end
      ensures Valid() && this.image == image && this.start == start && this.end == end && offset == start
    {
      this.image, this.start, this.end, this.offset := image, start, end, start;
    }

    ghost function State(): View
      reads this, image
    {
      View(image.data, offset)
    }

    method Do(op: SliceOp)
      requires Valid()
      modifies this, image`data
      ensures Valid() && State() == Step(old(State()), start, end, op)
    {
      var v := Step(View(image.data, offset), start, end, op);
      image.data := v.data;
      offset := v.offset;
    }

    /** A session of the driver: any list of reads, writes and seeks. */
    method Run(ops: seq<SliceOp>)
      requires Valid()
      modifies this, image`data
      ensures Valid() && State() == Steps(old(State()), start, end, ops)
      ensures Confined(old(image.data), image.data, start, end)
    {
      ghost var v0 := State();
      var i := 0;
      while i < |ops|
        invariant i <= |ops| && Valid()
        invariant Steps(v0, start, end, ops) == Steps(State(), start, end, ops[i..])
      {
        Do(ops[i]);
        assert ops[i..][1..] == ops[i + 1..];
        i := i + 1;
      }
      StepsConfined(v0, start, end, ops);
    }
  }

  lemma ConfinedJoins(a: seq<byte>, b: seq<byte>, c: seq<byte>, start: nat, end: nat)
    requires Confined(a, b, start, end) && Confined(b, c, start, end)
    ensures Confined(a, c, start, end)
  {
  }

  /** A mounted file system. `tree` is what the library reads from the partition. */
  class Volume {
    const slice: StreamSlice
    const driver: Driver
    var tree: FatTree

    ghost predicate Valid()
      reads this, slice, slice.image
    {
      && slice.Valid() && Sound(driver)
      && driver.mount(Window(slice.image.data, slice.start, slice.end), slice.end - slice.start) == Some(tree)
    }

    constructor (slice: StreamSlice, driver: Driver, tree: FatTree)
      requires slice.Valid() && Sound(driver)
      requires driver.mount(Window(slice.image.data, slice.start, slice.end), slice.end - slice.start) == Some(tree)
      ensures Valid() && this.slice == slice && this.driver == driver && this.tree == tree
    {
      this.slice, this.driver, this.tree := slice, driver, tree;
    }

    /** Bring the partition to another tree, or fail for want of room or on an I/O error. */
    method Commit(next: FatTree) returns (ok: bool)
      requires Valid()
      modifies this, slice, slice.image`data
      ensures ok ==> Valid() && tree == next
      ensures Confined(old(slice.image.data), slice.image.data, slice.start, slice.end)
      ensures slice.image.reliable && RoomFor(driver, old(tree), next, slice.end - slice.start) ==> ok
    {
      var bytes := Window(slice.image.data, slice.start, slice.end);
      var plan := driver.plan(next, bytes, slice.end - slice.start);
      if plan.None? {
        return false;
      }
      slice.Do(SeekStart(0));
      ghost var v := slice.State();
      StepsAreLocal(v, slice.start, slice.end, plan.value);
      assert v.data == old(slice.image.data) && v.offset == slice.start;
      ok := Chance();
      ok := ok || slice.image.reliable;
      if ok {
        slice.Run(plan.value);
        tree := next;
      } else {
        var n := Amount(|plan.value|);
        slice.Run(plan.value[..n]);
      }
    }

    /** `create_dir`: opens the directory if there is one, refuses if there is a file. */
    method CreateDir(path: string) returns (ok: bool)
      requires Valid()
      modifies this, slice, slice.image`data
      ensures ok ==> Valid() && path !in old(tree).files && tree == old(tree).(dirs := old(tree).dirs + {path})
      ensures Confined(old(slice.image.data), slice.image.data, slice.start, slice.end)
      ensures && slice.image.reliable && path !in old(tree).files
              && RoomFor(driver, old(tree), old(tree).(dirs := old(tree).dirs + {path}), slice.end - slice.start)
              ==> ok
    {
      if path in tree.files {
        return false;
      }
      if path in tree.dirs {
        assert tree.dirs == tree.dirs + {path};
        return true;
      }
      ok := Commit(tree.(dirs := tree.dirs + {path}));
    }

    /** `create_file`, `truncate`, `write_all`: the file ends up with exactly these bytes. */
    method Install(path: string, bytes: seq<byte>) returns (ok: bool)
      requires Valid()
      modifies this, slice, slice.image`data
      ensures ok ==> Valid() && path !in old(tree).dirs && tree == SetFile(old(tree), path, bytes)
      ensures Confined(old(slice.image.data), slice.image.data, slice.start, slice.end)
      ensures && slice.image.reliable && path !in old(tree).dirs
              && RoomToRewrite(driver, old(tree), path, bytes, slice.end - slice.start)
              ==> ok
    {
      if path in tree.dirs {
        return false;
      }
      ok := Overwrite(path, Lookup(tree, path), bytes);
    }

    /** The three calls on an open file, each of which may fail on its own. */
    method Overwrite(path: string, current: seq<byte>, bytes: seq<byte>) returns (ok: bool)
      requires Valid() && current == Lookup(tree, path)
      modifies this, slice, slice.image`data
      ensures ok ==> Valid() && tree == SetFile(old(tree), path, bytes)
      ensures Confined(old(slice.image.data), slice.image.data, slice.start, slice.end)
      ensures slice.image.reliable && RoomToRewrite(driver, old(tree), path, bytes, slice.end - slice.start) ==> ok
    {
      ghost var t, d0 := tree, slice.image.data;
      assert SetFile(SetFile(t, path, current), path, []) == SetFile(t, path, []);
      assert SetFile(SetFile(t, path, []), path, bytes) == SetFile(t, path, bytes);
      ok := Commit(SetFile(tree, path, current));
      if !ok {
        return;
      }
      ghost var d1 := slice.image.data;
      ok := Commit(SetFile(tree, path, []));
      ghost var d2 := slice.image.data;
      ConfinedJoins(d0, d1, d2, slice.start, slice.end);
      if !ok {
        return;
      }
      ok := Commit(SetFile(tree, path, bytes));
      ConfinedJoins(d0, d2, slice.image.data, slice.start, slice.end);
    }
  }

  /** The image holds a FAT32 boot partition that the driver reads as this tree. */
  ghost predicate BootTree(data: seq<byte>, driver: Driver, p: Partition, t: FatTree) {
    && |data| >= 512 && BootEntry(data[..512]) == Ok(p) && p.start <= p.end
    && driver.mount(Window(data, p.start, p.end), p.end - p.start) == Some(t)
  }

  /** What a successful patch has done to the image. */
  ghost predicate PatchDone(
    before: seq<byte>, after: seq<byte>, driver: Driver, dtbo: seq<byte>, variant: seq<byte>, found: bool)
  {
    exists p, t ::
      && BootTree(before, driver, p, t) && Patchable(t, variant, found)
      && BootTree(after, driver, p, Patched(t, dtbo, variant, found))
      && Confined(before, after, p.start, p.end)
  }

  /** No byte outside the boot partition changes; without a boot partition none does. */
  ghost predicate OnlyBootPartition(before: seq<byte>, after: seq<byte>) {
    if |before| >= 512 && BootEntry(before[..512]).Ok?
    then Confined(before, after, BootEntry(before[..512]).value.start, BootEntry(before[..512]).value.end)
    else after == before
  }

  /** What could stand in the way of a patch is not there: a file where the directory goes, directories
      where files go, and for soysauce a missing directory or configuration. */
  predicate ClearWay(t: FatTree, variant: seq<byte>, found: bool) {
    && "overlays" !in t.files && "overlays/mipi-panel.dtbo" !in t.dirs && "variant" !in t.dirs
    && (variant == SOYSAUCE ==> "extlinux" in t.dirs)
    && (variant == SOYSAUCE && found && Lookup(t, CONF_SOYSAUCE) != [] ==>
          "extlinux/extlinux.conf" in t.files && "extlinux/extlinux.conf.bak" !in t.dirs)
  }

  lemma WhatIsPatchable(variant: seq<byte>, found: bool)
    ensures forall t :: Patchable(t, variant, found) <==> ClearWay(t, variant, found)
  {
  }

  /** The image has a boot partition with a tree the patch can be applied to. */
  ghost predicate PatchableImage(data: seq<byte>, driver: Driver, variant: seq<byte>, found: bool) {
    exists p, t :: BootTree(data, driver, p, t) && ClearWay(t, variant, found)
  }

  /** If so, the partition has room for it. */
  ghost predicate RoomyImage(data: seq<byte>, driver: Driver, dtbo: seq<byte>, variant: seq<byte>, found: bool) {
    forall p, t :: BootTree(data, driver, p, t) && Patchable(t, variant, found) ==>
                     HasRoom(driver, t, dtbo, variant, found, p.end - p.start)
  }

  /** A patch of this image cannot but succeed, unless reading or writing it fails. */
  ghost predicate WillPatch(data: seq<byte>, driver: Driver, dtbo: seq<byte>, variant: seq<byte>, found: bool) {
    PatchableImage(data, driver, variant, found) && RoomyImage(data, driver, dtbo, variant, found)
  }

  /** The image has an alternate configuration that the patch could switch to. */
  ghost predicate SwitchableImage(data: seq<byte>, driver: Driver, variant: seq<byte>) {
    exists p, t :: BootTree(data, driver, p, t) && Patchable(t, variant, true) && Switches(t, variant)
  }

  /** On such an image: it has become the patched and switched one if and only if the search for the
      alternate went through, or switching would change nothing. */
  ghost predicate SwitchedIfFound(
    before: seq<byte>, after: seq<byte>, driver: Driver, dtbo: seq<byte>, variant: seq<byte>, found: bool)
  {
    forall p, t :: BootTree(before, driver, p, t) && Patchable(t, variant, true) && Switches(t, variant) ==>
                     (BootTree(after, driver, p, Patched(t, dtbo, variant, true)) <==> found || SwitchIsVoid(t))
  }

  /** It has the new overlay and variant, but its configuration is as it was. */
  ghost predicate Unswitched(
    before: seq<byte>, after: seq<byte>, driver: Driver, dtbo: seq<byte>, variant: seq<byte>)
  {
    forall p, t :: BootTree(before, driver, p, t) ==> BootTree(after, driver, p, WithVariant(t, dtbo, variant))
  }

  /** What a patch does to the configuration, whatever the tree: for another variant than soysauce
      nothing, and for soysauce it puts the alternate in place and the old one in the backup exactly if
      the alternate was found and is not empty. */
  ghost predicate Configured(
    before: seq<byte>, after: seq<byte>, driver: Driver, dtbo: seq<byte>, variant: seq<byte>, found: bool)
  {
    forall p, t :: BootTree(before, driver, p, t) ==>
                     exists u :: BootTree(after, driver, p, u) && ConfiguredTree(t, u, variant, found)
  }

  predicate ConfiguredTree(t: FatTree, u: FatTree, variant: seq<byte>, found: bool) {
    if variant == SOYSAUCE && found && Lookup(t, CONF_SOYSAUCE) != []
    then && CONF in t.files && CONF in u.files && u.files[CONF] == t.files[CONF_SOYSAUCE]
         && CONF_BAK in u.files && u.files[CONF_BAK] == t.files[CONF]
    else SameFile(u, t, CONF) && SameFile(u, t, CONF_BAK)
  }

  lemma PatchConfigures(
    before: seq<byte>, after: seq<byte>, driver: Driver, dtbo: seq<byte>, variant: seq<byte>, found: bool)
    requires PatchDone(before, after, driver, dtbo, variant, found)
    ensures Configured(before, after, driver, dtbo, variant, found)
    ensures PatchableImage(before, driver, variant, found)
    ensures variant != SOYSAUCE ==> Unswitched(before, after, driver, dtbo, variant)
  {
    var p, t :| BootTree(before, driver, p, t) && Patchable(t, variant, found)
                && BootTree(after, driver, p, Patched(t, dtbo, variant, found));
    OnlyTree(before, driver, p, t);
    WhatIsPatchable(variant, found);
    PatchedFiles(t, dtbo, variant, found, "");
    assert ConfiguredTree(t, Patched(t, dtbo, variant, found), variant, found);
  }

  lemma PatchSwitches(
    before: seq<byte>, after: seq<byte>, driver: Driver, dtbo: seq<byte>, variant: seq<byte>, found: bool)
    requires PatchDone(before, after, driver, dtbo, variant, found)
    ensures SwitchedIfFound(before, after, driver, dtbo, variant, found)
    ensures !found ==> Unswitched(before, after, driver, dtbo, variant)
  {
    var p, t :| BootTree(before, driver, p, t) && Patchable(t, variant, found)
                && BootTree(after, driver, p, Patched(t, dtbo, variant, found));
    OnlyTree(before, driver, p, t);
    OnlyTree(after, driver, p, Patched(t, dtbo, variant, found));
    if Patchable(t, variant, true) && Switches(t, variant) {
      SwitchMatters(t, dtbo, variant);
    }
  }

  /** An image has at most one boot partition and tree. */
  lemma OnlyTree(data: seq<byte>, driver: Driver, p: Partition, t: FatTree)
    requires BootTree(data, driver, p, t)
    ensures forall p', t' :: BootTree(data, driver, p', t') ==> p' == p && t' == t
  {
  }

  /** The edits of the patch, in the order the source makes them. `found` says whether the directory
      scan for the alternate configuration goes through. That is the one error the source swallows;
      `reliable` is about all the others. */
  method EditTree(v: Volume, dtbo: seq<byte>, variant: seq<byte>, found: bool) returns (ok: bool)
    requires v.Valid()
    modifies v, v.slice, v.slice.image`data
    ensures ok ==> && v.Valid() && Patchable(old(v.tree), variant, found)
                   && v.tree == Patched(old(v.tree), dtbo, variant, found)
    ensures Confined(old(v.slice.image.data), v.slice.image.data, v.slice.start, v.slice.end)
    ensures v.slice.image.reliable && Patchable(old(v.tree), variant, found)
            && HasRoom(v.driver, old(v.tree), dtbo, variant, found, v.slice.end - v.slice.start)
            ==> ok
  {
    ghost var t, d0 := v.tree, v.slice.image.data;
    PathsDiffer();
    NamesOfDirectories();
    ConfUntouched(t, dtbo, variant);
    ok := v.CreateDir(OVERLAYS);
    ghost var d1 := v.slice.image.data;
    if !ok {
      return;
    }
    ok := v.Install(OVERLAY, dtbo);
    ghost var d2 := v.slice.image.data;
    ConfinedJoins(d0, d1, d2, v.slice.start, v.slice.end);
    if !ok {
      return;
    }
    ok := v.Install(VARIANT, variant);
    ghost var d3 := v.slice.image.data;
    ConfinedJoins(d0, d2, d3, v.slice.start, v.slice.end);
    if !ok || variant != SOYSAUCE {
      return;
    }
    if EXTLINUX !in v.tree.dirs {
      return false;
    }
    ok := SwitchConf(v, found);
    ConfinedJoins(d0, d3, v.slice.image.data, v.slice.start, v.slice.end);
  }

  /** The soysauce switch: keep the current configuration as a backup, install the alternate. Any
      failure to open the alternate one, be it that there is none or that the directory cannot be read,
      counts as there being none. */
  method SwitchConf(v: Volume, found: bool) returns (ok: bool)
    requires v.Valid()
    modifies v, v.slice, v.slice.image`data
    ensures ok ==> v.Valid()
    ensures var switches := found && Lookup(old(v.tree), CONF_SOYSAUCE) != [];
            && (ok && !switches ==> v.tree == old(v.tree))
            && (ok && switches ==>
                  && CONF in old(v.tree).files && CONF_BAK !in old(v.tree).dirs
                  && v.tree == SetFile(SetFile(old(v.tree), CONF_BAK, old(v.tree).files[CONF]), CONF,
                                       old(v.tree).files[CONF_SOYSAUCE]))
    ensures Confined(old(v.slice.image.data), v.slice.image.data, v.slice.start, v.slice.end)
    ensures v.slice.image.reliable && (!found || Lookup(old(v.tree), CONF_SOYSAUCE) == []) ==> ok
    ensures v.slice.image.reliable && CONF in old(v.tree).files && CONF_BAK !in old(v.tree).dirs
            && RoomToSwitch(v.driver, old(v.tree), v.slice.end - v.slice.start)
            ==> ok
  {
    var soys := [];
    if found && CONF_SOYSAUCE in v.tree.files {
      var readable := Chance();
      if !readable && !v.slice.image.reliable {
        return false;
      }
      soys := v.tree.files[CONF_SOYSAUCE];
    }
    if soys == [] {
      return true;
    }
    var readable := Chance();
    if CONF !in v.tree.files || (!readable && !v.slice.image.reliable) {
      return false;
    }
    ghost var d0 := v.slice.image.data;
    PathsDiffer();
    ok := v.Install(CONF_BAK, v.tree.files[CONF]);
    ghost var d1 := v.slice.image.data;
    if !ok {
      return;
    }
    ok := v.Overwrite(CONF, v.tree.files[CONF], soys);
    ConfinedJoins(d0, d1, v.slice.image.data, v.slice.start, v.slice.end);
  }

  /** `patch_boot_partition`. `dtbo` is the content of the overlay file, if it is a readable file. */
  method PatchBootPartition(
    image: ImageFile, dtbo: Option<seq<byte>>, variant: seq<byte>, driver: Driver, found: bool)
    returns (r: Result<(), PatchError>)
    requires Sound(driver)
    modifies image
    ensures r.Ok? ==>
              && dtbo.Some?
              && PatchDone(old(image.data), image.data, driver, dtbo.value, variant, found)
              && Configured(old(image.data), image.data, driver, dtbo.value, variant, found)
              && SwitchedIfFound(old(image.data), image.data, driver, dtbo.value, variant, found)
              && (variant != SOYSAUCE ==> Unswitched(old(image.data), image.data, driver, dtbo.value, variant))
    ensures OnlyBootPartition(old(image.data), image.data)
    ensures dtbo.None? ==> r == Err(NoDtbo) && image.data == old(image.data)
    ensures image.reliable && dtbo.Some? && RoomyImage(old(image.data), driver, dtbo.value, variant, found) ==>
              (r.Ok? <==> PatchableImage(old(image.data), driver, variant, found))
    // the failure the source swallows
    ensures image.reliable && dtbo.Some? && RoomyImage(old(image.data), driver, dtbo.value, variant, found)
            && !found && SwitchableImage(old(image.data), driver, variant)
            ==> r.Ok? && Unswitched(old(image.data), image.data, driver, dtbo.value, variant)
  {
    if dtbo.None? {
      return Err(NoDtbo);
    }
    var ok := image.Open();
    if !ok {
      return Err(CannotOpen);
    }
    var mbr := new byte[512];
    ok := image.ReadExact(mbr, 512);
    if !ok {
      return Err(NoMbr);
    }
    ghost var before := image.data;
    assert mbr[..] == mbr[..512] == before[..512];
    var p :- BootEntry(mbr[..]);
    BootEntryBounds(mbr[..]);
    r := PatchPartition(image, p, dtbo.value, variant, driver, found);
    if r.Ok? {
      PatchSwitches(before, image.data, driver, dtbo.value, variant, found);
      PatchConfigures(before, image.data, driver, dtbo.value, variant, found);
    }
  }

  /** The part of the patch behind the partition table. */
  method PatchPartition(
    image: ImageFile, p: Partition, dtbo: seq<byte>, variant: seq<byte>, driver: Driver, found: bool)
    returns (r: Result<(), PatchError>)
    requires Sound(driver) && |image.data| >= 512 && BootEntry(image.data[..512]) == Ok(p) && 512 <= p.start < p.end
    modifies image
    ensures r.Ok? ==> PatchDone(old(image.data), image.data, driver, dtbo, variant, found)
    ensures Confined(old(image.data), image.data, p.start, p.end)
    ensures image.reliable && WillPatch(old(image.data), driver, dtbo, variant, found) ==> r.Ok?
  {
    ghost var before := image.data;
    var tree := driver.mount(Window(image.data, p.start, p.end), p.end - p.start);
    if tree.None? {
      NothingMounted(before, driver, p, variant, found);
      return Err(CannotMount);
    }
    RoomForPatch(before, driver, p, tree.value, dtbo, variant, found);
    var ok := PatchTree(image, p, tree.value, dtbo, variant, driver, found);
    r := if ok then Ok(()) else Err(FatFailed);
  }

  /** The edits on the mounted file system, and its unmounting. */
  method PatchTree(
    image: ImageFile, p: Partition, tree: FatTree, dtbo: seq<byte>, variant: seq<byte>, driver: Driver, found: bool)
    returns (ok: bool)
    requires Sound(driver) && BootTree(image.data, driver, p, tree) && 512 <= p.start
    modifies image
    ensures ok ==> PatchDone(old(image.data), image.data, driver, dtbo, variant, found)
    ensures Confined(old(image.data), image.data, p.start, p.end)
    ensures image.reliable && Patchable(tree, variant, found)
            && HasRoom(driver, tree, dtbo, variant, found, p.end - p.start)
            ==> ok
  {
    ghost var before := image.data;
    var slice := new StreamSlice(image, p.start, p.end);
    var volume := new Volume(slice, driver, tree);
    ok := EditTree(volume, dtbo, variant, found);
    if !ok {
      return;
    }
    var unmounted := Chance();
    if !unmounted && !image.reliable {
      return false;
    }
    PatchIsDone(before, image.data, driver, p, tree, dtbo, variant, found);
  }

  lemma NothingMounted(data: seq<byte>, driver: Driver, p: Partition, variant: seq<byte>, found: bool)
    requires |data| >= 512 && BootEntry(data[..512]) == Ok(p) && p.start <= p.end
    requires driver.mount(Window(data, p.start, p.end), p.end - p.start) == None
    ensures !PatchableImage(data, driver, variant, found)
  {
  }

  lemma RoomForPatch(
    data: seq<byte>, driver: Driver, p: Partition, t: FatTree, dtbo: seq<byte>, variant: seq<byte>, found: bool)
    requires BootTree(data, driver, p, t)
    ensures WillPatch(data, driver, dtbo, variant, found) ==>
              Patchable(t, variant, found) && HasRoom(driver, t, dtbo, variant, found, p.end - p.start)
  {
    OnlyTree(data, driver, p, t);
    WhatIsPatchable(variant, found);
  }

  lemma PatchIsDone(
    before: seq<byte>, after: seq<byte>, driver: Driver, p: Partition, t: FatTree, dtbo: seq<byte>,
    variant: seq<byte>, found: bool)
    requires BootTree(before, driver, p, t) && Patchable(t, variant, found)
    requires 512 <= p.start && Confined(before, after, p.start, p.end)
    requires driver.mount(Window(after, p.start, p.end), p.end - p.start) == Some(Patched(t, dtbo, variant, found))
    ensures PatchDone(before, after, driver, dtbo, variant, found)
  {
    assert after[..512] == before[..512];
    assert BootTree(after, driver, p, Patched(t, dtbo, variant, found));
  }
}
