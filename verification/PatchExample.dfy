/**
 The patch can succeed: for every tree it can be applied to there are a driver that does what is asked
 of it and an image that holds the tree. The driver keeps a shelf of the trees on the way and writes
 down which of them the partition holds.
 */
module PatchExample {
  import opened Wrappers
  import opened Bytes
  import opened BootPatch
  import opened FatVolume

  function IndexOf(shelf: seq<FatTree>, t: FatTree): (i: nat)
    requires t in shelf
    ensures i < |shelf| && shelf[i] == t
  {
    if shelf[0] == t then 0 else 1 + IndexOf(shelf[1..], t)
  }

  function Mounted(shelf: seq<FatTree>, w: seq<byte>): Option<FatTree> {
    if w != [] && (w[0] as nat) < |shelf| then Some(shelf[w[0]]) else None
  }

  function Planned(shelf: seq<FatTree>, t: FatTree, size: nat): Option<seq<SliceOp>>
    requires |shelf| <= 256
  {
    if size > 0 && t in shelf then Some([Write([IndexOf(shelf, t) as byte])]) else None
  }

  function ShelfDriver(shelf: seq<FatTree>): Driver
    requires |shelf| <= 256
  {
    Driver((w: seq<byte>, size: nat) => Mounted(shelf, w),
           (t: FatTree, w: seq<byte>, size: nat) => Planned(shelf, t, size))
  }

  lemma ShelfDriverIsSound(shelf: seq<FatTree>)
    requires |shelf| <= 256
    ensures Sound(ShelfDriver(shelf))
  {
    var d := ShelfDriver(shelf);
    forall t, w, size: nat, ops | d.plan(t, w, size) == Some(ops)
      ensures d.mount(Steps(View(w, 0), 0, size, ops).data, size) == Some(t)
    {
      PlanWrites(shelf, t, w, size);
    }
  }

  lemma PlanWrites(shelf: seq<FatTree>, t: FatTree, w: seq<byte>, size: nat)
    requires |shelf| <= 256 && size > 0 && t in shelf
    ensures Mounted(shelf, Steps(View(w, 0), 0, size, [Write([IndexOf(shelf, t) as byte])]).data) == Some(t)
  {
    var mark := [IndexOf(shelf, t) as byte];
    var ops := [Write(mark)];
    assert mark[..Min(1, size)] == mark;
    assert ops[1..] == [];
    assert Steps(View(w, 0), 0, size, ops) == Step(View(w, 0), 0, size, ops[0]);
    FileWriteAt(w, 0, mark, 0);
  }

  /** The trees of rewriting a file. */
  function Rewriting(t: FatTree, path: string, bytes: seq<byte>): seq<FatTree> {
    [SetFile(t, path, Lookup(t, path)), SetFile(t, path, []), SetFile(t, path, bytes)]
  }

  /** All the trees on the way. */
  function Shelf(t: FatTree, dtbo: seq<byte>, variant: seq<byte>): (shelf: seq<FatTree>)
    ensures |shelf| == 14
  {
    var v := WithVariant(t, dtbo, variant);
    [t, WithOverlays(t)]
    + Rewriting(WithOverlays(t), OVERLAY, dtbo) + Rewriting(WithOverlay(t, dtbo), VARIANT, variant)
    + Rewriting(v, CONF_BAK, Lookup(v, CONF))
    + Rewriting(SetFile(v, CONF_BAK, Lookup(v, CONF)), CONF, Lookup(v, CONF_SOYSAUCE))
  }

  lemma RoomOnShelf(shelf: seq<FatTree>, t: FatTree, path: string, bytes: seq<byte>, size: nat)
    requires |shelf| <= 256 && size > 0 && forall r :: r in Rewriting(t, path, bytes) ==> r in shelf
    ensures RoomToRewrite(ShelfDriver(shelf), t, path, bytes, size)
  {
    var trees := Rewriting(t, path, bytes);
    assert trees[0] in shelf && trees[1] in shelf && trees[2] in shelf;
  }

  lemma ShelfHasRoom(t: FatTree, dtbo: seq<byte>, variant: seq<byte>, found: bool, size: nat)
    requires size > 0
    ensures HasRoom(ShelfDriver(Shelf(t, dtbo, variant)), t, dtbo, variant, found, size)
  {
    var shelf, v := Shelf(t, dtbo, variant), WithVariant(t, dtbo, variant);
    assert shelf[1] == WithOverlays(t);
    RoomOnShelf(shelf, WithOverlays(t), OVERLAY, dtbo, size);
    RoomOnShelf(shelf, WithOverlay(t, dtbo), VARIANT, variant, size);
    RoomOnShelf(shelf, v, CONF_BAK, Lookup(v, CONF), size);
    RoomOnShelf(shelf, SetFile(v, CONF_BAK, Lookup(v, CONF)), CONF, Lookup(v, CONF_SOYSAUCE), size);
  }

  /** An image of one sector and one byte: the partition table, and the mark of the first tree. */
  function Image(): (data: seq<byte>) {
    Mbr(Zeros(446), Zeros(4), 0x0c, Zeros(3), 1, 1, Zeros(48), [0x55, 0xAA]).Sector() + [0]
  }

  lemma ImageHolds(shelf: seq<FatTree>)
    requires 0 < |shelf| <= 256
    ensures BootTree(Image(), ShelfDriver(shelf), Partition(512, 1024), shelf[0])
  {
    var m := Mbr(Zeros(446), Zeros(4), 0x0c, Zeros(3), 1, 1, Zeros(48), [0x55, 0xAA]);
    BootEntryReadsBack(m);
    assert Image()[..512] == m.Sector();
    assert Window(Image(), 512, 1024) == [0];
  }

  /** Whatever the tree, the overlay and the variant: there are a driver and an image on which the patch
      is bound to succeed if the tree allows it, with or without the switch. */
  lemma PatchCanSucceed(t: FatTree, dtbo: seq<byte>, variant: seq<byte>, found: bool)
    returns (driver: Driver, data: seq<byte>)
    requires Patchable(t, variant, found)
    ensures Sound(driver) && BootTree(data, driver, Partition(512, 1024), t)
    ensures WillPatch(data, driver, dtbo, variant, found)
    ensures Patchable(t, variant, true) && Switches(t, variant) ==> SwitchableImage(data, driver, variant)
  {
    var shelf := Shelf(t, dtbo, variant);
    driver, data := ShelfDriver(shelf), Image();
    ShelfDriverIsSound(shelf);
    ImageHolds(shelf);
    ShelfHasRoom(t, dtbo, variant, found, 512);
    OnlyTree(data, driver, Partition(512, 1024), t);
    WhatIsPatchable(variant, found);
  }

  /** A tree with an alternate configuration to switch to. */
  lemma SwitchableTree(conf: seq<byte>, alternate: seq<byte>) returns (t: FatTree)
    requires alternate != []
    ensures Patchable(t, SOYSAUCE, true) && Switches(t, SOYSAUCE)
    ensures t.files[CONF] == conf && t.files[CONF_SOYSAUCE] == alternate && !SwitchIsVoid(t)
  {
    PathsDiffer();
    NamesOfDirectories();
    t := FatTree({EXTLINUX}, map[CONF := conf, CONF_SOYSAUCE := alternate]);
    assert OVERLAY[0] == 'o' && VARIANT[0] == 'v' && EXTLINUX[0] == 'e';
    assert |EXTLINUX| < |CONF_BAK|;
  }
}
