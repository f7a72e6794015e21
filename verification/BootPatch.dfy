/**
 The boot-partition patch of the macOS path (src-tauri/src/rawwrite_unix.rs): find the first MBR
 partition, open a window on it inside the image file, and edit the FAT tree in that window.
 */
module BootPatch {
  import opened Wrappers
  import opened Bytes
  import opened Streams

  // ----- The partition table -----

  datatype PatchError =
    | NoDtbo
    | CannotOpen
    | NoMbr
    | NoSignature
    | NotFat32
    | EmptyEntry
    | CannotMount
    | FatFailed

  const LBA: nat := 512

  function Le32(b: seq<byte>): (n: nat)
    requires |b| == 4
    ensures n < 0x1_0000_0000
  {
    b[0] as nat + 0x100 * b[1] as nat + 0x1_0000 * b[2] as nat + 0x100_0000 * b[3] as nat
  }

  datatype Partition = Partition(start: nat, end: nat)

  /** The byte range of the first partition, if the sector is an MBR that begins with a FAT32 one. */
  function BootEntry(mbr: seq<byte>): Result<Partition, PatchError>
    requires |mbr| == 512
  {
    if mbr[510] != 0x55 || mbr[511] != 0xAA then Err(NoSignature)
    else
      var entry := mbr[446..462];
      if entry[4] != 0x0c && entry[4] != 0x0b then Err(NotFat32)
      else
        var startLba, numSectors := Le32(entry[8..12]), Le32(entry[12..16]);
        if startLba == 0 || numSectors == 0 then Err(EmptyEntry)
        else Ok(Partition(startLba * LBA, startLba * LBA + numSectors * LBA))
  }

  /** The bounds never overflow 64 bits, the window is whole sectors, and the MBR lies before it. */
  lemma BootEntryBounds(mbr: seq<byte>)
    requires |mbr| == 512 && BootEntry(mbr).Ok?
    ensures var p := BootEntry(mbr).value;
            && 512 <= p.start < p.end < 0x1_0000_0000_0000_0000
            && p.start % LBA == 0 && p.end % LBA == 0
  {
    var entry := mbr[446..462];
    var s, n := Le32(entry[8..12]), Le32(entry[12..16]);
    assert BootEntry(mbr).value == Partition(512 * s, 512 * (s + n));
  }

  function ToLe32(n: nat): seq<byte>
    requires n < 0x1_0000_0000
  {
    var n1 := n / 0x100;
    var n2 := n1 / 0x100;
    [(n % 0x100) as byte, (n1 % 0x100) as byte, (n2 % 0x100) as byte, (n2 / 0x100) as byte]
  }

  /** Little-endian numbers are read back exactly. */
  lemma Le32ReadsBack(n: nat)
    requires n < 0x1_0000_0000
    ensures Le32(ToLe32(n)) == n
  {
    var n1 := n / 0x100;
    var n2 := n1 / 0x100;
    assert n == 0x100 * n1 + n % 0x100;
    assert n1 == 0x100 * n2 + n1 % 0x100;
    assert n2 == 0x100 * (n2 / 0x100) + n2 % 0x100;
  }

  /** The parts of a master boot record, section 5.2.1 of the UEFI Specification, with its first entry
      taken apart. */
  datatype Mbr = Mbr(
    code: seq<byte>, bootAndStart: seq<byte>, osType: byte, endOfChs: seq<byte>, startingLba: nat, sizeInLba: nat,
    otherEntries: seq<byte>, signature: seq<byte>)
  {
    predicate Valid() {
      && |code| == 446 && |bootAndStart| == 4 && |endOfChs| == 3 && |otherEntries| == 48 && |signature| == 2
      && startingLba < 0x1_0000_0000 && sizeInLba < 0x1_0000_0000
    }

    function Entry(): (e: seq<byte>)
      requires Valid()
      ensures |e| == 16
    {
      bootAndStart + [osType] + endOfChs + ToLe32(startingLba) + ToLe32(sizeInLba)
    }

    function Sector(): (b: seq<byte>)
      requires Valid()
      ensures |b| == 512
    {
      code + Entry() + otherEntries + signature
    }
  }

  /** The patch reads the first entry as it is laid down: just signature, type and the two numbers
      matter, and they are read back as they were put in. */
  lemma BootEntryReadsBack(m: Mbr)
    requires m.Valid()
    ensures BootEntry(m.Sector()) ==
            if m.signature != [0x55, 0xAA] then Err(NoSignature)
            else if m.osType != 0x0b && m.osType != 0x0c then Err(NotFat32)
            else if m.startingLba == 0 || m.sizeInLba == 0 then Err(EmptyEntry)
            else Ok(Partition(512 * m.startingLba, 512 * (m.startingLba + m.sizeInLba)))
  {
    var sector, entry := m.Sector(), m.Entry();
    assert sector[510] == m.signature[0] && sector[511] == m.signature[1];
    assert sector[446..462] == entry;
    assert entry[4] == m.osType;
    assert entry[8..12] == ToLe32(m.startingLba) && entry[12..16] == ToLe32(m.sizeInLba);
    Le32ReadsBack(m.startingLba);
    Le32ReadsBack(m.sizeInLba);
  }

  /** Every sector is laid down in this way. */
  lemma EverySectorIsMbr(sector: seq<byte>) returns (m: Mbr)
    requires |sector| == 512
    ensures m.Valid() && m.Sector() == sector
  {
    var start, size := sector[454..458], sector[458..462];
    m := Mbr(sector[..446], sector[446..450], sector[450], sector[451..454], Le32(start), Le32(size),
             sector[462..510], sector[510..]);
    Le32WritesBack(start);
    Le32WritesBack(size);
    assert m.Entry() == sector[446..462];
  }

  lemma Le32WritesBack(b: seq<byte>)
    requires |b| == 4
    ensures ToLe32(Le32(b)) == b
  {
    var n2 := b[2] as nat + 0x100 * b[3] as nat;
    var n1 := b[1] as nat + 0x100 * n2;
    assert Le32(b) == b[0] as nat + 0x100 * n1;
    assert Le32(b) / 0x100 == n1 && n1 / 0x100 == n2;
  }

  // ----- The window -----

  /** Writing into a file at a position, past its end if need be. */
  function FileWrite(data: seq<byte>, at: nat, bytes: seq<byte>): (r: seq<byte>)
    ensures |r| == if bytes == [] || at + |bytes| <= |data| then |data| else at + |bytes|
  {
    if bytes == [] then data
    else
      var extended := if at + |bytes| <= |data| then data else data + Zeros(at + |bytes| - |data|);
      Splice(extended, at, bytes)
  }

  /** What a FAT driver may ask of the partition it is given. */
  datatype SliceOp = SeekStart(n: nat) | SeekCurrent(d: int) | SeekEnd(d: int) | Read(len: nat) | Write(bytes: seq<byte>)

  datatype View = View(data: seq<byte>, offset: nat)

  /** One operation on the bytes `[start, end)` of a file; `offset` is a position in the file. Seeks
      out of the window fail, reads and writes stop at its end. */
  function Step(v: View, start: nat, end: nat, op: SliceOp): (r: View)
    requires start <= v.offset <= end
    ensures start <= r.offset <= end
  {
    match op
    case SeekStart(n) => SeekTo(v, start, end, start + n)
    case SeekCurrent(d) => SeekTo(v, start, end, v.offset + d)
    case SeekEnd(d) => SeekTo(v, start, end, end + d)
    case Read(len) =>
      var available := if v.offset < |v.data| then |v.data| - v.offset else 0;
      v.(offset := v.offset + Min(Min(len, end - v.offset), available))
    case Write(bytes) => Put(v, bytes[..Min(|bytes|, end - v.offset)])
  }

  function Put(v: View, part: seq<byte>): View {
    View(FileWrite(v.data, v.offset, part), v.offset + |part|)
  }

  function SeekTo(v: View, start: nat, end: nat, target: int): (r: View)
    requires start <= v.offset <= end
    ensures start <= r.offset <= end
  {
    if start <= target <= end then v.(offset := target) else v
  }

  /** A seek goes as far as asked from the start, the current place or the end of the partition, or
      nowhere; a read moves on by what there is. */
  lemma StepSpelled(v: View, start: nat, end: nat, n: nat, d: int)
    requires start <= v.offset <= end
    ensures Step(v, start, end, SeekStart(n)) == if n <= end - start then View(v.data, start + n) else v
    ensures Step(v, start, end, SeekCurrent(d)) == if start <= v.offset + d <= end then View(v.data, v.offset + d) else v
    ensures Step(v, start, end, SeekEnd(d)) == if start <= end + d <= end then View(v.data, end + d) else v
    ensures var r := Step(v, start, end, Read(n));
            var moved := r.offset - v.offset;
            && r.data == v.data && 0 <= moved <= n && (moved > 0 ==> r.offset <= |v.data|)
            && (moved == n || r.offset == end || r.offset >= |v.data|)
  {
  }

  lemma WriteSpelled(v: View, start: nat, end: nat, bytes: seq<byte>)
    requires start <= v.offset <= end
    ensures Wrote(v, Step(v, start, end, Write(bytes)), end, bytes)
  {
    PutWrote(v, bytes[..Min(|bytes|, end - v.offset)], end, bytes);
  }

  /** As many of the bytes as fit are in the file, at the place of the write. */
  predicate Wrote(v: View, r: View, end: nat, bytes: seq<byte>) {
    var moved := r.offset - v.offset;
    && 0 <= moved <= |bytes| && (moved == |bytes| || r.offset == end)
    && (moved > 0 ==> r.offset <= |r.data| && r.data[v.offset..r.offset] == bytes[..moved])
  }

  lemma PutWrote(v: View, part: seq<byte>, end: nat, bytes: seq<byte>)
    requires v.offset <= end && part == bytes[..Min(|bytes|, end - v.offset)]
    ensures Wrote(v, Put(v, part), end, bytes)
  {
    if part != [] {
      var r := FileWrite(v.data, v.offset, part);
      assert r[v.offset..v.offset + |part|] == part;
    }
  }

  function Steps(v: View, start: nat, end: nat, ops: seq<SliceOp>): (r: View)
    requires start <= v.offset <= end
    ensures start <= r.offset <= end
    decreases |ops|
  {
    if ops == [] then v else Steps(Step(v, start, end, ops[0]), start, end, ops[1..])
  }

  /** The bytes of a file that lie in the window. */
  function Window(data: seq<byte>, start: nat, end: nat): seq<byte>
    requires start <= end
  {
    data[Min(start, |data|)..Min(end, |data|)]
  }

  /** Every byte of the file outside the window is what it was. */
  ghost predicate Confined(before: seq<byte>, after: seq<byte>, start: nat, end: nat) {
    && |before| <= |after| && (|after| == |before| || |after| <= end)
    && forall i :: 0 <= i < |before| && !(start <= i < end) ==> after[i] == before[i]
  }

  lemma StepConfined(v: View, start: nat, end: nat, op: SliceOp)
    requires start <= v.offset <= end
    ensures Confined(v.data, Step(v, start, end, op).data, start, end)
  {
  }

  /** Whatever sequence of reads, writes and seeks the driver makes, the rest of the image stays. */
  lemma {:induction false} StepsConfined(v: View, start: nat, end: nat, ops: seq<SliceOp>)
    requires start <= v.offset <= end
    ensures Confined(v.data, Steps(v, start, end, ops).data, start, end)
    decreases |ops|
  {
    if ops != [] {
      StepConfined(v, start, end, ops[0]);
      StepsConfined(Step(v, start, end, ops[0]), start, end, ops[1..]);
    }
  }

  /** The slice is a faithful stream of its own: what the driver does through it to the image is what
      it would do to a file holding just the partition. */
  lemma StepIsLocal(v: View, start: nat, end: nat, op: SliceOp)
    requires start <= v.offset <= end
    ensures Step(Inside(v, start, end), 0, end - start, op) == Inside(Step(v, start, end, op), start, end)
  {
    match op {
      case SeekStart(n) => SeekIsLocal(v, start, end, start + n);
      case SeekCurrent(d) => SeekIsLocal(v, start, end, v.offset + d);
      case SeekEnd(d) => SeekIsLocal(v, start, end, end + d);
      case Read(len) => ReadIsLocal(v, start, end, len);
      case Write(bytes) => PutIsLocal(v, start, end, bytes[..Min(|bytes|, end - v.offset)]);
    }
  }

  lemma SeekIsLocal(v: View, start: nat, end: nat, target: int)
    requires start <= v.offset <= end
    ensures SeekTo(Inside(v, start, end), 0, end - start, target - start) == Inside(SeekTo(v, start, end, target), start, end)
  {
  }

  lemma ReadIsLocal(v: View, start: nat, end: nat, len: nat)
    requires start <= v.offset <= end
    ensures Step(Inside(v, start, end), 0, end - start, Read(len)) == Inside(Step(v, start, end, Read(len)), start, end)
  {
  }

  lemma PutIsLocal(v: View, start: nat, end: nat, part: seq<byte>)
    requires start <= v.offset && v.offset + |part| <= end
    ensures Put(Inside(v, start, end), part) == Inside(Put(v, part), start, end)
  {
    var at, window := v.offset - start, Window(v.data, start, end);
    assert Put(View(window, at), part) == View(FileWrite(window, at, part), at + |part|);
    WindowOfWrite(v.data, start, end, v.offset, part);
  }

  /** What a file holding just the partition would look like. */
  function Inside(v: View, start: nat, end: nat): View
    requires start <= v.offset <= end
  {
    View(Window(v.data, start, end), v.offset - start)
  }

  lemma WindowOfWrite(data: seq<byte>, start: nat, end: nat, at: nat, part: seq<byte>)
    requires start <= at && at + |part| <= end
    ensures Window(FileWrite(data, at, part), start, end) == FileWrite(Window(data, start, end), at - start, part)
  {
    if part != [] {
      var after, window := FileWrite(data, at, part), Window(data, start, end);
      assert |Window(after, start, end)| == |FileWrite(window, at - start, part)|;
      forall i | 0 <= i < |Window(after, start, end)|
        ensures Window(after, start, end)[i] == FileWrite(window, at - start, part)[i]
      {
        WindowAt(after, start, end, i);
        FileWriteAt(data, at, part, start + i);
        WrittenByteInside(data, start, end, at, part, i);
        FileWriteAt(window, at - start, part, i);
      }
    }
  }

  lemma WindowAt(data: seq<byte>, start: nat, end: nat, i: nat)
    requires start <= end && i < |Window(data, start, end)|
    ensures start + i < |data| && start + i < end && Window(data, start, end)[i] == data[start + i]
  {
  }

  /** Each byte of a file after a write: from the write, from before, or the filling of a hole. */
  function WrittenByte(data: seq<byte>, at: nat, part: seq<byte>, i: nat): byte {
    if at <= i < at + |part| then part[i - at] else if i < |data| then data[i] else 0
  }

  lemma FileWriteAt(data: seq<byte>, at: nat, part: seq<byte>, i: nat)
    requires i < |FileWrite(data, at, part)|
    ensures FileWrite(data, at, part)[i] == WrittenByte(data, at, part, i)
  {
    var r := FileWrite(data, at, part);
    if at <= i < at + |part| {
      assert r[at..at + |part|][i - at] == part[i - at];
    }
  }

  lemma WrittenByteInside(data: seq<byte>, start: nat, end: nat, at: nat, part: seq<byte>, i: nat)
    requires start <= at && at + |part| <= end && start + i < end
    ensures WrittenByte(Window(data, start, end), at - start, part, i) == WrittenByte(data, at, part, start + i)
  {
  }

  lemma {:induction false} StepsAreLocal(v: View, start: nat, end: nat, ops: seq<SliceOp>)
    requires start <= v.offset <= end
    ensures Steps(Inside(v, start, end), 0, end - start, ops) == Inside(Steps(v, start, end, ops), start, end)
    decreases |ops|
  {
    if ops != [] {
      StepIsLocal(v, start, end, ops[0]);
      StepsAreLocal(Step(v, start, end, ops[0]), start, end, ops[1..]);
    }
  }

  // ----- The FAT tree -----

  /** Directories and files by FAT name (upper and lower case identified), files with their bytes. */
  datatype FatTree = FatTree(dirs: set<string>, files: map<string, seq<byte>>)

  function SetFile(t: FatTree, path: string, bytes: seq<byte>): FatTree {
    t.(files := t.files[path := bytes])
  }

  /** The FAT library: how it reads a tree from the bytes of a partition, and the slice operations by
      which it turns such bytes into those of another tree, if they have room for it. */
  datatype Driver = Driver(
    mount: (seq<byte>, nat) -> Option<FatTree>,
    plan: (FatTree, seq<byte>, nat) -> Option<seq<SliceOp>>)

  /** Following a plan from the start of the partition makes it hold the planned tree. */
  ghost predicate Sound(d: Driver) {
    forall t, w, size: nat, ops :: d.plan(t, w, size) == Some(ops) ==>
                                     d.mount(Steps(View(w, 0), 0, size, ops).data, size) == Some(t)
  }

  const OVERLAYS := "overlays"
  const OVERLAY := "overlays/mipi-panel.dtbo"
  const VARIANT := "variant"
  const EXTLINUX := "extlinux"
  const CONF := "extlinux/extlinux.conf"
  const CONF_SOYSAUCE := "extlinux/extlinux.conf.soysauce"
  const CONF_BAK := "extlinux/extlinux.conf.bak"

  /** The bytes of "soysauce". */
  const SOYSAUCE: seq<byte> := [0x73, 0x6f, 0x79, 0x73, 0x61, 0x75, 0x63, 0x65]

  function Lookup(t: FatTree, path: string): seq<byte> {
    if path in t.files then t.files[path] else []
  }

  /** Whether the configuration is switched: for soysauce, when there is a non-empty alternate. */
  predicate Switches(t: FatTree, variant: seq<byte>) {
    variant == SOYSAUCE && Lookup(t, CONF_SOYSAUCE) != []
  }

  /** The conditions under which no step of the patch can be refused by the tree. `found` says whether
      the search for the alternate configuration went through; if not, the source goes on without it. */
  predicate Patchable(t: FatTree, variant: seq<byte>, found: bool) {
    && OVERLAYS !in t.files && OVERLAY !in t.dirs && VARIANT !in t.dirs
    && (variant == SOYSAUCE ==> EXTLINUX in t.dirs)
    && (found && Switches(t, variant) ==> CONF in t.files && CONF_BAK !in t.dirs)
  }

  /** The tree a successful patch leaves, as one update. */
  function Patched(t: FatTree, dtbo: seq<byte>, variant: seq<byte>, found: bool): FatTree {
    var files := t.files[OVERLAY := dtbo][VARIANT := variant];
    FatTree(t.dirs + {OVERLAYS},
            if found && Switches(t, variant)
            then files[CONF_BAK := Lookup(t, CONF)][CONF := Lookup(t, CONF_SOYSAUCE)]
            else files)
  }

  /** A patch makes one directory, sets overlay and variant, and for soysauce, if a non-empty alternate
      configuration was found, that one and the backup; every other path reads as before. */
  lemma PatchedFiles(t: FatTree, dtbo: seq<byte>, variant: seq<byte>, found: bool, path: string)
    requires Patchable(t, variant, found)
    ensures var r := Patched(t, dtbo, variant, found);
            var switched := variant == SOYSAUCE && found && Lookup(t, "extlinux/extlinux.conf.soysauce") != [];
            && r.dirs == t.dirs + {"overlays"}
            && r.files["overlays/mipi-panel.dtbo"] == dtbo && r.files["variant"] == variant
            && (if switched
                then && CONF in t.files
                     && r.files["extlinux/extlinux.conf"] == t.files["extlinux/extlinux.conf.soysauce"]
                     && r.files["extlinux/extlinux.conf.bak"] == t.files["extlinux/extlinux.conf"]
                else SameFile(r, t, "extlinux/extlinux.conf") && SameFile(r, t, "extlinux/extlinux.conf.bak"))
            && (path !in {OVERLAY, VARIANT, CONF, CONF_BAK} ==> SameFile(r, t, path))
  {
    PathsDiffer();
  }

  /** The bytes of the variant that switches. */
  lemma SoysauceSpelled()
    ensures |SOYSAUCE| == 8 && forall i :: 0 <= i < 8 ==> SOYSAUCE[i] as int == "soysauce"[i] as int
  {
  }

  predicate SameFile(a: FatTree, b: FatTree, path: string) {
    (path in a.files <==> path in b.files) && Lookup(a, path) == Lookup(b, path)
  }

  lemma PathsDiffer()
    ensures OVERLAY != VARIANT && OVERLAY != CONF && OVERLAY != CONF_BAK && OVERLAY != CONF_SOYSAUCE
    ensures VARIANT != CONF && VARIANT != CONF_BAK && VARIANT != CONF_SOYSAUCE
    ensures CONF != CONF_BAK && CONF != CONF_SOYSAUCE && CONF_BAK != CONF_SOYSAUCE
  {
    assert OVERLAY[0] == 'o' && VARIANT[0] == 'v' && CONF[0] == CONF_BAK[0] == CONF_SOYSAUCE[0] == 'e';
    assert |CONF| < |CONF_BAK| < |CONF_SOYSAUCE|;
  }

  /** Switching would change nothing: the alternate configuration is in place and backed up already. */
  predicate SwitchIsVoid(t: FatTree) {
    SameContent(t, CONF, CONF_SOYSAUCE) && SameContent(t, CONF_BAK, CONF)
  }

  predicate SameContent(t: FatTree, a: string, b: string) {
    a in t.files && b in t.files && t.files[a] == t.files[b]
  }

  lemma SwitchMatters(t: FatTree, dtbo: seq<byte>, variant: seq<byte>)
    requires Patchable(t, variant, true) && Switches(t, variant)
    ensures Patched(t, dtbo, variant, false) == Patched(t, dtbo, variant, true) <==> SwitchIsVoid(t)
  {
    PathsDiffer();
    var plain, switched := Patched(t, dtbo, variant, false), Patched(t, dtbo, variant, true);
    if SwitchIsVoid(t) {
      assert plain.files == switched.files;
    } else if SameContent(t, CONF, CONF_SOYSAUCE) {
      assert CONF_BAK in switched.files && switched.files[CONF_BAK] == t.files[CONF];
      assert CONF_BAK in plain.files ==> CONF_BAK in t.files && plain.files[CONF_BAK] == t.files[CONF_BAK];
    } else {
      assert switched.files[CONF] == t.files[CONF_SOYSAUCE] && plain.files[CONF] == t.files[CONF];
    }
  }

  /** A second patch with the same inputs changes nothing but the backup, which then holds the
      alternate configuration instead of the original one; a third changes nothing at all. */
  lemma PatchTwice(t: FatTree, dtbo: seq<byte>, variant: seq<byte>, found: bool)
    requires Patchable(t, variant, found)
    ensures var once := Patched(t, dtbo, variant, found);
            && Patchable(once, variant, found)
            && Patched(once, dtbo, variant, found)
               == (if found && Switches(t, variant) then SetFile(once, CONF_BAK, t.files[CONF_SOYSAUCE]) else once)
            && Patched(Patched(once, dtbo, variant, found), dtbo, variant, found) == Patched(once, dtbo, variant, found)
  {
    PathsDiffer();
    NamesOfDirectories();
    var once := Patched(t, dtbo, variant, found);
    var twice := Patched(once, dtbo, variant, found);
    if found && Switches(t, variant) {
      assert Switches(once, variant) && Switches(twice, variant);
      assert twice == SetFile(once, CONF_BAK, t.files[CONF_SOYSAUCE]);
    } else {
      assert twice == once;
    }
  }

  lemma NamesOfDirectories()
    ensures OVERLAYS !in {OVERLAY, VARIANT, CONF, CONF_BAK}
    ensures OVERLAY != OVERLAYS && VARIANT != OVERLAYS && CONF_BAK != OVERLAYS
  {
    assert OVERLAYS[0] == 'o' && |OVERLAYS| < |OVERLAY|;
    assert VARIANT[0] == 'v' && CONF[0] == CONF_BAK[0] == 'e';
  }

  /** The backup is spent after two patches: it no longer holds the configuration the card came with,
      unless that was the alternate one. */
  lemma BackupIsLost(t: FatTree, dtbo: seq<byte>, variant: seq<byte>)
    requires Patchable(t, variant, true) && Switches(t, variant)
    ensures Patched(t, dtbo, variant, true).files[CONF_BAK] == t.files[CONF]
    ensures var twice := Patched(Patched(t, dtbo, variant, true), dtbo, variant, true);
            twice.files[CONF_BAK] == t.files[CONF] <==> t.files[CONF_SOYSAUCE] == t.files[CONF]
  {
    PathsDiffer();
    PatchTwice(t, dtbo, variant, true);
  }

  // ----- Room -----

  /** The driver can bring a partition of this size from one tree to another. */
  ghost predicate RoomFor(d: Driver, t: FatTree, next: FatTree, size: nat) {
    forall w :: d.mount(w, size) == Some(t) ==> d.plan(next, w, size).Some?
  }

  /** There is room for the steps of rewriting a file: create or open it, truncate it, write it. */
  ghost predicate RoomToRewrite(d: Driver, t: FatTree, path: string, bytes: seq<byte>, size: nat) {
    && RoomFor(d, t, SetFile(t, path, Lookup(t, path)), size)
    && RoomFor(d, SetFile(t, path, Lookup(t, path)), SetFile(t, path, []), size)
    && RoomFor(d, SetFile(t, path, []), SetFile(t, path, bytes), size)
  }

  ghost predicate RoomToSwitch(d: Driver, t: FatTree, size: nat) {
    && RoomToRewrite(d, t, CONF_BAK, Lookup(t, CONF), size)
    && RoomToRewrite(d, SetFile(t, CONF_BAK, Lookup(t, CONF)), CONF, Lookup(t, CONF_SOYSAUCE), size)
  }

  /** The trees after the first edits of the patch. */
  function WithOverlays(t: FatTree): FatTree {
    t.(dirs := t.dirs + {OVERLAYS})
  }

  function WithOverlay(t: FatTree, dtbo: seq<byte>): FatTree {
    SetFile(WithOverlays(t), OVERLAY, dtbo)
  }

  function WithVariant(t: FatTree, dtbo: seq<byte>, variant: seq<byte>): FatTree {
    SetFile(WithOverlay(t, dtbo), VARIANT, variant)
  }

  /** The partition has room for every step of the patch. */
  ghost predicate HasRoom(d: Driver, t: FatTree, dtbo: seq<byte>, variant: seq<byte>, found: bool, size: nat) {
    && RoomFor(d, t, WithOverlays(t), size)
    && RoomToRewrite(d, WithOverlays(t), OVERLAY, dtbo, size)
    && RoomToRewrite(d, WithOverlay(t, dtbo), VARIANT, variant, size)
    && (found && Switches(t, variant) ==> RoomToSwitch(d, WithVariant(t, dtbo, variant), size))
  }

  /** The first edits do not touch what the switch works on. */
  lemma ConfUntouched(t: FatTree, dtbo: seq<byte>, variant: seq<byte>)
    ensures var v := WithVariant(t, dtbo, variant);
            SameFile(v, t, CONF) && SameFile(v, t, CONF_BAK) && SameFile(v, t, CONF_SOYSAUCE)
  {
    PathsDiffer();
  }
}
