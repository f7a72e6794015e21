/**
 The Linux disk list (src-tauri/src/disk.rs) and the partition names the flash script builds
 (src-tauri/src/flash_linux.rs).
 */
module Disks {
  import opened Wrappers
  import opened Text

  const NVME := "nvme"
  const MMCBLK := "mmcblk"
  const DEV := "/dev/"

  /** Disks whose partitions are told apart by a `p` before the number. */
  predicate Suffixed(disk: string) {
    Contains(disk, NVME) || Contains(disk, MMCBLK)
  }

  function TrimDigits(s: string): (t: string)
    ensures t <= s && (t != [] ==> !IsDigit(t[|t| - 1]))
    ensures forall i :: |t| <= i < |s| ==> IsDigit(s[i])
  {
    if s != [] && IsDigit(s[|s| - 1]) then TrimDigits(s[..|s| - 1]) else s
  }

  /** `strip_partition_suffix` */
  function StripPartitionSuffix(dev: string): string {
    if Suffixed(dev) then
      match LastIndexOf(dev, 'p')
      case Some(idx) =>
        if AllDigits(dev[idx + 1..]) && dev[idx + 1..] != [] then dev[..idx] else dev
      case None => dev
    else TrimDigits(dev)
  }

  /** The name of the k-th partition of a disk, as the flash script builds it for the first. */
  function PartitionName(disk: string, k: nat): string {
    disk + (if Suffixed(disk) then "p" else "") + Decimal(k)
  }

  /** The names of partitions as the kernel gives them: of a card, of an NVMe disk, and of a disk with one
      or two letters. */
  lemma NamesInUse(n: nat, m: nat, k: nat, letters: string)
    requires 0 < |letters| <= 2 && forall i :: 0 <= i < |letters| ==> 'a' <= letters[i] <= 'z'
    ensures var card, nvme, sd := "mmcblk" + Decimal(n), "nvme" + Decimal(n) + "n" + Decimal(m), "sd" + letters;
            && PartitionName(card, k) == card + "p" + Decimal(k) && IsDisk(card)
            && PartitionName(nvme, k) == nvme + "p" + Decimal(k) && IsDisk(nvme)
            && PartitionName(sd, k) == sd + Decimal(k) && IsDisk(sd)
            && StripPartitionSuffix(card + "p" + Decimal(k)) == card
            && StripPartitionSuffix(nvme + "p" + Decimal(k)) == nvme
            && StripPartitionSuffix(sd + Decimal(k)) == sd
  {
    var card, nvme, sd := "mmcblk" + Decimal(n), "nvme" + Decimal(n) + "n" + Decimal(m), "sd" + letters;
    MarkedName(card, MMCBLK, k);
    MarkedName(nvme, NVME, k);
    LetteredName(letters, k);
  }

  lemma MarkedName(disk: string, mark: string, k: nat)
    requires (mark == MMCBLK || mark == NVME) && mark <= disk
    ensures PartitionName(disk, k) == disk + "p" + Decimal(k) && IsDisk(disk)
    ensures StripPartitionSuffix(disk + "p" + Decimal(k)) == disk
  {
    assert disk[0..0 + |mark|] == mark;
    assert OccursAt(disk, mark, 0);
    StripUndoesNaming(disk, k);
  }

  lemma LetteredName(letters: string, k: nat)
    requires 0 < |letters| <= 2 && forall i :: 0 <= i < |letters| ==> 'a' <= letters[i] <= 'z'
    ensures var sd := "sd" + letters;
            PartitionName(sd, k) == sd + Decimal(k) && IsDisk(sd) && StripPartitionSuffix(sd + Decimal(k)) == sd
  {
    var sd := "sd" + letters;
    ShortNameHasNoMark(sd);
    assert sd[|sd| - 1] == letters[|letters| - 1];
    assert sd + "" + Decimal(k) == sd + Decimal(k);
    StripUndoesNaming(sd, k);
  }

  lemma ShortNameHasNoMark(sd: string)
    requires |sd| <= 4 && |sd| > 1 && sd[0] == 's'
    ensures !Suffixed(sd)
  {
    forall i | 0 <= i <= |sd| - |NVME| ensures !OccursAt(sd, NVME, i) {
      assert sd[i..i + |NVME|][0] == sd[0] && NVME[0] == 'n';
    }
  }

  /** On a disk with a `p` before its partition numbers, that and the digits behind it are stripped. */
  lemma StripOfMarked(base: string, digits: string)
    requires Suffixed(base + "p" + digits) && digits != "" && AllDigits(digits)
    ensures StripPartitionSuffix(base + "p" + digits) == base
  {
    var dev := base + "p" + digits;
    assert dev[|base|] == 'p' && dev[|base| + 1..] == digits && dev[..|base|] == base;
    LastP(dev, |base|);
  }

  /** Nothing else is. */
  lemma OnlyNumbersStripped(dev: string)
    requires Suffixed(dev) && !EndsInNumber(dev)
    ensures StripPartitionSuffix(dev) == dev
  {
  }

  /** On any other disk all digits at the end are stripped. */
  lemma StripOfPlain(base: string, digits: string)
    requires !Suffixed(base + digits) && AllDigits(digits) && (base == "" || !IsDigit(base[|base| - 1]))
    ensures StripPartitionSuffix(base + digits) == base
  {
    TrimsBackTo(base, digits);
  }

  /** The name ends in a `p` and a number. */
  predicate EndsInNumber(dev: string) {
    exists p :: 0 <= p < |dev| - 1 && dev[p] == 'p' && AllDigits(dev[p + 1..])
  }

  lemma LastP(dev: string, p: nat)
    requires p < |dev| && dev[p] == 'p' && AllDigits(dev[p + 1..])
    ensures LastIndexOf(dev, 'p') == Some(p)
  {
    forall i | p < i < |dev| ensures dev[i] != 'p' {
      assert dev[i] == dev[p + 1..][i - p - 1];
    }
  }

  lemma ContainsGrows(s: string, tail: string, part: string)
    requires Contains(s, part)
    ensures Contains(s + tail, part)
  {
    var i :| 0 <= i <= |s| - |part| && OccursAt(s, part, i);
    assert (s + tail)[i..i + |part|] == s[i..i + |part|];
    assert OccursAt(s + tail, part, i);
  }

  /** Digits at the end never complete one of the two marks, which end in a letter. */
  lemma DigitsAddNoMark(s: string, digits: string, part: string)
    requires AllDigits(digits) && part != [] && forall c :: c in part ==> !IsDigit(c)
    requires Contains(s + digits, part)
    ensures Contains(s, part)
  {
    var t := s + digits;
    var i :| 0 <= i <= |t| - |part| && OccursAt(t, part, i);
    var last := i + |part| - 1;
    assert t[i..i + |part|][|part| - 1] == t[last];
    assert part[|part| - 1] in part;
    DigitsBehind(s, digits);
    assert s[i..i + |part|] == t[i..i + |part|];
    assert OccursAt(s, part, i);
  }

  lemma DigitsBehind(s: string, digits: string)
    requires AllDigits(digits)
    ensures forall j :: |s| <= j < |s + digits| ==> IsDigit((s + digits)[j])
  {
    forall j | |s| <= j < |s + digits| ensures IsDigit((s + digits)[j]) {
      assert (s + digits)[j] == digits[j - |s|];
    }
  }

  lemma MarksHaveNoDigits()
    ensures forall c :: c in NVME || c in MMCBLK ==> !IsDigit(c)
  {
  }

  /** Exactly when stripping undoes naming: for a disk with a `p` before its partition numbers always,
      for another as long as its own name does not end in a digit. */
  lemma StripUndoesNaming(disk: string, k: nat)
    ensures StripPartitionSuffix(PartitionName(disk, k)) == disk
       <==> Suffixed(disk) || disk == [] || !IsDigit(disk[|disk| - 1])
  {
    var digits := Decimal(k);
    var name := PartitionName(disk, k);
    MarksHaveNoDigits();
    if Suffixed(disk) {
      var tail := "p" + digits;
      assert name == disk + tail;
      if Contains(disk, NVME) {
        ContainsGrows(disk, tail, NVME);
      } else {
        ContainsGrows(disk, tail, MMCBLK);
      }
      assert name[|disk|] == 'p';
      assert name == disk + "p" + digits;
      DigitsBehind(disk + "p", digits);
      assert LastIndexOf(name, 'p') == Some(|disk|);
      assert name[|disk| + 1..] == digits;
    } else {
      assert name == disk + digits;
      if Suffixed(name) {
        if Contains(name, NVME) {
          DigitsAddNoMark(disk, digits, NVME);
        } else {
          DigitsAddNoMark(disk, digits, MMCBLK);
        }
      }
      TrimsBackTo(disk, digits);
    }
  }

  lemma {:induction false} TrimsBackTo(s: string, digits: string)
    requires AllDigits(digits)
    ensures TrimDigits(s + digits) == TrimDigits(s)
  {
    if digits == [] {
      assert s + digits == s;
    } else {
      var fewer := digits[..|digits| - 1];
      assert (s + digits)[..|s + digits| - 1] == s + fewer;
      TrimsBackTo(s, fewer);
    }
  }

  /** The name of a disk that no partition name looks like: without a `p` where that would set off the
      number, and otherwise without a digit at the end. */
  predicate Unpartitioned(disk: string) {
    disk != [] && (if Suffixed(disk) then 'p' !in disk else !IsDigit(disk[|disk| - 1]))
  }

  /** Such a disk is its own parent. */
  lemma WholeDiskStays(disk: string)
    requires Unpartitioned(disk)
    ensures StripPartitionSuffix(disk) == disk
  {
  }

  /** Every whole card is one. */
  lemma WholeCardStays(n: nat)
    ensures Suffixed(MMCBLK + Decimal(n)) && Unpartitioned(MMCBLK + Decimal(n))
    ensures StripPartitionSuffix(MMCBLK + Decimal(n)) == MMCBLK + Decimal(n)
  {
    var digits := Decimal(n);
    var dev := MMCBLK + digits;
    assert dev[0..0 + |MMCBLK|] == MMCBLK;
    assert OccursAt(dev, MMCBLK, 0);
    assert 'p' !in MMCBLK && 'p' !in digits;
    assert 'p' !in dev;
    WholeDiskStays(dev);
  }

  // ----- The mounts table -----

  const PROTECTED: set<string> := {"/", "/home", "/boot"}

  /** The parent disk that a line of the table protects, if it protects one. */
  function ProtectedParent(line: string): Option<string> {
    var parts := Words(line);
    if |parts| < 2 || parts[1] !in PROTECTED || !StartsWith(parts[0], DEV) then None
    else
      var parent := StripPartitionSuffix(parts[0][|DEV|..]);
      if parent == "" then None else Some(parent)
  }

  /** What a loop collects that takes from each element what `f` finds in it. */
  function Collect<T, U>(s: seq<T>, f: T -> Option<U>): seq<U> {
    if s == [] then []
    else
      match f(s[|s| - 1])
      case Some(u) => Collect(s[..|s| - 1], f) + [u]
      case None => Collect(s[..|s| - 1], f)
  }

  lemma CollectOne<T, U>(s: seq<T>, i: nat, f: T -> Option<U>)
    requires i < |s|
    ensures Collect(s[..i + 1], f) == Collect(s[..i], f) + (if f(s[i]).Some? then [f(s[i]).value] else [])
  {
    assert s[..i + 1][..i] == s[..i];
  }

  /** Everything collected comes from an element ... */
  lemma {:induction false} CollectedFrom<T, U>(s: seq<T>, f: T -> Option<U>, u: U) returns (x: T)
    requires u in Collect(s, f)
    ensures x in s && f(x) == Some(u)
  {
    var before, last := s[..|s| - 1], s[|s| - 1];
    if u in Collect(before, f) {
      x := CollectedFrom(before, f, u);
    } else {
      x := last;
    }
  }

  /** ... and nothing is passed over. */
  lemma {:induction false} CollectsAll<T, U>(s: seq<T>, f: T -> Option<U>, x: T)
    requires x in s && f(x).Some?
    ensures f(x).value in Collect(s, f)
  {
    var before, last := s[..|s| - 1], s[|s| - 1];
    assert s == before + [last];
    if x in before {
      CollectsAll(before, f, x);
    }
  }

  predicate Distinct(s: seq<string>) {
    s == [] || (s[|s| - 1] !in s[..|s| - 1] && Distinct(s[..|s| - 1]))
  }

  /** Push what was found unless it is there already. */
  method AddNew(names: seq<string>, parent: Option<string>) returns (r: seq<string>)
    ensures forall n :: n in r <==> n in names || parent == Some(n)
    ensures Distinct(names) ==> Distinct(r)
  {
    r := names;
    if parent.Some? && parent.value !in names {
      r := names + [parent.value];
      assert r[..|r| - 1] == names;
    }
  }

  /** A line of the table that protects this disk: mounted at one of the three places is a device below
      /dev whose parent it is. */
  ghost predicate Protects(line: string, name: string) {
    && |Words(line)| >= 2 && (Words(line)[1] == "/" || Words(line)[1] == "/home" || Words(line)[1] == "/boot")
    && "/dev/" <= Words(line)[0] && StripPartitionSuffix(Words(line)[0][5..]) == name && name != ""
  }

  /** `get_system_disk_names`: the protected disks, each once. */
  method GetSystemDiskNames(mounts: string) returns (names: seq<string>)
    ensures forall n :: n in names <==> n in Collect(Lines(mounts), ProtectedParent)
    ensures forall n :: n in names <==> exists l :: l in Lines(mounts) && Protects(l, n)
    ensures Distinct(names)
  {
    names := NamesInLines(Lines(mounts), ProtectedParent);
    forall n ensures n in names <==> exists l :: l in Lines(mounts) && Protects(l, n) {
      WhoProtects(Lines(mounts), n);
    }
  }

  lemma ParentIs(line: string, name: string)
    ensures ProtectedParent(line) == Some(name) <==> Protects(line, name)
  {
  }

  lemma WhoProtects(lines: seq<string>, name: string)
    ensures name in Collect(lines, ProtectedParent) <==> exists l :: l in lines && Protects(l, name)
  {
    if name in Collect(lines, ProtectedParent) {
      var l := CollectedFrom(lines, ProtectedParent, name);
      ParentIs(l, name);
    }
    if l :| l in lines && Protects(l, name) {
      ParentIs(l, name);
      CollectsAll(lines, ProtectedParent, l);
    }
  }

  /** Its loop over the lines; `parent` is what one line protects. */
  method NamesInLines(lines: seq<string>, parent: string -> Option<string>) returns (names: seq<string>)
    ensures forall n :: n in names <==> n in Collect(lines, parent)
    ensures Distinct(names)
  {
    names := [];
    var i := 0;
    while i < |lines|
      invariant i <= |lines| && Distinct(names)
      invariant forall n :: n in names <==> n in Collect(lines[..i], parent)
    {
      CollectOne(lines, i, parent);
      names := AddNew(names, parent(lines[i]));
      i := i + 1;
    }
    assert lines[..i] == lines;
  }

  // ----- The disk list -----

  /** One entry of /sys/block with the files that are read from it; a file that cannot be read is None. */
  datatype BlockEntry = BlockEntry(name: string, removable: Option<string>, size: Option<string>, model: Option<string>)

  datatype DiskInfo = DiskInfo(device: string, model: string, sizeBytes: nat)

  const MAX_BYTES: nat := 128 * 1_000_000_000

  function OrEmpty(s: Option<string>): string {
    match s
    case Some(text) => text
    case None => ""
  }

  /** A product of 64-bit numbers wraps around in a release build. */
  function WrappingMul(a: nat, b: nat): (r: nat)
    ensures r <= U64_MAX
  {
    a * b % (U64_MAX + 1)
  }

  function SizeSectors(e: BlockEntry): nat {
    match ParseUnsigned(Trim(OrEmpty(e.size)), U64_MAX)
    case Some(sectors) => sectors
    case None => 0
  }

  function SizeBytes(e: BlockEntry): nat {
    WrappingMul(SizeSectors(e), 512)
  }

  function Model(e: BlockEntry): string {
    Trim(match e.model case Some(m) => m case None => "SD Card")
  }

  predicate Offered(e: BlockEntry, system: seq<string>) {
    && (StartsWith(e.name, "sd") || StartsWith(e.name, MMCBLK))
    && e.name !in system
    && Trim(OrEmpty(e.removable)) == "1"
    && 0 < SizeBytes(e) <= MAX_BYTES
  }

  function Info(e: BlockEntry): DiskInfo {
    DiskInfo(DEV + e.name, Model(e), SizeBytes(e))
  }

  /** What the checks come to, for a size that is a number of 64 bits and the text the kernel gives for a
      removable disk: the name, no protection, and a size of up to 128 GB, of which no multiple of 2^64
      is left. */
  lemma OfferedSpelled(name: string, sectors: nat, model: Option<string>, system: seq<string>)
    requires sectors < 0x1_0000_0000_0000_0000
    ensures var e := BlockEntry(name, Some("1\n"), Some(Decimal(sectors) + "\n"), model);
            var bytes := sectors * 512 % 0x1_0000_0000_0000_0000;
            && (Offered(e, system) <==>
                && ("sd" <= name || "mmcblk" <= name) && name !in system && 0 < bytes <= 128_000_000_000)
            && Info(e).device == "/dev/" + name && Info(e).sizeBytes == bytes
            && (model.None? ==> Info(e).model == "SD Card") && (model.Some? ==> Info(e).model == Trim(model.value))
  {
    var size := Decimal(sectors);
    assert IsDigit(size[0]) && IsDigit(size[|size| - 1]);
    TrimOfLine(size, "\n");
    TrimOfLine("1", "\n");
    assert "1" + "\n" == "1\n";
    DecimalParses(sectors, U64_MAX);
    TrimOfWord("SD Card");
  }

  /** Nothing else is offered: not a disk that is not marked removable, nor one without a size. */
  lemma NotOffered(e: BlockEntry, system: seq<string>)
    requires Trim(OrEmpty(e.removable)) != "1" || ParseUnsigned(Trim(OrEmpty(e.size)), U64_MAX) == None
    ensures !Offered(e, system)
  {
  }

  /** What the list makes of an entry. */
  function Examined(system: seq<string>): BlockEntry -> Option<DiskInfo> {
    e => if Offered(e, system) then Some(Info(e)) else None
  }

  /** The checks on one entry, in the order of the source. */
  method Examine(e: BlockEntry, names: seq<string>) returns (r: Option<DiskInfo>)
    ensures r == Examined(names)(e)
  {
    if !StartsWith(e.name, "sd") && !StartsWith(e.name, MMCBLK) {
      return None;
    }
    if e.name in names {
      return None;
    }
    var removable := Trim(OrEmpty(e.removable));
    if removable != "1" {
      return None;
    }
    var bytes := SizeBytes(e);
    if bytes == 0 || bytes > MAX_BYTES {
      return None;
    }
    r := Some(Info(e));
  }

  method ListEntries(entries: seq<BlockEntry>, names: seq<string>) returns (disks: seq<DiskInfo>)
    ensures disks == Collect(entries, Examined(names))
  {
    disks := [];
    var i := 0;
    while i < |entries|
      invariant i <= |entries|
      invariant disks == Collect(entries[..i], Examined(names))
    {
      CollectOne(entries, i, Examined(names));
      var info := Examine(entries[i], names);
      if info.Some? {
        disks := disks + [info.value];
      }
      i := i + 1;
    }
    assert entries[..i] == entries;
  }

  /** Exactly the entries that pass all checks are in the list. */
  lemma ListedIsOffered(entries: seq<BlockEntry>, system: seq<string>, d: DiskInfo)
    ensures d in Collect(entries, Examined(system))
       <==> exists e :: e in entries && Offered(e, system) && Info(e) == d
  {
    if d in Collect(entries, Examined(system)) {
      var e := CollectedFrom(entries, Examined(system), d);
    } else if e :| e in entries && Offered(e, system) && Info(e) == d {
      CollectsAll(entries, Examined(system), e);
      assert false;
    }
  }

  /** The mounts table says that this device is mounted directly at /, /home or /boot. */
  ghost predicate MountedAtProtected(mounts: string, device: string) {
    exists l :: l in Lines(mounts) && |Words(l)| >= 2 && Words(l)[0] == DEV + device && Words(l)[1] in PROTECTED
  }

  /** The name of a whole disk: one with a `p` before its partition numbers, or without a digit at the
      end. */
  predicate IsDisk(disk: string) {
    disk != [] && (Suffixed(disk) || !IsDigit(disk[|disk| - 1]))
  }

  /** The mounts table has a line that mounts this device at one of the three places: whatever stands
      before, behind and in the rest of it. */
  ghost predicate MountLine(
    mounts: string, device: string, before: string, point: string, rest: string, after: string)
  {
    && EndsLine(before) && '\n' !in rest && IsWord("/dev/" + device)
    && (point == "/" || point == "/home" || point == "/boot")
    && mounts == before + ("/dev/" + device + " " + point + " " + rest) + "\n" + after
  }

  ghost predicate Mounts(mounts: string, device: string) {
    exists before, point, rest, after :: MountLine(mounts, device, before, point, rest, after)
  }

  /** Such a line says that the device is mounted there. */
  lemma MountLineIsRead(mounts: string, device: string)
    requires Mounts(mounts, device)
    ensures MountedAtProtected(mounts, device)
  {
    var before, point, rest, after :| MountLine(mounts, device, before, point, rest, after);
    var line := "/dev/" + device + " " + point + " " + rest;
    NoLineFeed(device, point, rest);
    LineAmong(before, line, after);
    LineMounts(device, point, rest);
    var l := WithoutCr(line);
    assert l in Lines(mounts) && |Words(l)| >= 2 && Words(l)[0] == DEV + device && Words(l)[1] in PROTECTED;
  }

  lemma LineMounts(device: string, point: string, rest: string)
    requires IsWord("/dev/" + device) && IsWord(point)
    ensures var w := Words(WithoutCr("/dev/" + device + " " + point + " " + rest));
            |w| >= 2 && w[0] == "/dev/" + device && w[1] == point
  {
    CrBehindSpace("/dev/" + device, point, rest);
    MountWords("/dev/" + device, point, if rest == "" then "" else WithoutCr(rest));
  }

  lemma NoLineFeed(device: string, point: string, rest: string)
    requires IsWord("/dev/" + device) && IsWord(point) && '\n' !in rest
    ensures '\n' !in "/dev/" + device + " " + point + " " + rest
  {
    WordHasNoLineFeed("/dev/" + device);
    WordHasNoLineFeed(point);
    assert '\n' !in " ";
  }

  lemma WordHasNoLineFeed(w: string)
    requires IsWord(w)
    ensures '\n' !in w
  {
    assert IsWhitespace('\n');
  }

  lemma CrBehindSpace(first: string, point: string, rest: string)
    ensures WithoutCr(first + " " + point + " " + rest)
         == first + " " + point + " " + (if rest == "" then "" else WithoutCr(rest))
  {
  }

  lemma MountWords(first: string, point: string, rest: string)
    requires IsWord(first) && IsWord(point)
    ensures var w := Words(first + " " + point + " " + rest); |w| >= 2 && w[0] == first && w[1] == point
  {
    var behind := " " + rest;
    var second := point + behind;
    WordInFront(point, behind);
    SpaceInFront(' ', second);
    WordInFront(first, " " + second);
    MountGrouped(first, point, rest);
  }

  lemma MountGrouped(first: string, point: string, rest: string)
    ensures first + " " + point + " " + rest == first + (" " + (point + (" " + rest)))
  {
  }

  /** A disk is protected through any of its partitions: whatever else the mounts table holds, it is
      never offered while one of them is mounted at /, /home or /boot. */
  lemma SystemDiskNeverOffered(
    mounts: string, entries: seq<BlockEntry>, system: seq<string>, disk: string, k: nat, d: DiskInfo)
    requires forall n :: n in system <==> n in Collect(Lines(mounts), ProtectedParent)
    requires IsDisk(disk) && MountedAtProtected(mounts, PartitionName(disk, k))
    requires d in Collect(entries, Examined(system))
    ensures d.device != DEV + disk
  {
    StripUndoesNaming(disk, k);
    ParentNeverOffered(mounts, entries, system, PartitionName(disk, k), d);
  }

  /** Nor is a disk that is mounted there as a whole. */
  lemma WholeDiskNeverOffered(
    mounts: string, entries: seq<BlockEntry>, system: seq<string>, disk: string, d: DiskInfo)
    requires forall n :: n in system <==> n in Collect(Lines(mounts), ProtectedParent)
    requires Unpartitioned(disk) && MountedAtProtected(mounts, disk)
    requires d in Collect(entries, Examined(system))
    ensures d.device != DEV + disk
  {
    WholeDiskStays(disk);
    ParentNeverOffered(mounts, entries, system, disk, d);
  }

  lemma ParentNeverOffered(
    mounts: string, entries: seq<BlockEntry>, system: seq<string>, name: string, d: DiskInfo)
    requires forall n :: n in system <==> n in Collect(Lines(mounts), ProtectedParent)
    requires StripPartitionSuffix(name) != "" && MountedAtProtected(mounts, name)
    requires d in Collect(entries, Examined(system))
    ensures d.device != DEV + StripPartitionSuffix(name)
  {
    var l :| l in Lines(mounts) && |Words(l)| >= 2 && Words(l)[0] == DEV + name && Words(l)[1] in PROTECTED;
    assert (DEV + name)[|DEV|..] == name;
    assert ProtectedParent(l) == Some(StripPartitionSuffix(name));
    CollectsAll(Lines(mounts), ProtectedParent, l);
    var e := CollectedFrom(entries, Examined(system), d);
    SameDevice(e.name, StripPartitionSuffix(name));
  }

  lemma SameDevice(a: string, b: string)
    ensures DEV + a == DEV + b ==> a == b
  {
    assert (DEV + a)[|DEV|..] == a && (DEV + b)[|DEV|..] == b;
  }

  /** `list_removable_disks`. `entries` is the listing of /sys/block, if it can be read. */
  method ListRemovableDisks(mounts: string, entries: Option<seq<BlockEntry>>)
    returns (disks: seq<DiskInfo>, ghost system: seq<string>)
    ensures forall n :: n in system <==> n in Collect(Lines(mounts), ProtectedParent)
    ensures forall disk, k, d :: IsDisk(disk) && MountedAtProtected(mounts, PartitionName(disk, k)) && d in disks ==>
                                   d.device != DEV + disk
    ensures forall disk, d :: Unpartitioned(disk) && MountedAtProtected(mounts, disk) && d in disks ==>
                                d.device != DEV + disk
    // the same, told by the text of the table
    ensures forall disk, k, d :: IsDisk(disk) && Mounts(mounts, PartitionName(disk, k)) && d in disks ==>
                                   d.device != "/dev/" + disk
    ensures forall disk, d :: Unpartitioned(disk) && Mounts(mounts, disk) && d in disks ==> d.device != "/dev/" + disk
    ensures disks == if entries.Some? then Collect(entries.value, Examined(system)) else []
  {
    disks := [];
    var names := GetSystemDiskNames(mounts);
    system := names;
    if entries.None? {
      return;
    }
    disks := ListEntries(entries.value, names);
    forall disk, k, d | IsDisk(disk) && MountedAtProtected(mounts, PartitionName(disk, k)) && d in disks
      ensures d.device != DEV + disk
    {
      SystemDiskNeverOffered(mounts, entries.value, system, disk, k, d);
    }
    forall disk, d | Unpartitioned(disk) && MountedAtProtected(mounts, disk) && d in disks
      ensures d.device != DEV + disk
    {
      WholeDiskNeverOffered(mounts, entries.value, system, disk, d);
    }
    forall device | Mounts(mounts, device) ensures MountedAtProtected(mounts, device) {
      MountLineIsRead(mounts, device);
    }
  }
}
