/**
 The Windows services the native writer calls, kept to the contracts it relies on: handles with a
 file pointer, volumes that may be locked and dismounted, and raw reads and writes of one disk.
 `trace` records what was done, in order.
 */
module Win32 {
  import opened Wrappers
  import opened Bytes
  import opened Streams

  type Handle = nat

  datatype Effect =
    | Opened(h: Handle)
    | Closed(h: Handle)
    | Locked(h: Handle)
    | VolumeLocked(letter: nat, h: Handle)
    | VolumeBusy(letter: nat, h: Handle)
    | Dismounted(letter: nat, h: Handle)
    | Unlettered(letter: nat)
    | Extended(h: Handle)
    | Flushed(h: Handle)
    | DiskWrite(h: Handle)
    | DiskRead(h: Handle)
    | Rescanned
  {
    predicate Io() {
      DiskWrite? || DiskRead?
    }

    /** Something done to a volume through a handle on it; busy is a lock that was refused. */
    predicate OnVolume() {
      VolumeLocked? || VolumeBusy? || Dismounted?
    }
  }

  function Apply(open: set<Handle>, e: Effect): set<Handle> {
    if e.Opened? then open + {e.h} else if e.Closed? then open - {e.h} else open
  }

  /** The handles open after a trace. */
  function OpenAfter(trace: seq<Effect>): set<Handle> {
    if trace == [] then {} else Apply(OpenAfter(trace[..|trace| - 1]), trace[|trace| - 1])
  }

  lemma OpenAfterOne(trace: seq<Effect>, e: Effect)
    ensures OpenAfter(trace + [e]) == Apply(OpenAfter(trace), e)
  {
    assert (trace + [e])[..|trace|] == trace;
  }

  /** The handles ever opened in a trace. */
  function EverOpened(trace: seq<Effect>): set<Handle> {
    if trace == [] then {}
    else
      var before := EverOpened(trace[..|trace| - 1]);
      if trace[|trace| - 1].Opened? then before + {trace[|trace| - 1].h} else before
  }

  lemma EverOpenedOne(trace: seq<Effect>, e: Effect)
    ensures EverOpened(trace + [e]) == EverOpened(trace) + (if e.Opened? then {e.h} else {})
  {
    assert (trace + [e])[..|trace|] == trace;
  }

  lemma {:induction false} OpenWasOpened(trace: seq<Effect>)
    ensures OpenAfter(trace) <= EverOpened(trace)
  {
    if trace != [] {
      OpenWasOpened(trace[..|trace| - 1]);
    }
  }

  lemma {:induction false} EverOpenedGrows(before: seq<Effect>, after: seq<Effect>)
    requires before <= after
    ensures EverOpened(before) <= EverOpened(after)
    decreases |after|
  {
    if |before| < |after| {
      EverOpenedGrows(before, after[..|after| - 1]);
    } else {
      assert before == after;
    }
  }

  /** No handle value is handed out twice, and only open handles are closed. */
  ghost predicate WellFormed(trace: seq<Effect>) {
    trace == [] ||
    (var before, e := trace[..|trace| - 1], trace[|trace| - 1];
     && WellFormed(before)
     && (e.Opened? ==> e.h !in EverOpened(before))
     && (e.Closed? ==> e.h in OpenAfter(before)))
  }

  lemma WellFormedOne(trace: seq<Effect>, e: Effect)
    requires WellFormed(trace)
    requires e.Opened? ==> e.h !in EverOpened(trace)
    requires e.Closed? ==> e.h in OpenAfter(trace)
    ensures WellFormed(trace + [e])
  {
    assert (trace + [e])[..|trace|] == trace;
  }

  function CountClosed(trace: seq<Effect>, h: Handle): nat {
    if trace == [] then 0
    else CountClosed(trace[..|trace| - 1], h) + (if trace[|trace| - 1] == Closed(h) then 1 else 0)
  }

  /** In a well-formed trace a handle that was opened is closed once if it is no longer open, and
      not at all if it is. */
  lemma {:induction false} ClosedExactlyOnce(trace: seq<Effect>, h: Handle)
    requires WellFormed(trace)
    ensures CountClosed(trace, h) == if h in EverOpened(trace) && h !in OpenAfter(trace) then 1 else 0
  {
    if trace != [] {
      var before := trace[..|trace| - 1];
      ClosedExactlyOnce(before, h);
      OpenWasOpened(before);
    }
  }

  /** When a stretch of events leaves the same handles open as before it, every handle opened in it
      has been closed, once. */
  lemma NewOnesClosedOnce(before: seq<Effect>, after: seq<Effect>, h: Handle)
    requires WellFormed(after) && before <= after && OpenAfter(after) == OpenAfter(before)
    requires h in EverOpened(after) && h !in EverOpened(before)
    ensures CountClosed(after, h) == 1
  {
    OpenWasOpened(before);
    ClosedExactlyOnce(after, h);
  }

  /** From event `from` on, the disk is only read or written while all of `held` is open. */
  ghost predicate Guarded(trace: seq<Effect>, from: nat, held: set<Handle>) {
    forall i :: from <= i < |trace| && trace[i].Io() ==> held <= OpenAfter(trace[..i])
  }

  /** The events a pass may add: disk access under guard, and handles coming and going. */
  ghost predicate Session(before: seq<Effect>, after: seq<Effect>, held: set<Handle>) {
    && before <= after
    && Guarded(after, |before|, held)
    && forall i :: |before| <= i < |after| ==> !after[i].Rescanned? && !after[i].OnVolume()
  }

  lemma SessionStep(before: seq<Effect>, e: Effect, held: set<Handle>)
    requires e.Io() ==> held <= OpenAfter(before)
    requires !e.Rescanned? && !e.OnVolume()
    ensures Session(before, before + [e], held)
  {
    assert (before + [e])[..|before|] == before;
  }

  lemma SessionJoins(a: seq<Effect>, b: seq<Effect>, c: seq<Effect>, held: set<Handle>)
    requires Session(a, b, held) && Session(b, c, held)
    ensures Session(a, c, held)
  {
    forall i | |a| <= i < |c|
      ensures c[i].Io() ==> held <= OpenAfter(c[..i])
      ensures !c[i].Rescanned? && !c[i].OnVolume()
    {
      if i < |b| {
        assert c[..i] == b[..i];
        assert c[i] == b[i];
      }
    }
  }

  /** Events that neither touch the disk or a volume nor ask for a rescan. */
  ghost predicate Quiet(events: seq<Effect>) {
    forall i :: 0 <= i < |events| ==> !events[i].Io() && !events[i].Rescanned? && !events[i].OnVolume()
  }

  lemma QuietJoins(a: seq<Effect>, b: seq<Effect>)
    requires Quiet(a) && Quiet(b)
    ensures Quiet(a + b)
  {
  }

  /** A session between quiet events, such as opening a handle before it and closing it after. */
  lemma SessionWrapped(before: seq<Effect>, opening: seq<Effect>, inner: seq<Effect>, h: Handle, held: set<Handle>)
    requires Quiet(opening)
    requires Session(before + opening, inner, held)
    ensures Session(before, inner + [Closed(h)], held)
  {
    var t := before + opening;
    forall i | |before| <= i < |t| ensures !t[i].Io() && !t[i].Rescanned? && !t[i].OnVolume() {
      assert t[i] == opening[i - |before|];
    }
    assert before <= t;
    SessionJoins(before, t, inner, held);
    SessionStep(inner, Closed(h), held);
    SessionJoins(before, inner, inner + [Closed(h)], held);
  }

  class Kernel {
    var media: seq<byte>
    /** The open handles, each with its file pointer. */
    var pointers: map<Handle, nat>
    var next: Handle
    var slept: nat
    ghost var trace: seq<Effect>
    /** The drive letters that exist (bit i of the mask is letter i), and the physical disk each
        volume sits on. */
    const drives: set<nat>
    const diskOf: map<nat, nat>
    const faithful: bool
    const reliable: bool

    ghost predicate Valid()
      reads this
    {
      && OpenAfter(trace) == pointers.Keys
      && WellFormed(trace)
      && forall h :: h in EverOpened(trace) ==> h < next
    }

    constructor (media: seq<byte>, drives: set<nat>, diskOf: map<nat, nat>, faithful: bool, reliable: bool)
      ensures Valid() && pointers == map[] && trace == [] && this.media == media
      ensures this.drives == drives && this.diskOf == diskOf
      ensures this.faithful == faithful && this.reliable == reliable
    {
      this.media, this.pointers, this.next, this.slept, this.trace := media, map[], 0, 0, [];
      this.drives, this.diskOf := drives, diskOf;
      this.faithful, this.reliable := faithful, reliable;
    }

    /** Note an event that opens and closes nothing. */
    ghost method Record(e: Effect)
      requires Valid() && !e.Opened? && !e.Closed?
      modifies this`trace
      ensures Valid() && trace == old(trace) + [e]
    {
      WellFormedOne(trace, e);
      OpenAfterOne(trace, e);
      EverOpenedOne(trace, e);
      trace := trace + [e];
    }

    /** CreateFileW */
    method Open() returns (r: Option<Handle>)
      requires Valid()
      modifies this`pointers, this`next, this`trace
      ensures Valid()
      ensures r.Some? ==> r.value !in EverOpened(old(trace))
      ensures r.Some? ==> r.value !in old(pointers) && pointers == old(pointers)[r.value := 0]
      ensures r.Some? ==> trace == old(trace) + [Opened(r.value)]
      ensures r.None? ==> pointers == old(pointers) && trace == old(trace)
      ensures reliable ==> r.Some?
    {
      var ok := Chance();
      if !ok && !reliable {
        return None;
      }
      OpenWasOpened(trace);
      WellFormedOne(trace, Opened(next));
      OpenAfterOne(trace, Opened(next));
      EverOpenedOne(trace, Opened(next));
      pointers, trace := pointers[next := 0], trace + [Opened(next)];
      r := Some(next);
      next := next + 1;
    }

    /** CloseHandle, which also gives up the locks the handle holds */
    method Close(h: Handle)
      requires Valid() && h in pointers
      modifies this`pointers, this`trace
      ensures Valid() && pointers == old(pointers) - {h}
      ensures trace == old(trace) + [Closed(h)]
    {
      WellFormedOne(trace, Closed(h));
      OpenAfterOne(trace, Closed(h));
      EverOpenedOne(trace, Closed(h));
      pointers, trace := pointers - {h}, trace + [Closed(h)];
    }

    /** A control code that leaves handles and disk alone and reports success or failure. */
    method Control(h: Handle, e: Effect) returns (ok: bool)
      requires Valid() && h in pointers && !e.Opened? && !e.Closed? && !e.Io()
      modifies this`trace
      ensures Valid()
      ensures trace == old(trace) + (if ok then [e] else [])
      ensures reliable ==> ok
    {
      ok := Chance();
      ok := ok || reliable;
      if ok {
        Record(e);
      } else {
        assert trace == trace + [];
      }
    }

    /** FSCTL_LOCK_VOLUME on a volume handle */
    method LockVolume(h: Handle, letter: nat) returns (ok: bool)
      requires Valid() && h in pointers
      modifies this`trace
      ensures Valid()
      ensures trace == old(trace) + [if ok then VolumeLocked(letter, h) else VolumeBusy(letter, h)]
      ensures reliable ==> ok
    {
      ok := Chance();
      ok := ok || reliable;
      Record(if ok then VolumeLocked(letter, h) else VolumeBusy(letter, h));
    }

    /** IOCTL_STORAGE_GET_DEVICE_NUMBER on a volume handle */
    method DeviceNumber(h: Handle, letter: nat) returns (r: Option<nat>)
      requires h in pointers
      ensures r.Some? ==> letter in diskOf && r.value == diskOf[letter]
      ensures reliable && letter in diskOf ==> r.Some?
    {
      var ok := Chance();
      r := if (ok || reliable) && letter in diskOf then Some(diskOf[letter]) else None;
    }

    /** WriteFile: takes any part of the request, from the start of it. */
    method WriteFile(h: Handle, buf: array<byte>, from: nat, to: nat) returns (r: Option<nat>)
      requires Valid() && h in pointers && from < to <= buf.Length
      modifies this`media, this`pointers, this`trace
      ensures Valid() && |media| == old(|media|)
      ensures pointers.Keys == old(pointers.Keys) && trace == old(trace) + [DiskWrite(h)]
      ensures r.Some? ==> r.value <= to - from && pointers[h] == old(pointers[h]) + r.value
      ensures r.Some? && r.value > 0 ==> old(pointers[h]) + r.value <= |media|
      ensures r.Some? && r.value > 0 && faithful ==>
                media == Splice(old(media), old(pointers[h]), buf[from..from + r.value])
      ensures faithful ==> SameOutside(old(media), media, old(pointers[h]), old(pointers[h]) + (to - from))
      ensures reliable && old(pointers[h]) + (to - from) <= |media| ==> r.Some? && r.value > 0
    {
      Record(DiskWrite(h));
      var at := pointers[h];
      var wrote := 0;
      if at < |media| {
        wrote := Amount(Min(to - from, |media| - at));
        media := Splice(media, at, buf[from..from + wrote]);
      }
      if !faithful {
        var junk: seq<byte> := *;
        if |junk| == |media| {
          media := junk;
        }
      }
      var ok := Chance();
      if !ok && !reliable {
        return None;
      }
      pointers := pointers[h := at + wrote];
      r := Some(wrote);
    }

    /** ReadFile: any part of the request; nothing only at the end of the disk. */
    method ReadFile(h: Handle, buf: array<byte>, len: nat) returns (r: Option<nat>)
      requires Valid() && h in pointers && 0 < len <= buf.Length && pointers[h] <= |media|
      modifies this`pointers, this`trace, buf
      ensures Valid()
      ensures pointers.Keys == old(pointers.Keys) && trace == old(trace) + [DiskRead(h)]
      ensures pointers[h] <= |media|
      ensures r.Some? ==> r.value <= len && pointers[h] == old(pointers[h]) + r.value
      ensures r.Some? ==> (r.value == 0 <==> old(pointers[h]) == |media|)
      ensures r.Some? ==> buf[..r.value] == media[old(pointers[h])..pointers[h]]
      ensures reliable ==> r.Some?
    {
      Record(DiskRead(h));
      var ok := Chance();
      if !ok && !reliable {
        return None;
      }
      var at := pointers[h];
      var n := Amount(Min(len, |media| - at));
      forall i | 0 <= i < n {
        buf[i] := media[at + i];
      }
      pointers := pointers[h := at + n];
      r := Some(n);
    }

    method Sleep(milliseconds: nat)
      modifies this`slept
      ensures slept == old(slept) + milliseconds
    {
      slept := slept + milliseconds;
    }
  }
}
