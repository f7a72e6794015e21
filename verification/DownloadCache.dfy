/**
 The image cache (src-tauri/src/github.rs): a final file, a partial one and a digest file, changed
 one step at a time by a download that may be refused any step and may be cut off in the middle of any.
 */
module DownloadCache {
  import opened Wrappers
  import opened Bytes
  import opened Streams
  import opened Text

  datatype HashFile = NoFile | Unreadable | Text(text: string)

  datatype CacheState = CacheState(final: Option<seq<byte>>, part: Option<seq<byte>>, hash: HashFile)

  datatype Release = Release(size: nat, expected: Option<string>)

  /** What the server sends: the chunks that arrive, and whether the body ends properly after them. */
  datatype Response = Response(reachable: bool, success: bool, chunks: seq<seq<byte>>, complete: bool)

  datatype Outcome = Got(cached: bool) | Failed | Crashed

  // ----- Single steps -----

  /** How a file operation ends: done, refused with an error, or cut off by a crash. `part` says how
      much of it has taken hold by then. */
  datatype Effect = Done | Refused(part: nat) | Cut(part: nat)

  /** What becomes of each step of a call, should it be reached. Appending goes well up to chunk
      `appended`, which ends as `append` says; `stats` and `readable` say whether the metadata and the
      bytes of the cached file can be read. */
  datatype Effects = Effects(
    dir: Effect, stats: bool, readable: bool, removeFinal: Effect, removeHash: Effect, createPart: Effect,
    appended: nat, append: Effect, flush: Effect, writeHash: Effect, removePart: Effect, removeHashAgain: Effect,
    rename: Effect)

  predicate Calm(e: Effects) {
    && e.dir.Done? && e.stats && e.readable && e.removeFinal.Done? && e.removeHash.Done? && e.createPart.Done?
    && e.append.Done? && e.flush.Done? && e.writeHash.Done? && e.removePart.Done? && e.removeHashAgain.Done?
    && e.rename.Done?
  }

  /** A removal or a rename is atomic: refused it has no effect, cut off it has or has not. */
  predicate TakesHold(e: Effect) {
    e.Done? || (e.Cut? && e.part > 0)
  }

  function WithoutFinal(s: CacheState, e: Effect): CacheState {
    if TakesHold(e) then s.(final := None) else s
  }

  function WithoutHash(s: CacheState, e: Effect): CacheState {
    if TakesHold(e) then s.(hash := NoFile) else s
  }

  function WithoutPart(s: CacheState, e: Effect): CacheState {
    if TakesHold(e) then s.(part := None) else s
  }

  function Renamed(s: CacheState, e: Effect): CacheState {
    if TakesHold(e) then s.(final := s.part, part := None) else s
  }

  /** Creating truncates, even if it is then reported as refused. */
  function WithPart(s: CacheState, e: Effect): CacheState {
    if e.Done? || e.part > 0 then s.(part := Some([])) else s
  }

  function Written(chunk: seq<byte>, e: Effect): seq<byte> {
    if e.Done? then chunk else chunk[..Min(e.part, |chunk|)]
  }

  /** Writing the digest truncates the file first; what is written by then may be any part of it. */
  function WithHash(s: CacheState, text: string, e: Effect): CacheState {
    if e.Done? then s.(hash := Text(text))
    else if e.part == 0 then s
    else s.(hash := Text(text[..Min(e.part - 1, |text|)]))
  }

  function Stop(e: Effect): Outcome {
    if e.Cut? then Crashed else Failed
  }

  // ----- A call -----

  datatype CallRecord = CallRecord(release: Release, response: Response, effects: Effects)

  /** Where a call stands, or how it has ended. */
  datatype Stage = Stage(s: CacheState, stop: Option<Outcome>)

  datatype Ended = Ended(s: CacheState, outcome: Outcome)

  /** The cached file is handed out as it is: right size, and its digest is the stored one unless no
      digest can be read. The digest the release publishes plays no part. */
  predicate UsesCache(s: CacheState, release: Release, sha: seq<byte> -> string) {
    && s.final.Some? && |s.final.value| == release.size
    && (s.hash.Text? ==> Trim(s.hash.text) != "" && sha(s.final.value) == Trim(s.hash.text))
  }

  /** The size fits and there is a digest to check against. */
  predicate Checked(s: CacheState, release: Release) {
    s.final.Some? && |s.final.value| == release.size && s.hash.Text? && Trim(s.hash.text) != ""
  }

  /** Take the cached file, or clear it away if it fails its check. */
  function Cached(s: CacheState, release: Release, sha: seq<byte> -> string, e: Effects): Stage {
    if !e.stats then Stage(s, None)
    else if UsesCache(s, release, sha) && (e.readable || !s.hash.Text?) then Stage(s, Some(Got(true)))
    else if !Checked(s, release) then Stage(s, None)
    else
      var cleared := WithoutFinal(s, e.removeFinal);
      if e.removeFinal.Cut? then Stage(cleared, Some(Crashed))
      else Stage(WithoutHash(cleared, e.removeHash), if e.removeHash.Cut? then Some(Crashed) else None)
  }

  /** Stream the body into the partial file. */
  function Received(s: CacheState, response: Response, e: Effects): Stage {
    var chunks := response.chunks;
    if !e.createPart.Done? then Stage(WithPart(s, e.createPart), Some(Stop(e.createPart)))
    else if e.appended < |chunks| && !e.append.Done? then
      Stage(s.(part := Some(Concat(chunks[..e.appended]) + Written(chunks[e.appended], e.append))), Some(Stop(e.append)))
    else
      Stage(s.(part := Some(Concat(chunks))),
            if !response.complete then Some(Failed) else if !e.flush.Done? then Some(Stop(e.flush)) else None)
  }

  /** Store the digest, check it against the published one, and move the body into place. */
  function Published(s: CacheState, release: Release, hash: string, e: Effects): Ended {
    var stored := WithHash(s, hash, e.writeHash);
    if e.writeHash.Cut? then Ended(stored, Crashed)
    else if release.expected.Some? && hash != release.expected.value then
      var dropped := WithoutPart(stored, e.removePart);
      if e.removePart.Cut? then Ended(dropped, Crashed)
      else Ended(WithoutHash(dropped, e.removeHashAgain), if e.removeHashAgain.Cut? then Crashed else Failed)
    else Ended(Renamed(stored, e.rename), if e.rename.Done? then Got(false) else Stop(e.rename))
  }

  function Downloaded(s: CacheState, c: CallRecord, sha: seq<byte> -> string): Ended {
    if !c.response.reachable || !c.response.success then Ended(s, Failed)
    else
      var got := Received(s, c.response, c.effects);
      if got.stop.Some? then Ended(got.s, got.stop.value)
      else Published(got.s, c.release, sha(Concat(c.response.chunks)), c.effects)
  }

  /** The effect of a call on all three files and its outcome. */
  function Call(s: CacheState, c: CallRecord, sha: seq<byte> -> string): Ended {
    if !c.effects.dir.Done? then Ended(s, Stop(c.effects.dir))
    else
      var cached := Cached(s, c.release, sha, c.effects);
      if cached.stop.Some? then Ended(cached.s, cached.stop.value) else Downloaded(cached.s, c, sha)
  }

  // ----- The download step by step -----

  class Cache {
    var s: CacheState

    constructor (s: CacheState)
      ensures this.s == s
    {
      this.s := s;
    }

    method RemoveFinal(e: Effect)
      modifies this
      ensures s == WithoutFinal(old(s), e)
    {
      s := WithoutFinal(s, e);
    }

    method RemoveHash(e: Effect)
      modifies this
      ensures s == WithoutHash(old(s), e)
    {
      s := WithoutHash(s, e);
    }

    method RemovePart(e: Effect)
      modifies this
      ensures s == WithoutPart(old(s), e)
    {
      s := WithoutPart(s, e);
    }

    /** `File::create` */
    method CreatePart(e: Effect)
      modifies this
      ensures s == WithPart(old(s), e)
    {
      s := WithPart(s, e);
    }

    /** `write_all` of one chunk */
    method AppendPart(chunk: seq<byte>, e: Effect)
      requires s.part.Some?
      modifies this
      ensures s == old(s).(part := Some(old(s).part.value + Written(chunk, e)))
    {
      s := s.(part := Some(s.part.value + Written(chunk, e)));
    }

    /** `fs::write` of the digest file */
    method WriteHash(text: string, e: Effect)
      modifies this
      ensures s == WithHash(old(s), text, e)
    {
      s := WithHash(s, text, e);
    }

    /** `fs::rename` */
    method Finalize(e: Effect)
      modifies this
      ensures s == Renamed(old(s), e)
    {
      s := Renamed(s, e);
    }
  }

  /** `verify_sha256`: false on any read error, wherever it happens. `readable` says that there is none. */
  method VerifySha256(data: seq<byte>, expected: string, sha: seq<byte> -> string, readable: bool) returns (ok: bool)
    ensures ok <==> readable && sha(data) == expected
  {
    var file := new ImageFile(data, true);
    var opens := Chance();
    if !opens && !readable {
      return false;
    }
    var hasher := new Hasher(sha);
    var buf := new byte[CHUNK];
    assert data[..0] == [];
    while true
      invariant file.pos <= |file.data| && file.data == data
      invariant hasher.sha == sha && hasher.fed == data[..file.pos]
      decreases |data| - file.pos
    {
      ghost var at := file.pos;
      var good := Chance();
      if !readable && (!good || file.pos == |data|) {
        return false;
      }
      var n := file.Read(buf, 0, CHUNK);
      if n.value == 0 {
        break;
      }
      assert buf[..n.value] == buf[0..0 + n.value] == data[at..file.pos];
      assert data[..file.pos] == data[..at] + data[at..file.pos];
      hasher.Update(buf, n.value);
    }
    assert data[..file.pos] == data;
    ok := hasher.sha(hasher.fed) == expected;
  }

  method TryCache(cache: Cache, release: Release, sha: seq<byte> -> string, e: Effects) returns (r: Option<Outcome>)
    modifies cache
    ensures Stage(cache.s, r) == Cached(old(cache.s), release, sha, e)
  {
    if cache.s.final.None? || !e.stats || |cache.s.final.value| != release.size {
      return None;
    }
    match cache.s.hash {
      case NoFile => return Some(Got(true));
      case Unreadable => return Some(Got(true));
      case Text(text) =>
        var stored := Trim(text);
        if stored == "" {
          return None;
        }
        var good := VerifySha256(cache.s.final.value, stored, sha, e.readable);
        if good {
          return Some(Got(true));
        }
        cache.RemoveFinal(e.removeFinal);
        if e.removeFinal.Cut? {
          return Some(Crashed);
        }
        cache.RemoveHash(e.removeHash);
        return if e.removeHash.Cut? then Some(Crashed) else None;
    }
  }

  /** The loop over the chunks, hashing on the way. */
  method ReceiveBody(cache: Cache, response: Response, sha: seq<byte> -> string, e: Effects)
    returns (r: Option<Outcome>, hash: string)
    modifies cache
    ensures Stage(cache.s, r) == Received(old(cache.s), response, e)
    ensures r == None ==> hash == sha(Concat(response.chunks))
  {
    hash := "";
    cache.CreatePart(e.createPart);
    if !e.createPart.Done? {
      return Some(Stop(e.createPart)), hash;
    }
    var fed: seq<byte> := [];
    var i := 0;
    while i < |response.chunks|
      invariant i <= |response.chunks| && (i <= e.appended || e.append.Done?)
      invariant cache.s == old(cache.s).(part := Some(fed))
      invariant fed == Concat(response.chunks[..i])
    {
      ConcatOne(response.chunks, i);
      var effect := if i == e.appended then e.append else Done;
      cache.AppendPart(response.chunks[i], effect);
      if !effect.Done? {
        return Some(Stop(effect)), hash;
      }
      fed := fed + response.chunks[i];
      i := i + 1;
    }
    assert response.chunks[..i] == response.chunks;
    if !response.complete {
      return Some(Failed), hash;
    }
    if !e.flush.Done? {
      return Some(Stop(e.flush)), hash;
    }
    r, hash := None, sha(fed);
  }

  method Publish(cache: Cache, release: Release, hash: string, e: Effects) returns (outcome: Outcome)
    modifies cache
    ensures Ended(cache.s, outcome) == Published(old(cache.s), release, hash, e)
  {
    cache.WriteHash(hash, e.writeHash);
    if e.writeHash.Cut? {
      return Crashed;
    }
    if release.expected.Some? && hash != release.expected.value {
      cache.RemovePart(e.removePart);
      if e.removePart.Cut? {
        return Crashed;
      }
      cache.RemoveHash(e.removeHashAgain);
      return if e.removeHashAgain.Cut? then Crashed else Failed;
    }
    cache.Finalize(e.rename);
    outcome := if e.rename.Done? then Got(false) else Stop(e.rename);
  }

  /** `download_image`. */
  method DownloadImage(cache: Cache, c: CallRecord, sha: seq<byte> -> string) returns (outcome: Outcome)
    modifies cache
    ensures Ended(cache.s, outcome) == Call(old(cache.s), c, sha)
  {
    if !c.effects.dir.Done? {
      return Stop(c.effects.dir);
    }
    var cached := TryCache(cache, c.release, sha, c.effects);
    if cached.Some? {
      return cached.value;
    }
    if !c.response.reachable || !c.response.success {
      return Failed;
    }
    var received, hash := ReceiveBody(cache, c.response, sha, c.effects);
    if received.Some? {
      return received.value;
    }
    outcome := Publish(cache, c.release, hash, c.effects);
  }

  // ----- What one call does -----

  /** The server delivered this body to its end, and it is the published one if a digest is published. */
  predicate Fetched(c: CallRecord, sha: seq<byte> -> string) {
    && c.response.reachable && c.response.success && c.response.complete
    && (c.release.expected.Some? ==> sha(Concat(c.response.chunks)) == c.release.expected.value)
  }

  /** The call gets as far as moving the body into place. */
  predicate Replaces(s: CacheState, c: CallRecord, sha: seq<byte> -> string) {
    && c.effects.dir.Done? && Cached(s, c.release, sha, c.effects).stop.None? && Fetched(c, sha)
    && Received(Cached(s, c.release, sha, c.effects).s, c.response, c.effects).stop.None?
    && !c.effects.writeHash.Cut? && TakesHold(c.effects.rename)
  }

  lemma CachedStage(s: CacheState, release: Release, sha: seq<byte> -> string, e: Effects)
    ensures var t := Cached(s, release, sha, e);
            && (t.s.final == s.final || (t.s.final == None && Checked(s, release)))
            && (t.stop == Some(Got(true)) ==> t.s == s && UsesCache(s, release, sha))
            && t.stop != Some(Got(false))
  {
  }

  lemma ReceivedStage(s: CacheState, response: Response, e: Effects)
    ensures var t := Received(s, response, e);
            && t.s.final == s.final && t.s.hash == s.hash
            && (t.stop == None ==> response.complete && t.s.part == Some(Concat(response.chunks)))
            && (t.stop.Some? ==> !t.stop.value.Got?)
  {
  }

  lemma PublishedStage(s: CacheState, release: Release, hash: string, e: Effects)
    ensures var r := Published(s, release, hash, e);
            var moves := !e.writeHash.Cut? && (release.expected.Some? ==> hash == release.expected.value)
                         && TakesHold(e.rename);
            && r.s.final == (if moves then s.part else s.final)
            && (r.outcome == Got(false) ==> moves) && r.outcome != Got(true)
  {
  }

  lemma DownloadedStage(s: CacheState, c: CallRecord, sha: seq<byte> -> string)
    ensures var r := Downloaded(s, c, sha);
            var moves := Fetched(c, sha) && Received(s, c.response, c.effects).stop.None?
                         && !c.effects.writeHash.Cut? && TakesHold(c.effects.rename);
            && r.s.final == (if moves then Some(Concat(c.response.chunks)) else s.final)
            && (r.outcome == Got(false) ==> moves) && r.outcome != Got(true)
  {
    var got := Received(s, c.response, c.effects);
    ReceivedStage(s, c.response, c.effects);
    PublishedStage(got.s, c.release, sha(Concat(c.response.chunks)), c.effects);
  }

  /** The final file after a call is the whole of a proper download if it was moved into place; else it
      is the old one, or gone. */
  lemma FinalAfterCall(s: CacheState, c: CallRecord, sha: seq<byte> -> string)
    ensures var final := Call(s, c, sha).s.final;
            if Replaces(s, c, sha) then final == Some(Concat(c.response.chunks))
            else final == s.final || (final == None && Checked(s, c.release))
    ensures Call(s, c, sha).outcome == Got(false) ==> Replaces(s, c, sha)
    ensures Call(s, c, sha).outcome == Got(true) ==> Call(s, c, sha).s == s && UsesCache(s, c.release, sha)
    // when the cached file is taken, spelled out
    ensures Call(s, c, sha).outcome == Got(true) <==>
            && c.effects.dir.Done? && c.effects.stats && s.final.Some? && |s.final.value| == c.release.size
            && (s.hash.Text? ==>
                  Trim(s.hash.text) != "" && c.effects.readable && sha(s.final.value) == Trim(s.hash.text))
  {
    var cached := Cached(s, c.release, sha, c.effects);
    CachedStage(s, c.release, sha, c.effects);
    DownloadedStage(cached.s, c, sha);
  }

  /** The partial file is never anything but a beginning of the body, or what it was. */
  lemma PartAfterCall(s: CacheState, c: CallRecord, sha: seq<byte> -> string)
    ensures var part := Call(s, c, sha).s.part;
            part == s.part || part == None || part.value <= Concat(c.response.chunks)
  {
    var cached := Cached(s, c.release, sha, c.effects);
    assert cached.s.part == s.part;
    ReceivedPart(cached.s, c.response, c.effects);
  }

  lemma ReceivedPart(s: CacheState, response: Response, e: Effects)
    ensures var part := Received(s, response, e).s.part;
            part == s.part || (part.Some? && part.value <= Concat(response.chunks))
  {
    var chunks := response.chunks;
    if e.appended < |chunks| {
      ConcatOne(chunks, e.appended);
      ConcatIsPrefix(chunks, e.appended + 1);
    }
  }

  /** Without faults and crashes a call takes the cached file, or the body, or fails. A file that did not
      pass its check goes with its digest; a body that breaks off stays as the partial file, and one
      that is not the published one goes with its digest. */
  lemma CalmCall(s: CacheState, c: CallRecord, sha: seq<byte> -> string)
    requires Calm(c.effects)
    ensures var r, body := Call(s, c, sha), Concat(c.response.chunks);
            var cleared := if Checked(s, c.release) then CacheState(None, s.part, NoFile) else s;
            r == if UsesCache(s, c.release, sha) then Ended(s, Got(true))
            else if !c.response.reachable || !c.response.success then Ended(cleared, Failed)
            else if !c.response.complete then Ended(cleared.(part := Some(body)), Failed)
            else if Fetched(c, sha) then Ended(CacheState(Some(body), None, Text(sha(body))), Got(false))
            else Ended(CacheState(cleared.final, None, NoFile), Failed)
  {
  }

  /** The stored digest, if one can be read, is that of the file. */
  ghost predicate Agrees(s: CacheState, sha: seq<byte> -> string) {
    s.final.Some? && (s.hash.Text? ==> Trim(s.hash.text) == sha(s.final.value))
  }

  /** The digest of the body could not be stored: an old one is left, and is another, or a part of the
      new one. */
  predicate LeavesOldDigest(s: CacheState, c: CallRecord, digest: string) {
    var e := c.effects;
    && e.writeHash.Refused?
    && if e.writeHash.part == 0
       then s.hash.Text? && Trim(s.hash.text) != digest && !(e.stats && Checked(s, c.release) && e.removeHash.Done?)
       else e.writeHash.part <= |digest|
  }

  /** A cached result always agrees with the stored digest, and a fresh one unless its digest could not
      be stored. */
  lemma OkMatchesStoredDigest(s: CacheState, c: CallRecord, sha: seq<byte> -> string)
    requires DigestFunction(sha) && Call(s, c, sha).outcome.Got?
    ensures var r := Call(s, c, sha);
            Agrees(r.s, sha) <==> r.outcome.cached || !LeavesOldDigest(s, c, sha(Concat(c.response.chunks)))
    ensures var r := Call(s, c, sha);
            !r.outcome.cached && c.effects.writeHash.Done? ==> r.s.hash == Text(sha(r.s.final.value))
  {
    FinalAfterCall(s, c, sha);
    var r, digest := Call(s, c, sha), sha(Concat(c.response.chunks));
    if !r.outcome.cached {
      FreshHash(s, c, sha);
      assert IsDigest(digest);
      if c.effects.writeHash.Done? || c.effects.writeHash.part > 0 {
        StoredAgrees(digest, c.effects.writeHash);
      }
    }
  }

  /** The digest file behind a fresh result. */
  lemma FreshHash(s: CacheState, c: CallRecord, sha: seq<byte> -> string)
    requires Call(s, c, sha).outcome == Got(false)
    ensures var r, e := Call(s, c, sha).s, c.effects;
            var cleared := e.stats && Checked(s, c.release) && e.removeHash.Done?;
            && !e.writeHash.Cut?
            && r.hash == WithHash(if cleared then s.(hash := NoFile) else s, sha(Concat(c.response.chunks)), e.writeHash).hash
  {
    var cached := Cached(s, c.release, sha, c.effects);
    ReceivedStage(cached.s, c.response, c.effects);
  }

  /** What is written of a digest reads as that digest exactly when all of it is written. */
  lemma StoredAgrees(digest: string, e: Effect)
    requires IsDigest(digest) && (e.Done? || e.part > 0)
    ensures var hash := WithHash(CacheState(None, None, NoFile), digest, e).hash;
            && hash.Text? && hash.text <= digest
            && (Trim(hash.text) == digest <==> e.Done? || e.part > |digest|)
            && (hash.text == digest <==> e.Done? || e.part > |digest|)
  {
    var text := WithHash(CacheState(None, None, NoFile), digest, e).hash.text;
    DigestHasNoSpace(digest);
    TrimShrinks(text);
    DigestMatches(text, Trim(text), digest, digest);
  }

  /** A pair left behind by a crash between digest write and rename, or by bit rot: the old file next
      to a digest that is not its own is never handed out, and without faults it is fetched again. */
  lemma StalePairIsDetected(s: CacheState, c: CallRecord, sha: seq<byte> -> string)
    requires s.final.Some? && s.hash.Text? && sha(s.final.value) != Trim(s.hash.text)
    ensures Call(s, c, sha).outcome != Got(true)
    ensures Call(s, c, sha).outcome == Got(false) ==> Call(s, c, sha).s.final == Some(Concat(c.response.chunks))
    ensures Calm(c.effects) && Fetched(c, sha) ==> Call(s, c, sha).outcome == Got(false)
  {
    FinalAfterCall(s, c, sha);
  }

  // ----- Whole runs -----

  /** The files after a history of calls, some of them crashed. */
  function Runs(s: CacheState, calls: seq<CallRecord>, sha: seq<byte> -> string): CacheState {
    if calls == [] then s else Call(Runs(s, calls[..|calls| - 1], sha), calls[|calls| - 1], sha).s
  }

  /** A body some call of the run fetched whole and found as published. */
  ghost predicate FetchedBy(calls: seq<CallRecord>, sha: seq<byte> -> string, body: seq<byte>) {
    exists j :: 0 <= j < |calls| && Fetched(calls[j], sha) && Concat(calls[j].response.chunks) == body
  }

  /** After any run, crashed or not, the final file is absent, the one from before the run, or the
      whole of a download that matched the digest published for it. */
  lemma {:induction false} NeverPartial(s: CacheState, calls: seq<CallRecord>, sha: seq<byte> -> string)
    ensures var final := Runs(s, calls, sha).final;
            final == None || final == s.final || FetchedBy(calls, sha, final.value)
  {
    if calls != [] {
      var n := |calls| - 1;
      var before := Runs(s, calls[..n], sha);
      NeverPartial(s, calls[..n], sha);
      FinalAfterCall(before, calls[n], sha);
      if before.final.Some? && FetchedBy(calls[..n], sha, before.final.value) {
        var body := before.final.value;
        var j :| 0 <= j < n && Fetched(calls[..n][j], sha) && Concat(calls[..n][j].response.chunks) == body;
        assert calls[j] == calls[..n][j];
        assert FetchedBy(calls, sha, body);
      }
    }
  }

  /** Digests read back from a file as they were written into it. */
  ghost predicate ReadsBack(sha: seq<byte> -> string) {
    forall b :: Trim(sha(b)) == sha(b)
  }

  /** The digest function prints 64 lower-case hexadecimal digits. */
  predicate LowerHex(c: char) {
    '0' <= c <= '9' || 'a' <= c <= 'f'
  }

  predicate IsDigest(s: string) {
    |s| == 64 && forall i :: 0 <= i < |s| ==> LowerHex(s[i])
  }

  ghost predicate DigestFunction(sha: seq<byte> -> string) {
    forall b :: IsDigest(sha(b))
  }

  lemma DigestsReadBack(sha: seq<byte> -> string)
    requires DigestFunction(sha)
    ensures ReadsBack(sha)
  {
    forall b ensures Trim(sha(b)) == sha(b) {
      DigestHasNoSpace(sha(b));
    }
  }

  lemma DigestHasNoSpace(text: string)
    requires IsDigest(text)
    ensures Trim(text) == text
  {
    assert LowerHex(text[0]) && LowerHex(text[|text| - 1]);
    TrimOfWord(text);
  }

  /** With one published digest for every call and nothing in the cache at first, every result ever
      returned, cached ones included, has that digest. */
  lemma PinnedRelease(
    s: CacheState, calls: seq<CallRecord>, c: CallRecord, sha: seq<byte> -> string, digest: string)
    requires s.final == None && c.release.expected == Some(digest)
    requires forall j :: 0 <= j < |calls| ==> calls[j].release.expected == Some(digest)
    requires Call(Runs(s, calls, sha), c, sha).outcome.Got?
    ensures var final := Call(Runs(s, calls, sha), c, sha).s.final;
            final.Some? && sha(final.value) == digest
  {
    var before := Runs(s, calls, sha);
    NeverPartial(s, calls, sha);
    FinalAfterCall(before, c, sha);
    if !Replaces(before, c, sha) {
      var j :| 0 <= j < |calls|
               && Fetched(calls[j], sha) && Concat(calls[j].response.chunks) == before.final.value;
    }
  }

  // ----- What the cache does not do -----

  /** Across releases that fails: a cached result is never compared with the digest the release
      publishes. It has that digest exactly when the stored one has. */
  lemma CachedIgnoresPublishedDigest(s: CacheState, c: CallRecord, sha: seq<byte> -> string)
    requires c.release.expected.Some? && s.hash.Text? && Call(s, c, sha).outcome == Got(true)
    ensures var final := Call(s, c, sha).s.final;
            final.Some? && (sha(final.value) == c.release.expected.value <==> Trim(s.hash.text) == c.release.expected.value)
  {
    FinalAfterCall(s, c, sha);
  }

  /** Where no digest can be read, the size alone decides: every file of the advertised size is handed
      out, whatever its bytes and whatever the release publishes. */
  lemma CachedBySizeAlone(s: CacheState, c: CallRecord, sha: seq<byte> -> string)
    requires !s.hash.Text? && c.effects.dir.Done? && c.effects.stats
    ensures Call(s, c, sha).outcome == Got(true) <==> s.final.Some? && |s.final.value| == c.release.size
  {
    FinalAfterCall(s, c, sha);
  }

  /** It does happen: a file of the advertised size, with its own digest stored beside it or none to be
      read, is handed out whatever digest the release publishes by then. */
  lemma CachedCanDiffer(file: seq<byte>, hash: HashFile, published: string, c: CallRecord, sha: seq<byte> -> string)
    requires ReadsBack(sha) && sha(file) != published && sha(file) != "" && Calm(c.effects)
    requires c.release == Release(|file|, Some(published)) && (hash == Text(sha(file)) || !hash.Text?)
    ensures var s := CacheState(Some(file), None, hash);
            Call(s, c, sha) == Ended(s, Got(true)) && sha(file) != published
  {
  }

  /** The filter a published digest passes: 64 hexadecimal digits of either case. */
  predicate AcceptedDigest(h: string) {
    |h| == 64 && forall i :: 0 <= i < |h| ==> LowerHex(h[i]) || 'A' <= h[i] <= 'F'
  }

  /** The comparison is of text, so a published digest can only ever match when it is all lower case:
      with a capital in it, no download of any body succeeds. */
  lemma CapitalsNeverMatch(s: CacheState, c: CallRecord, sha: seq<byte> -> string)
    requires DigestFunction(sha) && c.release.expected.Some?
    requires AcceptedDigest(c.release.expected.value) && !IsDigest(c.release.expected.value)
    ensures Call(s, c, sha).outcome != Got(false)
    ensures Call(s, c, sha).s.final == s.final || Call(s, c, sha).s.final == None
  {
    FinalAfterCall(s, c, sha);
    assert IsDigest(sha(Concat(c.response.chunks)));
  }

  // A bad file, one whose stored digest is not its own, and what the steps of a call make of it.

  /** The bad file is neither removed nor is the call cut off at that. */
  predicate KeepsBadFile(e: Effects) {
    e.dir.Done? && (!e.stats || e.removeFinal.Refused?)
  }

  /** The body comes to an end, and its digest is about to be stored. */
  predicate Delivers(c: CallRecord) {
    var e := c.effects;
    && (e.stats ==> !e.removeHash.Cut?) && c.response.reachable && c.response.success && c.response.complete
    && e.createPart.Done? && (e.appended < |c.response.chunks| ==> e.append.Done?) && e.flush.Done?
  }

  predicate Mismatches(c: CallRecord, digest: string) {
    c.release.expected.Some? && digest != c.release.expected.value
  }

  /** The body takes the place of the bad file. */
  predicate MovesBody(c: CallRecord, digest: string) {
    Delivers(c) && !c.effects.writeHash.Cut? && !Mismatches(c, digest) && TakesHold(c.effects.rename)
  }

  /** The digest file of a body that is not the published one goes again. */
  predicate DropsNewDigest(c: CallRecord, digest: string) {
    var e := c.effects;
    Delivers(c) && !e.writeHash.Cut? && Mismatches(c, digest) && !e.removePart.Cut? && TakesHold(e.removeHashAgain)
  }

  predicate WritesDigest(c: CallRecord) {
    Delivers(c) && (c.effects.writeHash.Done? || c.effects.writeHash.part > 0)
  }

  /** In the end there is no digest file: it went with the new digest, or with the check and was not
      written again. */
  predicate DigestGoes(c: CallRecord, digest: string) {
    DropsNewDigest(c, digest) || (c.effects.stats && TakesHold(c.effects.removeHash) && !WritesDigest(c))
  }

  /** The whole digest of a body that is not put in place is stored, and stays. */
  predicate DigestStays(c: CallRecord, digest: string) {
    && Delivers(c) && (c.effects.writeHash.Done? || c.effects.writeHash.part > |digest|)
    && !DropsNewDigest(c, digest)
  }

  /** A bad file is handed out by the next call exactly when this one could neither remove nor replace
      it, but its digest went; or gave way to the digest of the body, which happens to be that of the file. */
  lemma BadFileIsTrusted(s: CacheState, c: CallRecord, next: CallRecord, sha: seq<byte> -> string)
    requires DigestFunction(sha) && Checked(s, c.release) && !UsesCache(s, c.release, sha)
    requires next.release == c.release && next.effects.dir.Done? && next.effects.stats && next.effects.readable
    ensures var digest := sha(Concat(c.response.chunks));
            !Replaces(s, c, sha) && Call(Call(s, c, sha).s, next, sha).outcome == Got(true)
            <==> && KeepsBadFile(c.effects) && !MovesBody(c, digest)
                 && (DigestGoes(c, digest) || (DigestStays(c, digest) && digest == sha(s.final.value)))
  {
    var left := Call(s, c, sha).s;
    CallUsesCache(left, next, sha);
    if KeepsBadFile(c.effects) {
      BadFileReplaced(s, c, sha);
    }
    if !Replaces(s, c, sha) {
      BadFileStays(s, c, sha);
      if KeepsBadFile(c.effects) {
        BadHash(s, c, sha);
        DigestsReadBack(sha);
        TrustedByHash(s, c, left, sha);
      }
    }
  }

  lemma CompletesBody(s: CacheState, response: Response, e: Effects)
    ensures Received(s, response, e).stop.None? <==>
            && response.complete && e.createPart.Done? && (e.appended < |response.chunks| ==> e.append.Done?)
            && e.flush.Done?
  {
  }

  lemma BadFileReplaced(s: CacheState, c: CallRecord, sha: seq<byte> -> string)
    requires Checked(s, c.release) && !UsesCache(s, c.release, sha) && KeepsBadFile(c.effects)
    ensures Replaces(s, c, sha) <==> MovesBody(c, sha(Concat(c.response.chunks)))
  {
    CompletesBody(Cached(s, c.release, sha, c.effects).s, c.response, c.effects);
  }

  /** The digest file a call leaves beside a bad file. */
  lemma BadHash(s: CacheState, c: CallRecord, sha: seq<byte> -> string)
    requires Checked(s, c.release) && !UsesCache(s, c.release, sha) && KeepsBadFile(c.effects)
    ensures var left, digest := Call(s, c, sha).s, sha(Concat(c.response.chunks));
            left.hash == if DigestGoes(c, digest) then NoFile
            else if WritesDigest(c) then WithHash(s, digest, c.effects.writeHash).hash
            else s.hash
  {
    var cached := Cached(s, c.release, sha, c.effects);
    CompletesBody(cached.s, c.response, c.effects);
    ReceivedStage(cached.s, c.response, c.effects);
  }

  /** When a bad file that is not replaced stays, and the call got on. */
  lemma BadFileStays(s: CacheState, c: CallRecord, sha: seq<byte> -> string)
    requires Checked(s, c.release) && !UsesCache(s, c.release, sha) && !Replaces(s, c, sha)
    ensures var left := Call(s, c, sha).s;
            if c.effects.dir.Done? && (!c.effects.stats || c.effects.removeFinal.Refused?)
            then left.final == s.final
            else left == s || left.final == None
  {
    var cached := Cached(s, c.release, sha, c.effects);
    DownloadedStage(cached.s, c, sha);
  }

  /** The digest file alone decides whether an old file is trusted. */
  lemma TrustedByHash(s: CacheState, c: CallRecord, left: CacheState, sha: seq<byte> -> string)
    requires Checked(s, c.release) && !UsesCache(s, c.release, sha) && left.final == s.final
    requires IsDigest(sha(s.final.value)) && IsDigest(sha(Concat(c.response.chunks)))
    requires var digest := sha(Concat(c.response.chunks));
             left.hash == if DigestGoes(c, digest) then NoFile
             else if WritesDigest(c) then WithHash(s, digest, c.effects.writeHash).hash
             else s.hash
    ensures var digest := sha(Concat(c.response.chunks));
            UsesCache(left, c.release, sha) <==>
            DigestGoes(c, digest) || (DigestStays(c, digest) && digest == sha(s.final.value))
  {
    var own, digest := sha(s.final.value), sha(Concat(c.response.chunks));
    if !DigestGoes(c, digest) && WritesDigest(c) {
      StoredAgrees(digest, c.effects.writeHash);
      DigestHasNoSpace(digest);
      var text := left.hash.text;
      TrimShrinks(text);
      DigestMatches(text, Trim(text), digest, own);
    }
  }

  /** The beginning of a digest, trimmed, is a digest only if it is the whole of it. */
  lemma DigestMatches(part: string, trimmed: string, text: string, own: string)
    requires part <= text && |text| == |own|
    requires |trimmed| <= |part| && (part == text ==> trimmed == text)
    ensures trimmed == own <==> part == text && text == own
  {
  }

  lemma CallUsesCache(s: CacheState, c: CallRecord, sha: seq<byte> -> string)
    requires c.effects.dir.Done? && c.effects.stats && c.effects.readable
    ensures Call(s, c, sha).outcome == Got(true) <==> UsesCache(s, c.release, sha)
  {
    FinalAfterCall(s, c, sha);
  }

  /** One way this happens: the final file cannot be removed, its digest can, and the server cannot be
      reached. */
  lemma BadFileWithoutDigestIsTrusted(s: CacheState, c: CallRecord, next: CallRecord, sha: seq<byte> -> string)
    requires Checked(s, c.release) && !UsesCache(s, c.release, sha)
    requires c.effects.dir.Done? && c.effects.stats && c.effects.removeFinal.Refused? && c.effects.removeHash.Done?
    requires !c.response.reachable && next.release == c.release && Calm(next.effects)
    ensures Call(s, c, sha) == Ended(s.(hash := NoFile), Failed)
    ensures Call(Call(s, c, sha).s, next, sha) == Ended(s.(hash := NoFile), Got(true))
  {
  }
}
