/**
 Receiving the authorised descriptor from the helper process (src-tauri/src/rawwrite_unix.rs): a
 loop over `recvmsg` until a control message with rights arrives.
 */
module FdHelper {
  import opened Wrappers

  datatype Control = Rights(fd: int) | OtherControl

  /** One return of `recvmsg`: interrupted, failed, end of stream, or data with control messages. */
  datatype Recv = Interrupted | Failed | Closed | Data(controls: seq<Control>)

  function FirstRights(controls: seq<Control>): Option<int> {
    if controls == [] then None
    else if controls[0].Rights? then Some(controls[0].fd)
    else FirstRights(controls[1..])
  }

  /** A return after which the loop goes on: interrupted, or data without rights. */
  predicate Skipped(e: Recv) {
    e.Interrupted? || (e.Data? && forall c :: c in e.controls ==> c.OtherControl?)
  }

  /** The first rights among these are to this descriptor. */
  predicate Carries(controls: seq<Control>, fd: int) {
    exists j :: 0 <= j < |controls| && controls[j] == Rights(fd) && forall i :: 0 <= i < j ==> controls[i].OtherControl?
  }

  /** The descriptor arrives at event `k`: everything before it was skipped. */
  ghost predicate Arrives(events: seq<Recv>, k: nat, fd: int) {
    && k < |events| && (forall i :: 0 <= i < k ==> Skipped(events[i]))
    && events[k].Data? && Carries(events[k].controls, fd)
  }

  lemma {:induction false} FirstRightsIs(controls: seq<Control>)
    ensures FirstRights(controls).None? <==> forall c :: c in controls ==> c.OtherControl?
    ensures forall fd :: FirstRights(controls) == Some(fd) <==> Carries(controls, fd)
  {
    if controls != [] {
      var rest := controls[1..];
      FirstRightsIs(rest);
      assert controls == [controls[0]] + rest;
      if controls[0].OtherControl? {
        forall fd ensures Carries(controls, fd) <==> Carries(rest, fd) {
          if Carries(rest, fd) {
            var j :| 0 <= j < |rest| && rest[j] == Rights(fd) && forall i :: 0 <= i < j ==> rest[i].OtherControl?;
            assert controls[j + 1] == Rights(fd);
          }
          if Carries(controls, fd) {
            var j :| 0 <= j < |controls| && controls[j] == Rights(fd)
                     && forall i :: 0 <= i < j ==> controls[i].OtherControl?;
            assert rest[j - 1] == Rights(fd);
            assert forall i :: 0 <= i < j - 1 ==> rest[i] == controls[i + 1];
          }
        }
      } else {
        assert controls[0] == Rights(controls[0].fd);
      }
    }
  }

  lemma CarriesIsNotSkipped(events: seq<Recv>)
    ensures forall k: nat, fd :: Arrives(events, k, fd) ==> !Skipped(events[k])
  {
    forall k: nat, fd | Arrives(events, k, fd) ensures !Skipped(events[k]) {
      var controls := events[k].controls;
      var j :| 0 <= j < |controls| && controls[j] == Rights(fd);
      assert controls[j] in controls;
    }
  }

  /** Interruptions, and data that says nothing of rights, do not matter. */
  lemma SkippedSpelled()
    ensures Skipped(Interrupted) && Skipped(Data([])) && Skipped(Data([OtherControl]))
    ensures !Skipped(Failed) && !Skipped(Closed) && forall fd :: !Skipped(Data([Rights(fd)]))
  {
    forall fd ensures !Skipped(Data([Rights(fd)])) {
      assert Rights(fd) in [Rights(fd)];
    }
  }

  /** `recv_fd`. The socket ends at some point, so that the events are finitely many. */
  method RecvFd(events: seq<Recv>) returns (r: Option<int>)
    ensures r.Some? ==> exists k :: Arrives(events, k, r.value)
    ensures forall k, fd :: Arrives(events, k, fd) ==> r == Some(fd)
  {
    CarriesIsNotSkipped(events);
    var i := 0;
    while i < |events|
      invariant i <= |events|
      invariant forall j :: 0 <= j < i ==> Skipped(events[j])
    {
      match events[i] {
        case Interrupted =>
        case Failed => return None;
        case Closed => return None;
        case Data(controls) =>
          FirstRightsIs(controls);
          var c := 0;
          while c < |controls|
            invariant c <= |controls|
            invariant FirstRights(controls) == FirstRights(controls[c..])
          {
            if controls[c].Rights? {
              assert Arrives(events, i, controls[c].fd);
              return Some(controls[c].fd);
            }
            c := c + 1;
          }
      }
      i := i + 1;
    }
    r := None;
  }

  datatype HelperError = Spawn | Refused(code: int) | NoFd

  /** `receive_fd_from_helper`: how the outcome of the loop and of the helper combine. `exit` is the
      exit code, if the helper ended with one. */
  method ReceiveFdFromHelper(socketOk: bool, spawned: bool, events: seq<Recv>, exit: Option<int>)
    returns (r: Result<int, HelperError>)
    ensures r.Ok? <==> socketOk && spawned && exists k, fd :: Arrives(events, k, fd)
    ensures r.Ok? ==> forall k, fd :: Arrives(events, k, fd) ==> fd == r.value
    ensures r == Err(Spawn) <==> !(socketOk && spawned)
    ensures r == Err(NoFd) ==> exit == Some(0)
    ensures r.Err? && r.error.Refused? ==> r.error.code == (if exit.Some? then exit.value else -1) != 0
  {
    if !socketOk || !spawned {
      return Err(Spawn);
    }
    var received := RecvFd(events);
    match received {
      case Some(fd) => r := Ok(fd);
      case None =>
        var code := if exit.Some? then exit.value else -1;
        r := Err(if code != 0 then Refused(code) else NoFd);
    }
  }
}
