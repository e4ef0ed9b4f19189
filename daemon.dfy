/** One served connection of auth-oathd/main.go (`processAccept`), after
    the request bytes have been read and decoded, and a client that runs
    the daemon's exchange end to end. */
module Daemon {
  import opened Wrappers
  import opened Verifier
  import opened Messages
  import opened Directory

  /** `processAccept`. `request` is the decoded request, or None when
      reading the socket or decoding the JSON failed; the result is the
      response written back, or None when the connection is closed
      without one. */
  method ProcessAccept(request: Option<IngoingMessage>, users: Users, now: int, flags: OathFlags, host: Host)
    returns (reply: Option<OutgoingMessage>)
    modifies users.records, host`runs
    ensures request.None? ==>
      reply.None? && host.runs == old(host.runs) && forall u :: u in users.records ==> unchanged(u)
    ensures request.Some? ==>
      reply.Some? && DirectoryStep(users, request.value, now, flags, host, reply.value.ok)
    ensures old(users.Valid()) ==> users.Valid()
    ensures old(users.Trusted(host, flags)) ==> users.Trusted(host, flags)
  {
    if request.None? {
      return None;
    }

    var ok := users.Authorize(request.value, now, flags, host);
    if ok {
      reply := Some(OutgoingMessage(true));
    } else {
      reply := Some(OutgoingMessage(false));
    }
  }

  /** A directory holding only "alice" with key "K", and an oathtool that
      accepts exactly the password "000000"; alice logs in with "000000"
      at `t0`, again at `t0 + 1`, and once more just after the window.
      The first and the last request run oathtool; the second is answered
      from the cache. */
  method CachedLoginScenario(rfc3339: int -> string, t0: int)
    returns (first: Option<OutgoingMessage>, second: Option<OutgoingMessage>,
             late: Option<OutgoingMessage>, ghost runs: nat)
    ensures first == Some(OutgoingMessage(true))
    ensures second == Some(OutgoingMessage(true))
    ensures late == Some(OutgoingMessage(true))
    ensures runs == 2
  {
    var host := new Host(argv => |argv| > 0 && argv[|argv| - 1] == "000000", rfc3339);
    var flags := OathFlags(false);
    var alice := new User("alice", "K");
    var users := Users([alice]);
    assert users.Names() == ["alice"];
    assert alice in users.records;

    first := ProcessAccept(Some(IngoingMessage("alice", "000000")), users, t0, flags, host);
    assert alice.pin == "000000" && alice.accessed == Some(t0);
    assert |host.runs| == 1;

    second := ProcessAccept(Some(IngoingMessage("alice", "000000")), users, t0 + 1, flags, host);
    assert alice.pin == "000000" && alice.accessed == Some(t0);

    late := ProcessAccept(Some(IngoingMessage("alice", "000000")), users, t0 + Window + 1, flags, host);
    runs := |host.runs|;
  }

  /** The same directory: a request for the unknown "bob" is refused, and
      bytes that do not decode get no answer; neither runs oathtool nor
      touches alice's record, and the daemon goes on to accept alice. */
  method RefusalScenario(rfc3339: int -> string, t0: int)
    returns (unknown: Option<OutgoingMessage>, malformed: Option<OutgoingMessage>,
             next: Option<OutgoingMessage>, ghost runs: nat)
    ensures unknown == Some(OutgoingMessage(false))
    ensures malformed == None
    ensures next == Some(OutgoingMessage(true))
    ensures runs == 1
  {
    var host := new Host(argv => |argv| > 0 && argv[|argv| - 1] == "000000", rfc3339);
    var flags := OathFlags(false);
    var alice := new User("alice", "K");
    var users := Users([alice]);
    assert users.Names() == ["alice"];
    assert alice in users.records;

    unknown := ProcessAccept(Some(IngoingMessage("bob", "x")), users, t0, flags, host);
    assert Find(users.Names(), "bob") == None;

    malformed := ProcessAccept(None, users, t0 + 1, flags, host);
    assert alice.pin == "" && alice.accessed == None && host.runs == [];

    next := ProcessAccept(Some(IngoingMessage("alice", "000000")), users, t0 + 2, flags, host);
    runs := |host.runs|;
  }
}
