/**
 * Stopping the SSH agent: `start_agent`, `serve` and `stop` in src-tauri/src/ssh_agent.rs. A stop ends the accept loop;
 * connections accepted before it are tasks of their own and go on.
 */
module AgentStop {
  import opened Optional
  import S = SignApproval

  datatype Agent = Agent(run: S.State, accepting: bool, connections: set<nat>)

  datatype Event =
    | Connect(c: nat)
    | HangUp(c: nat)
    | Stop
    | Request(c: nat, req: nat, fp: string)      // a sign request for a known key, on an open connection
    | Go(e: S.Event)                             // an answer, or a section of a request that has arrived

  /** What an event is to the approval protocol, if anything. */
  function Seen(a: Agent, e: Event): Option<S.Event> {
    match e
    case Request(c, req, fp) => if c in a.connections then Some(S.Arrive(req, fp)) else None
    case Go(g) => if g.Arrive? then None else Some(g)
    case _ => None
  }

  function Step(a: Agent, e: Event): Agent {
    var run := if Seen(a, e).Some? then S.Step(a.run, Seen(a, e).value) else a.run;
    match e
    case Connect(c) => if a.accepting then a.(connections := a.connections + {c}) else a
    case HangUp(c) => a.(connections := a.connections - {c})
    case Stop => a.(accepting := false)
    case _ => a.(run := run)
  }

  function Run(a: Agent, events: seq<Event>): Agent {
    if events == [] then a else Step(Run(a, events[..|events| - 1]), events[|events| - 1])
  }

  function Start(policy: S.Policy, wired: bool): Agent {
    Agent(S.Start(policy, wired), true, {})
  }

  /** Across connections and stops, the approvals are one run of the protocol: all that is proved of its runs holds. */
  lemma {:induction false} IsProtocolRun(
    policy: S.Policy, wired: bool, events: seq<Event>)
    returns (inner: seq<S.Event>)
    ensures Run(Start(policy, wired), events).run == S.Run(S.Start(policy, wired), inner)
    decreases |events|
  {
    inner := [];
    if events != [] {
      var a, e := Run(Start(policy, wired), events[..|events| - 1]), events[|events| - 1];
      inner := IsProtocolRun(policy, wired, events[..|events| - 1]);
      if Seen(a, e).Some? {
        assert (inner + [Seen(a, e).value])[..|inner|] == inner;
        inner := inner + [Seen(a, e).value];
      }
    }
  }

  // ------------------------------------------------- connections and requests over runs

  /** The connection was made at event `i`, before any stop, and has not been hung up since. */
  ghost predicate OpenSince(events: seq<Event>, i: nat, c: nat)
    requires i < |events|
  {
    && events[i] == Connect(c)
    && (forall j :: 0 <= j < i ==> events[j] != Stop)
    && (forall j :: i < j < |events| ==> events[j] != HangUp(c))
  }

  ghost predicate IsOpen(events: seq<Event>, c: nat) {
    exists i: nat :: i < |events| && OpenSince(events, i, c)
  }

  lemma OpenAppend(events: seq<Event>, e: Event, c: nat)
    ensures IsOpen(events + [e], c)
      <==> e != HangUp(c) && (IsOpen(events, c) || (e == Connect(c) && Stop !in events))
  {
    var all := events + [e];
    assert forall j :: 0 <= j < |events| ==> all[j] == events[j];
    if IsOpen(all, c) {
      var i: nat :| i < |all| && OpenSince(all, i, c);
      assert e == all[|events|];
      if i < |events| {
        assert OpenSince(events, i, c);
      }
    }
    if e != HangUp(c) && IsOpen(events, c) {
      var i: nat :| i < |events| && OpenSince(events, i, c);
      assert OpenSince(all, i, c);
    }
    if e == Connect(c) && Stop !in events {
      assert OpenSince(all, |events|, c);
    }
  }

  /** The agent accepts until the first stop; open are exactly the connections made before it and not hung up since. */
  lemma {:induction false} OpenExactly(policy: S.Policy, wired: bool, events: seq<Event>, c: nat)
    ensures Run(Start(policy, wired), events).accepting <==> Stop !in events
    ensures c in Run(Start(policy, wired), events).connections <==> IsOpen(events, c)
    decreases |events|
  {
    if events != [] {
      var before, e := events[..|events| - 1], events[|events| - 1];
      OpenExactly(policy, wired, before, c);
      assert events == before + [e];
      OpenAppend(before, e, c);
      hide IsOpen;
    }
  }

  /** The request came in at event `i`, over a connection that was open then. */
  ghost predicate CameIn(events: seq<Event>, i: nat, req: nat)
    requires i < |events|
  {
    events[i].Request? && events[i].req == req && IsOpen(events[..i], events[i].c)
  }

  ghost predicate HasCome(events: seq<Event>, req: nat) {
    exists i: nat :: i < |events| && CameIn(events, i, req)
  }

  lemma ComeAppend(events: seq<Event>, e: Event, req: nat)
    ensures HasCome(events + [e], req)
      <==> HasCome(events, req) || (e.Request? && e.req == req && IsOpen(events, e.c))
  {
    hide IsOpen;
    var all := events + [e];
    assert all[..|events|] == events;
    assert forall i :: 0 <= i < |events| ==> all[..i] == events[..i];
    if HasCome(all, req) {
      var i: nat :| i < |all| && CameIn(all, i, req);
      assert i < |events| ==> CameIn(events, i, req);
    }
    if HasCome(events, req) {
      var i: nat :| i < |events| && CameIn(events, i, req);
      assert CameIn(all, i, req);
    }
    if e.Request? && e.req == req && IsOpen(events, e.c) {
      assert CameIn(all, |events|, req);
    }
  }

  lemma RequestsStep(a: Agent, e: Event, req: nat)
    ensures req in Step(a, e).run.requests
      <==> req in a.run.requests || (e.Request? && e.req == req && e.c in a.connections)
  {
    if e.Go? && e.e.Act? {
      hide S.FirstPhase, S.Granted;
    }
  }

  /** A request is known to the agent exactly when it came in over a connection that was open at that moment. */
  lemma {:induction false} RequestsExactly(policy: S.Policy, wired: bool, events: seq<Event>, req: nat)
    ensures req in Run(Start(policy, wired), events).run.requests <==> HasCome(events, req)
    decreases |events|
  {
    if events != [] {
      var before, e := events[..|events| - 1], events[|events| - 1];
      RequestsExactly(policy, wired, before, req);
      assert events == before + [e];
      ComeAppend(before, e, req);
      RequestsStep(Run(Start(policy, wired), before), e, req);
      if e.Request? {
        OpenExactly(policy, wired, before, e.c);
      }
      hide IsOpen, HasCome, Step;
    }
  }

  lemma StepAfterStop(a: Agent, e: Event)
    requires !a.accepting
    ensures !Step(a, e).accepting && Step(a, e).connections <= a.connections
    ensures a.connections == {} ==> Step(a, e).run.requests.Keys == a.run.requests.Keys
  {
  }

  /** After a stop no connection is added, and without connections no request is. */
  lemma {:induction false} AfterStop(a: Agent, more: seq<Event>)
    requires !a.accepting
    ensures var b := Run(a, more); !b.accepting && b.connections <= a.connections
    ensures a.connections == {} ==> Run(a, more).run.requests.Keys == a.run.requests.Keys
    decreases |more|
  {
    if more != [] {
      hide Step;
      AfterStop(a, more[..|more| - 1]);
      StepAfterStop(Run(a, more[..|more| - 1]), more[|more| - 1]);
    }
  }

  /** A request that has not arrived yet arrives in some continuation. */
  ghost predicate CanArrive(a: Agent, req: nat) {
    exists more: seq<Event> :: req in Run(a, more).run.requests
  }

  /** A stopped agent takes new requests exactly as long as a connection from before the stop is open. */
  lemma NewRequestsExactly(a: Agent, req: nat)
    requires !a.accepting && req !in a.run.requests
    ensures CanArrive(a, req) <==> a.connections != {}
  {
    if a.connections == {} {
      forall more: seq<Event> ensures req !in Run(a, more).run.requests {
        AfterStop(a, more);
      }
    } else {
      var c :| c in a.connections;
      var more := [Request(c, req, "")];
      assert more[..0] == [];
      assert req in Run(a, more).run.requests;
    }
  }

  /** Over such a connection a key that was approved before is still signed with, and nobody is asked. */
  lemma SignsAfterStop(a: Agent, c: nat, req: nat, fp: string) returns (more: seq<Event>)
    requires !a.accepting && c in a.connections && req !in a.run.requests
    requires a.run.policy.Never? || (a.run.policy.PerSession? && fp in a.run.approved)
    ensures Run(a, more).run.log == a.run.log + [S.Signature(req, fp)]
    ensures forall i :: 0 <= i < |more| ==> !more[i].Connect? && (more[i].Go? ==> !more[i].e.Respond?)
  {
    var arrive, check, sign := Request(c, req, fp), Go(S.Act(req, S.Check)), Go(S.Act(req, S.Sign));
    more := [arrive, check, sign];
    assert more[..2][..1] == [arrive] && [arrive][..0] == [] && more[..2] == [arrive, check];
    var a1 := Step(a, arrive);
    assert Run(a, [arrive]) == a1;
    assert Run(a, more[..2]) == Step(a1, check);
    assert Run(a, more) == Step(Step(a1, check), sign);
  }

  // ------------------------------------------- whether anything is signed any more

  /** The request can still end in a signature. */
  predicate OnItsWay(s: S.State, r: nat) {
    r in s.requests &&
    match s.requests[r]
    case Checking(fp) => fp in s.approved || s.wired
    case Asking(_) => s.wired
    case Numbered(_, _) => true
    case Waiting(_, id, answer) => answer == Some(true) || (answer.None? && id in s.confirms && s.confirms[id] == r)
    case Allowed(_) => true
    case Cleared(_) => true
    case _ => false
  }

  /** A connection is open over which some new request would be granted. */
  predicate Serves(a: Agent) {
    a.connections != {} && (a.run.policy.Never? || a.run.wired || (a.run.policy.PerSession? && a.run.approved != {}))
  }

  predicate EndsSigned(a: Agent, more: seq<Event>) {
    var log := Run(a, more).run.log;
    |log| > |a.run.log| && log[|log| - 1].Signature?
  }

  lemma {:induction false} RunCons(a: Agent, e: Event, more: seq<Event>)
    ensures Run(a, [e] + more) == Run(Step(a, e), more)
    decreases |more|
  {
    if more == [] {
      assert [e] + more == [e] && [e][..0] == [];
    } else {
      RunCons(a, e, more[..|more| - 1]);
      assert ([e] + more)[..|more|] == [e] + more[..|more| - 1];
    }
  }

  /** How many sections a request is away from its signature. */
  function Distance(p: S.Phase): nat {
    match p
    case Cleared(_) => 0
    case Allowed(_) => 1
    case Waiting(_, _, answer) => if answer.Some? then 2 else 3
    case Numbered(_, _) => 4
    case Asking(_) => 5
    case _ => 6
  }

  /** The next thing that brings a request on its way closer to it. */
  function Forward(r: nat, p: S.Phase): Event {
    match p
    case Checking(_) => Go(S.Act(r, S.Check))
    case Asking(_) => Go(S.Act(r, S.TakeId))
    case Numbered(_, _) => Go(S.Act(r, S.Park))
    case Waiting(_, id, answer) => if answer.Some? then Go(S.Act(r, S.Receive)) else Go(S.Respond(id, true))
    case Allowed(_) => Go(S.Act(r, S.Remember))
    case _ => Go(S.Act(r, S.Sign))
  }

  /** The event does it: the log keeps its entries, and the request signs or comes closer. */
  predicate Advances(a: Agent, r: nat, e: Event)
    requires r in a.run.requests
  {
    var p, b := a.run.requests[r], Step(a, e);
    && |b.run.log| >= |a.run.log|
    && (p.Cleared? ==> b.run.log == a.run.log + [S.Signature(r, p.fp)])
    && (!p.Cleared? ==> OnItsWay(b.run, r) && Distance(b.run.requests[r]) < Distance(p))
  }

  lemma SectionForward(a: Agent, r: nat)
    requires OnItsWay(a.run, r) && !a.run.requests[r].Waiting?
    ensures Advances(a, r, Forward(r, a.run.requests[r]))
  {
  }

  lemma AnswerForward(a: Agent, r: nat)
    requires OnItsWay(a.run, r) && a.run.requests[r].Waiting?
    ensures Advances(a, r, Forward(r, a.run.requests[r]))
  {
  }

  lemma OneForward(a: Agent, r: nat)
    requires OnItsWay(a.run, r)
    ensures Advances(a, r, Forward(r, a.run.requests[r]))
  {
    hide Advances, Forward;
    if a.run.requests[r].Waiting? {
      AnswerForward(a, r);
    } else {
      SectionForward(a, r);
    }
  }

  lemma {:induction false} OnItsWaySigns(a: Agent, r: nat) returns (more: seq<Event>)
    requires OnItsWay(a.run, r)
    ensures EndsSigned(a, more)
    decreases Distance(a.run.requests[r])
  {
    var p := a.run.requests[r];
    var e := Forward(r, p);
    OneForward(a, r);
    hide Step, OnItsWay, Distance, Forward;
    if p.Cleared? {
      more := [e];
      RunCons(a, e, []);
      assert [e] + [] == [e];
    } else {
      var rest := OnItsWaySigns(Step(a, e), r);
      more := [e] + rest;
      RunCons(a, e, rest);
    }
  }

  lemma {:induction false} Unused(requests: set<nat>) returns (r: nat)
    ensures r !in requests && forall q :: q in requests ==> q < r
    decreases |requests|
  {
    if requests == {} {
      r := 0;
    } else {
      var q :| q in requests;
      var s := Unused(requests - {q});
      r := if s <= q then q + 1 else s;
      forall x | x in requests ensures x < r {
        assert x == q || x in requests - {q};
      }
    }
  }

  lemma ServesSigns(a: Agent) returns (more: seq<Event>)
    requires Serves(a)
    ensures EndsSigned(a, more)
  {
    var r := Unused(a.run.requests.Keys);
    var c :| c in a.connections;
    var fp := "";
    if a.run.approved != {} {
      fp :| fp in a.run.approved;
    }
    var e := Request(c, r, fp);
    var b := Step(a, e);
    assert b.run.log == a.run.log;
    var rest := OnItsWaySigns(b, r);
    more := [e] + rest;
    RunCons(a, e, rest);
  }

  predicate Stuck(a: Agent) {
    !a.accepting && !Serves(a) && forall r :: r in a.run.requests ==> !OnItsWay(a.run, r)
  }

  lemma StuckRequest(a: Agent, c: nat, req: nat, fp: string)
    requires Stuck(a)
    ensures Stuck(Step(a, Request(c, req, fp))) && Step(a, Request(c, req, fp)).run.log == a.run.log
  {
    var b := Step(a, Request(c, req, fp));
    forall r | r in b.run.requests ensures !OnItsWay(b.run, r) {
      assert r in a.run.requests ==> !OnItsWay(a.run, r);
    }
  }

  lemma StuckAnswer(a: Agent, id: nat, approved: bool)
    requires Stuck(a)
    ensures Stuck(Step(a, Go(S.Respond(id, approved)))) && Step(a, Go(S.Respond(id, approved))).run.log == a.run.log
  {
    var b := Step(a, Go(S.Respond(id, approved)));
    if id in a.run.confirms {
      var r := a.run.confirms[id];
      assert r in a.run.requests ==> !OnItsWay(a.run, r);
    }
    forall r | r in b.run.requests ensures !OnItsWay(b.run, r) {
      assert r in a.run.requests ==> !OnItsWay(a.run, r);
    }
  }

  lemma StuckSection(a: Agent, req: nat, action: S.Action)
    requires Stuck(a)
    ensures Stuck(Step(a, Go(S.Act(req, action)))) && Step(a, Go(S.Act(req, action))).run.log == a.run.log
  {
    var b := Step(a, Go(S.Act(req, action)));
    if req in a.run.requests {
      assert !OnItsWay(a.run, req);
    }
    forall r | r in b.run.requests ensures !OnItsWay(b.run, r) {
      assert r in a.run.requests ==> !OnItsWay(a.run, r);
    }
  }

  lemma StuckStep(a: Agent, e: Event)
    requires Stuck(a)
    ensures Stuck(Step(a, e)) && Step(a, e).run.log == a.run.log
  {
    match e
    case Request(c, req, fp) => StuckRequest(a, c, req, fp);
    case Go(g) =>
      match g {
        case Respond(id, approved) => StuckAnswer(a, id, approved);
        case Act(req, action) => StuckSection(a, req, action);
        case Arrive(_, _) =>
      }
    case _ =>
      hide OnItsWay;
      StepAfterStop(a, e);
  }

  lemma {:induction false} StuckStays(a: Agent, more: seq<Event>)
    requires Stuck(a)
    ensures Stuck(Run(a, more)) && Run(a, more).run.log == a.run.log
    decreases |more|
  {
    if more != [] {
      hide Step, Stuck;
      StuckStays(a, more[..|more| - 1]);
      StuckStep(Run(a, more[..|more| - 1]), more[|more| - 1]);
    }
  }

  ghost predicate CanSign(a: Agent) {
    exists more: seq<Event> :: EndsSigned(a, more)
  }

  /**
   * A stopped agent still signs in some continuation exactly when a connection is open over which a request would be
   * granted, or a request that had arrived can still be.
   */
  lemma SignsExactly(a: Agent)
    requires !a.accepting
    ensures CanSign(a) <==> Serves(a) || exists r :: r in a.run.requests && OnItsWay(a.run, r)
  {
    if Serves(a) {
      var more := ServesSigns(a);
    } else if r :| r in a.run.requests && OnItsWay(a.run, r) {
      var more := OnItsWaySigns(a, r);
    } else {
      forall more: seq<Event> ensures !EndsSigned(a, more) {
        StuckStays(a, more);
      }
    }
  }
}
