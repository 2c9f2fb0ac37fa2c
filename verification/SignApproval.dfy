/**
 * Approval of SSH signatures: SignGuard in src-tauri/src/ssh_agent.rs and the confirmation desk in
 * src-tauri/src/commands/ssh.rs. Every section that holds a lock is one step; steps of all requests interleave freely.
 */
module SignApproval {
  import opened Optional

  datatype Policy = Never | PerSession | Always

  /** Where one sign request stands. `id` is the number its prompt carries. */
  datatype Phase =
    | Checking(fp: string)                                // about to read the approved set
    | Asking(fp: string)                                  // about to take a prompt number
    | Numbered(fp: string, id: nat)                       // about to park the answer channel
    | Waiting(fp: string, id: nat, answer: Option<bool>)  // prompt shown, answer channel open
    | TimedOut(fp: string, id: nat)                       // gave up; about to remove its channel
    | Allowed(fp: string)                                 // answered yes; about to remember the key
    | Cleared(fp: string)                                 // authorized; about to sign
    | Denied
    | Signed

  datatype Entry =
    | Answered(req: nat, id: nat, fp: string, approved: bool)
    | Signature(req: nat, fp: string)

  /**
   * `confirms` maps a prompt number to the request whose channel is parked under it. `log` is history, oldest
   * first.
   */
  datatype State = State(
    policy: Policy, wired: bool, approved: set<string>, seqNo: nat,
    confirms: map<nat, nat>, requests: map<nat, Phase>, log: seq<Entry>)

  datatype Action =
    | Check | TakeId | Park
    | EmitFails                          // the prompt could not be shown
    | Receive | Timeout | Cleanup | Remember | Sign
    | LoseKey                            // the key is gone when it is looked up again

  datatype Event =
    | Arrive(req: nat, fp: string)       // a sign request for a known key
    | Respond(id: nat, approved: bool)   // the dialog's answer; any number may arrive
    | Act(req: nat, action: Action)

  const U64: nat := 0x1_0000_0000_0000_0000

  function Start(policy: Policy, wired: bool): State {
    State(policy, wired, {}, 0, map[], map[], [])
  }

  function At(s: State, req: nat, p: Phase): State {
    s.(requests := s.requests[req := p])
  }

  /** What an authorization that says yes leads to. */
  function Granted(s: State, fp: string): Phase {
    if s.policy.PerSession? then Allowed(fp) else Cleared(fp)
  }

  /** One lock-held section of request `r`, which stands at `p`; an action that does not apply changes nothing. */
  function Section(s: State, r: nat, p: Phase, action: Action): State {
    match action
    case Check => if p.Checking? then At(s, r, if p.fp in s.approved then Cleared(p.fp) else Asking(p.fp)) else s
    case TakeId =>
      if !p.Asking? then s
      else if !s.wired then At(s, r, Denied)
      else At(s, r, Numbered(p.fp, (s.seqNo + 1) % U64)).(seqNo := (s.seqNo + 1) % U64)
    case Park => if p.Numbered? then At(s, r, Waiting(p.fp, p.id, None)).(confirms := s.confirms[p.id := r]) else s
    case EmitFails => if p.Waiting? then At(s, r, Denied).(confirms := s.confirms - {p.id}) else s
    case Receive =>
      if p.Waiting? && p.answer.Some? then At(s, r, if p.answer.value then Granted(s, p.fp) else Denied) else s
    case Timeout => if p.Waiting? && p.answer.None? then At(s, r, TimedOut(p.fp, p.id)) else s
    case Cleanup => if p.TimedOut? then At(s, r, Denied).(confirms := s.confirms - {p.id}) else s
    case Remember => if p.Allowed? then At(s, r, Cleared(p.fp)).(approved := s.approved + {p.fp}) else s
    case Sign => if p.Cleared? then At(s, r, Signed).(log := s.log + [Signature(r, p.fp)]) else s
    case LoseKey => if p.Cleared? then At(s, r, Denied) else s
  }

  function FirstPhase(policy: Policy, fp: string): Phase {
    match policy case Never => Cleared(fp) case PerSession => Checking(fp) case Always => Asking(fp)
  }

  /** The answer goes to the request parked under that number, if it still listens; the entry goes either way. */
  function Answer(s: State, id: nat, approved: bool): State {
    if id !in s.confirms then s
    else
      var r, s' := s.confirms[id], s.(confirms := s.confirms - {id});
      if r in s.requests && s.requests[r].Waiting? && s.requests[r].id == id && s.requests[r].answer.None? then
        At(s', r, s.requests[r].(answer := Some(approved))).(
          log := s.log + [Answered(r, id, s.requests[r].fp, approved)])
      else s'
  }

  function Step(s: State, e: Event): State {
    match e
    case Arrive(req, fp) => if req in s.requests then s else At(s, req, FirstPhase(s.policy, fp))
    case Respond(id, approved) => Answer(s, id, approved)
    case Act(req, action) => if req in s.requests then Section(s, req, s.requests[req], action) else s
  }

  /** The state after a run, the last event last. */
  function Run(start: State, events: seq<Event>): State {
    if events == [] then start else Step(Run(start, events[..|events| - 1]), events[|events| - 1])
  }

  // ---------------------------------------------------------------- invariant

  ghost predicate SaidYes(log: seq<Entry>, fp: string) {
    exists j :: 0 <= j < |log| && log[j].Answered? && log[j].fp == fp && log[j].approved
  }

  ghost predicate OwnYes(log: seq<Entry>, req: nat, fp: string) {
    exists j :: 0 <= j < |log| && log[j].Answered? && log[j].req == req && log[j].fp == fp && log[j].approved
  }

  ghost predicate Mentions(log: seq<Entry>, req: nat, answered: bool) {
    exists j :: 0 <= j < |log| && log[j].req == req && log[j].Answered? == answered
  }

  /** What each phase rests on. */
  ghost predicate PhaseOk(s: State, req: nat) {
    req in s.requests ==>
      match s.requests[req]
      case Checking(_) => s.policy.PerSession? && !Mentions(s.log, req, true)
      case Asking(_) => !s.policy.Never? && !Mentions(s.log, req, true)
      case Numbered(_, _) => !s.policy.Never? && !Mentions(s.log, req, true)
      case Waiting(fp, _, answer) =>
        && !s.policy.Never?
        && (answer.None? ==> !Mentions(s.log, req, true))
        && (answer == Some(true) ==> OwnYes(s.log, req, fp))
      case TimedOut(_, _) => !Mentions(s.log, req, true)
      case Allowed(fp) => s.policy.PerSession? && OwnYes(s.log, req, fp)
      case Cleared(fp) =>
        && (s.policy.PerSession? ==> SaidYes(s.log, fp))
        && (s.policy.Always? ==> OwnYes(s.log, req, fp))
      case _ => true
  }

  /** A parked channel belongs to a request that is still waiting under that number, unanswered. */
  ghost predicate ConfirmsOk(s: State) {
    forall id :: id in s.confirms ==>
      && s.confirms[id] in s.requests
      && var p := s.requests[s.confirms[id]];
         (p.Waiting? && p.id == id && p.answer.None?) || (p.TimedOut? && p.id == id)
  }

  ghost predicate SignatureOk(policy: Policy, log: seq<Entry>, k: nat)
    requires k < |log| && log[k].Signature?
  {
    && (policy.PerSession? ==> SaidYes(log[..k], log[k].fp))
    && (policy.Always? ==> OwnYes(log[..k], log[k].req, log[k].fp))
  }

  /** No request is answered twice, and none signs twice. */
  ghost predicate LogOk(s: State) {
    && (forall k :: 0 <= k < |s.log| && s.log[k].Signature? ==> SignatureOk(s.policy, s.log, k))
    && (forall j, k :: 0 <= j < k < |s.log| && s.log[j].req == s.log[k].req ==>
      s.log[j].Answered? && s.log[k].Signature?)
    && (forall k :: 0 <= k < |s.log| ==> s.log[k].req in s.requests)
    && (forall k :: 0 <= k < |s.log| && s.log[k].Signature? ==> s.requests[s.log[k].req].Signed?)
  }

  ghost predicate Inv(s: State) {
    && (forall req :: PhaseOk(s, req))
    && (forall fp :: fp in s.approved ==> SaidYes(s.log, fp))
    && ConfirmsOk(s) && LogOk(s)
  }

  lemma {:induction false} PrefixKeeps(log: seq<Entry>, e: Entry)
    ensures forall fp :: SaidYes(log, fp) ==> SaidYes(log + [e], fp)
    ensures forall req, fp :: OwnYes(log, req, fp) ==> OwnYes(log + [e], req, fp)
    ensures forall req, a :: Mentions(log + [e], req, a) ==> Mentions(log, req, a) || (e.req == req && e.Answered? == a)
  {
    var log' := log + [e];
    forall fp | SaidYes(log, fp) ensures SaidYes(log', fp) {
      var j :| 0 <= j < |log| && log[j].Answered? && log[j].fp == fp && log[j].approved;
      assert log'[j] == log[j];
    }
    forall req, fp | OwnYes(log, req, fp) ensures OwnYes(log', req, fp) {
      var j :| 0 <= j < |log| && log[j].Answered? && log[j].req == req && log[j].fp == fp && log[j].approved;
      assert log'[j] == log[j];
    }
    forall req, a | Mentions(log', req, a) ensures Mentions(log, req, a) || (e.req == req && e.Answered? == a) {
      var j :| 0 <= j < |log'| && log'[j].req == req && log'[j].Answered? == a;
      if j < |log| { assert log[j] == log'[j]; }
    }
  }

  /** A step of one request that appends nothing to the log keeps the invariant if that request's own phase is right. */
  lemma MoveKeeps(s: State, s': State, r: nat)
    requires Inv(s) && s'.policy == s.policy && s'.log == s.log
    requires r in s'.requests && s'.requests == s.requests[r := s'.requests[r]]
    requires r in s.requests ==> !s.requests[r].Signed?
    requires PhaseOk(s', r) && ConfirmsOk(s')
    requires forall fp :: fp in s'.approved ==> fp in s.approved || SaidYes(s.log, fp)
    ensures Inv(s')
  {
    forall req ensures PhaseOk(s', req) {
      assert PhaseOk(s, req);
    }
  }

  lemma OwnYesIsYes(log: seq<Entry>, req: nat, fp: string)
    ensures OwnYes(log, req, fp) ==> SaidYes(log, fp)
  {
  }

  lemma SectionKeeps(s: State, r: nat, action: Action)
    requires Inv(s) && r in s.requests && !action.Sign?
    ensures Inv(Section(s, r, s.requests[r], action))
  {
    var p, s' := s.requests[r], Section(s, r, s.requests[r], action);
    assert PhaseOk(s, r);
    if s' != s {
      if p.Waiting? || p.Allowed? {
        OwnYesIsYes(s.log, r, p.fp);
      }
      MoveKeeps(s, s', r);
    }
  }

  lemma AppendKeepsSignatures(s: State, e: Entry)
    requires LogOk(s)
    requires e.Signature? ==>
      && (s.policy.PerSession? ==> SaidYes(s.log, e.fp))
      && (s.policy.Always? ==> OwnYes(s.log, e.req, e.fp))
    ensures var log' := s.log + [e];
            forall k :: 0 <= k < |log'| && log'[k].Signature? ==> SignatureOk(s.policy, log', k)
  {
    var log' := s.log + [e];
    forall k | 0 <= k < |log'| && log'[k].Signature? ensures SignatureOk(s.policy, log', k) {
      if k < |s.log| {
        assert log'[..k] == s.log[..k] && SignatureOk(s.policy, s.log, k);
      } else {
        assert log'[..k] == s.log;
      }
    }
  }

  lemma SignKeeps(s: State, r: nat)
    requires Inv(s) && r in s.requests && s.requests[r].Cleared?
    ensures Inv(Section(s, r, s.requests[r], Sign))
  {
    var p, s' := s.requests[r], Section(s, r, s.requests[r], Sign);
    var e := Signature(r, p.fp);
    assert PhaseOk(s, r);
    PrefixKeeps(s.log, e);
    AppendKeepsSignatures(s, e);
    forall req ensures PhaseOk(s', req) {
      assert PhaseOk(s, req);
    }
  }

  lemma AnswerKeeps(s: State, id: nat, approved: bool)
    requires Inv(s)
    ensures Inv(Answer(s, id, approved))
  {
    var s' := Answer(s, id, approved);
    if id in s.confirms {
      var r := s.confirms[id];
      assert PhaseOk(s, r);
      if s.requests[r].Waiting? {
        var e := Answered(r, id, s.requests[r].fp, approved);
        PrefixKeeps(s.log, e);
        AppendKeepsSignatures(s, e);
        assert s'.log[|s.log|] == e;
        forall req ensures PhaseOk(s', req) {
          assert PhaseOk(s, req);
        }
        forall j | 0 <= j < |s.log| && s.log[j].req == r ensures s.log[j].Signature? {
          if s.log[j].Answered? { assert Mentions(s.log, r, true); }
        }
      } else {
        forall req ensures PhaseOk(s', req) {
          assert PhaseOk(s, req);
        }
      }
    }
  }

  lemma StepKeeps(s: State, e: Event)
    requires Inv(s)
    ensures Inv(Step(s, e)) && Step(s, e).policy == s.policy
  {
    match e
    case Arrive(req, fp) =>
      if req !in s.requests {
        forall a ensures !Mentions(s.log, req, a) {
        }
        MoveKeeps(s, Step(s, e), req);
      }
    case Respond(id, approved) => AnswerKeeps(s, id, approved);
    case Act(req, action) =>
      if req in s.requests {
        if !action.Sign? {
          SectionKeeps(s, req, action);
        } else if s.requests[req].Cleared? {
          SignKeeps(s, req);
        }
      }
  }

  lemma {:induction false} RunKeeps(policy: Policy, wired: bool, events: seq<Event>)
    ensures Inv(Run(Start(policy, wired), events)) && Run(Start(policy, wired), events).policy == policy
    decreases |events|
  {
    if events != [] {
      RunKeeps(policy, wired, events[..|events| - 1]);
      StepKeeps(Run(Start(policy, wired), events[..|events| - 1]), events[|events| - 1]);
    }
  }

  // ------------------------------------------------------------- main results

  /**
   * Asking once per key: a signature is only made after a yes for that very fingerprint, however requests
   * interleave.
   */
  lemma PerSessionSignsApprovedKeys(wired: bool, events: seq<Event>, k: nat)
    requires var s := Run(Start(PerSession, wired), events); k < |s.log| && s.log[k].Signature?
    ensures var s := Run(Start(PerSession, wired), events); SaidYes(s.log[..k], s.log[k].fp)
  {
    RunKeeps(PerSession, wired, events);
  }

  /** The approved set never holds a fingerprint nobody said yes to. */
  lemma ApprovedMeansYes(policy: Policy, wired: bool, events: seq<Event>, fp: string)
    requires fp in Run(Start(policy, wired), events).approved
    ensures SaidYes(Run(Start(policy, wired), events).log, fp)
  {
    RunKeeps(policy, wired, events);
  }

  /** Asking every time: each signature has its own earlier yes, and no two signatures share one. */
  lemma AlwaysSignsOnItsOwnYes(wired: bool, events: seq<Event>, k: nat, k': nat)
    requires var s := Run(Start(Always, wired), events);
      k < |s.log| && k' < |s.log| && k != k' && s.log[k].Signature? && s.log[k'].Signature?
    ensures var s := Run(Start(Always, wired), events);
      OwnYes(s.log[..k], s.log[k].req, s.log[k].fp) && s.log[k].req != s.log[k'].req
  {
    RunKeeps(Always, wired, events);
  }

  /** A request is answered at most once, and a finished one leaves no channel parked. */
  lemma AnsweredOnceAndCleanedUp(policy: Policy, wired: bool, events: seq<Event>, j: nat, k: nat, id: nat)
    requires var s := Run(Start(policy, wired), events); j < k < |s.log| && s.log[j].Answered? && s.log[k].Answered?
    ensures var s := Run(Start(policy, wired), events);
      && s.log[j].req != s.log[k].req
      && (id in s.confirms ==>
            && s.confirms[id] in s.requests
            && var p := s.requests[s.confirms[id]]; !p.Denied? && !p.Signed?)
  {
    RunKeeps(policy, wired, events);
  }

  // ------------------------------------------------- prompt numbers, before they wrap

  predicate Holds(s: State, r: nat, id: nat) {
    r in s.requests && var p := s.requests[r]; (p.Numbered? || p.Waiting? || p.TimedOut?) && p.id == id
  }

  /** A number names one request: no other request holds it now, none ever answered under it. */
  ghost predicate NumbersOk(s: State) {
    && (forall r: nat, id: nat :: Holds(s, r, id) ==> 1 <= id <= s.seqNo)
    && (forall r: nat, r': nat, id: nat :: Holds(s, r, id) && Holds(s, r', id) ==> r == r')
    && (forall k :: 0 <= k < |s.log| && s.log[k].Answered? ==> s.log[k].id <= s.seqNo)
    && (forall k: nat, r: nat :: 0 <= k < |s.log| && s.log[k].Answered? && Holds(s, r, s.log[k].id) ==>
      r == s.log[k].req)
    && (forall j, k :: 0 <= j < k < |s.log| && s.log[j].Answered? && s.log[k].Answered? ==> s.log[j].id != s.log[k].id)
  }

  lemma NumbersMove(s: State, s': State)
    requires NumbersOk(s) && s'.log == s.log && s'.seqNo == s.seqNo
    requires forall r: nat, id: nat :: Holds(s', r, id) ==> Holds(s, r, id)
    ensures NumbersOk(s')
  {
  }

  lemma NumbersTake(s: State, q: nat)
    requires NumbersOk(s) && s.seqNo + 1 < U64 && q in s.requests && s.requests[q].Asking? && s.wired
    ensures NumbersOk(Step(s, Act(q, TakeId)))
  {
    var s' := Step(s, Act(q, TakeId));
    forall r: nat, id: nat | Holds(s', r, id) ensures (r == q && id == s.seqNo + 1) || (r != q && Holds(s, r, id)) {
    }
  }

  lemma NumbersAnswer(s: State, id: nat, approved: bool)
    requires Inv(s) && NumbersOk(s)
    ensures NumbersOk(Answer(s, id, approved))
  {
    var s' := Answer(s, id, approved);
    forall r: nat, id': nat ensures Holds(s', r, id') <==> Holds(s, r, id') {
    }
    if |s'.log| > |s.log| {
      var r := s.confirms[id];
      assert Holds(s, r, id) && PhaseOk(s, r);
      assert s'.log[..|s.log|] == s.log && s'.log[|s.log|].req == r && s'.log[|s.log|].id == id;
      forall j | 0 <= j < |s.log| && s.log[j].Answered? ensures s.log[j].id != id {
        if s.log[j].req == r { assert Mentions(s.log, r, true); }
      }
    } else {
      NumbersMove(s, s');
    }
  }

  lemma NumbersStep(s: State, e: Event)
    requires Inv(s) && NumbersOk(s) && s.seqNo + 1 < U64
    ensures NumbersOk(Step(s, e)) && Step(s, e).seqNo <= s.seqNo + 1
  {
    match e
    case Arrive(_, _) => NumbersMove(s, Step(s, e));
    case Respond(id, approved) => NumbersAnswer(s, id, approved);
    case Act(q, action) =>
      if q in s.requests {
        if action.TakeId? && s.requests[q].Asking? && s.wired {
          NumbersTake(s, q);
        } else if !action.Sign? {
          NumbersMove(s, Step(s, e));
        } else {
          NumbersSign(s, q);
        }
      }
  }

  lemma NumbersSign(s: State, q: nat)
    requires NumbersOk(s) && q in s.requests
    ensures NumbersOk(Step(s, Act(q, Sign)))
  {
    var s' := Step(s, Act(q, Sign));
    if s' != s {
      assert s'.log[..|s.log|] == s.log;
      forall r: nat, id: nat | Holds(s', r, id) ensures Holds(s, r, id) {
      }
    }
  }

  lemma {:induction false} NumbersRun(policy: Policy, wired: bool, events: seq<Event>)
    requires |events| < U64
    ensures var s := Run(Start(policy, wired), events); NumbersOk(s) && s.seqNo <= |events|
    decreases |events|
  {
    if events != [] {
      var before := events[..|events| - 1];
      NumbersRun(policy, wired, before);
      RunKeeps(policy, wired, before);
      NumbersStep(Run(Start(policy, wired), before), events[|events| - 1]);
    }
  }

  /** Until the counter wraps, no two answers ever carry the same number: each reaches only the request it names. */
  lemma AnswersNameOneRequest(policy: Policy, wired: bool, events: seq<Event>, j: nat, k: nat)
    requires |events| < U64
    requires var s := Run(Start(policy, wired), events); j < k < |s.log| && s.log[j].Answered? && s.log[k].Answered?
    ensures var s := Run(Start(policy, wired), events); s.log[j].id != s.log[k].id
  {
    NumbersRun(policy, wired, events);
  }

  // -------------------------------------------------------------- giving up

  predicate GaveUp(s: State, r: nat) {
    r in s.requests && (s.requests[r].TimedOut? || s.requests[r].Denied?)
  }

  lemma GaveUpStep(s: State, e: Event, r: nat)
    requires GaveUp(s, r)
    ensures GaveUp(Step(s, e), r)
  {
  }

  lemma {:induction false} GaveUpStays(s: State, events: seq<Event>, r: nat)
    requires GaveUp(s, r)
    ensures GaveUp(Run(s, events), r)
    decreases |events|
  {
    if events != [] {
      hide Step, GaveUp;
      GaveUpStays(s, events[..|events| - 1], r);
      GaveUpStep(Run(s, events[..|events| - 1]), events[|events| - 1], r);
    }
  }

  lemma {:induction false} RunConcat(s: State, a: seq<Event>, b: seq<Event>)
    ensures Run(s, a + b) == Run(Run(s, a), b)
    decreases |b|
  {
    if b == [] {
      assert a + b == a;
    } else {
      RunConcat(s, a, b[..|b| - 1]);
      assert (a + b)[..|a + b| - 1] == a + b[..|b| - 1];
    }
  }

  /**
   * What makes a request give up: a no, no answer in time, a prompt that cannot be shown, no one to show it to, or a
   * key that is gone when it comes to signing.
   */
  lemma GivesUp(s: State, r: nat, action: Action)
    requires r in s.requests
    requires match s.requests[r]
      case Asking(_) => !s.wired && action == TakeId
      case Waiting(_, _, answer) =>
        || action == EmitFails || (answer.None? && action == Timeout) || (answer == Some(false) && action == Receive)
      case Cleared(_) => action == LoseKey
      case _ => false
    ensures GaveUp(Step(s, Act(r, action)), r)
  {
  }

  /** A request that timed out or was refused never signs, whatever answers still come for it. */
  lemma GaveUpNeverSigns(policy: Policy, wired: bool, before: seq<Event>, after: seq<Event>, r: nat, k: nat)
    requires GaveUp(Run(Start(policy, wired), before), r)
    requires k < |Run(Start(policy, wired), before + after).log|
    ensures var log := Run(Start(policy, wired), before + after).log; log[k] != Signature(r, log[k].fp)
  {
    RunConcat(Start(policy, wired), before, after);
    GaveUpStays(Run(Start(policy, wired), before), after, r);
    RunKeeps(policy, wired, before + after);
  }

  // ------------------------------------------------------------ where it comes from

  predicate Bears(p: Phase, fp: string) {
    p.Denied? || p.Signed? || p.fp == fp
  }

  /** The request stands for that fingerprint, and so does everything logged of it. */
  ghost predicate About(s: State, req: nat, fp: string) {
    && req in s.requests && Bears(s.requests[req], fp)
    && forall k :: 0 <= k < |s.log| && s.log[k].req == req ==> s.log[k].fp == fp
  }

  lemma AboutSection(s: State, r: nat, action: Action, req: nat, fp: string)
    requires About(s, req, fp) && r in s.requests
    ensures About(Section(s, r, s.requests[r], action), req, fp)
  {
  }

  lemma AboutAnswer(s: State, id: nat, approved: bool, req: nat, fp: string)
    requires About(s, req, fp)
    ensures About(Answer(s, id, approved), req, fp)
  {
  }

  lemma AboutStep(s: State, e: Event, req: nat, fp: string)
    requires About(s, req, fp)
    ensures About(Step(s, e), req, fp)
  {
    match e
    case Arrive(_, _) =>
    case Respond(id, approved) =>
      AboutAnswer(s, id, approved, req, fp);
      hide Answer, About;
    case Act(r, action) =>
      if r in s.requests {
        AboutSection(s, r, action, req, fp);
        hide Section, About;
      }
  }

  predicate Arrives(e: Event, req: nat) {
    e.Arrive? && e.req == req
  }

  lemma ComesBy(s: State, e: Event, req: nat)
    requires req !in s.requests
    ensures req in Step(s, e).requests <==> Arrives(e, req)
  {
  }

  lemma {:induction false} NotYetThere(policy: Policy, wired: bool, events: seq<Event>, req: nat)
    requires forall i :: 0 <= i < |events| ==> !Arrives(events[i], req)
    ensures req !in Run(Start(policy, wired), events).requests
    decreases |events|
  {
    if events != [] {
      var before := events[..|events| - 1];
      NotYetThere(policy, wired, before, req);
      ComesBy(Run(Start(policy, wired), before), events[|events| - 1], req);
      hide Step, Arrives;
    }
  }

  /** Whatever is asked, answered or signed for a request is about the fingerprint it arrived with. */
  lemma {:induction false} AboutItsArrival(
    policy: Policy, wired: bool, events: seq<Event>, i: nat, req: nat, fp: string)
    requires i < |events| && events[i] == Arrive(req, fp) && forall j :: 0 <= j < i ==> !Arrives(events[j], req)
    ensures About(Run(Start(policy, wired), events), req, fp)
    decreases |events|
  {
    var before := events[..|events| - 1];
    if i < |before| {
      AboutItsArrival(policy, wired, before, i, req, fp);
      AboutStep(Run(Start(policy, wired), before), events[|events| - 1], req, fp);
    } else {
      NotYetThere(policy, wired, before, req);
      RunKeeps(policy, wired, before);
    }
  }

  /** Every answer on record was given: by an event with that number and that verdict. */
  lemma {:induction false} AnswersWereGiven(policy: Policy, wired: bool, events: seq<Event>, k: nat) returns (i: nat)
    requires var log := Run(Start(policy, wired), events).log; k < |log| && log[k].Answered?
    ensures i < |events|
    ensures var e := Run(Start(policy, wired), events).log[k]; events[i] == Respond(e.id, e.approved)
    decreases |events|
  {
    var before, last := events[..|events| - 1], events[|events| - 1];
    var s := Run(Start(policy, wired), before);
    LogGrows(s, last);
    hide Step;
    if k < |s.log| {
      i := AnswersWereGiven(policy, wired, before, k);
    } else {
      i := |before|;
    }
  }

  lemma LogGrows(s: State, e: Event)
    ensures var log := Step(s, e).log;
      && |s.log| <= |log| <= |s.log| + 1 && log[..|s.log|] == s.log
      && (|log| > |s.log| && log[|s.log|].Answered? ==> e == Respond(log[|s.log|].id, log[|s.log|].approved))
      && (|log| > |s.log| && log[|s.log|].Signature? ==> e == Act(log[|s.log|].req, Sign))
  {
  }

  // ---------------------------------------------- the shared state, in place

  /** The state behind the locks: `SignGuard.approved`, `AppState.ssh_confirm_seq` and `AppState.ssh_confirms`. */
  class Desk {
    const policy: Policy
    const wired: bool
    var approved: set<string>
    var seqNo: nat
    var confirms: map<nat, nat>

    constructor (policy: Policy, wired: bool)
      ensures this.policy == policy && this.wired == wired && approved == {} && seqNo == 0 && confirms == map[]
    {
      this.policy, this.wired := policy, wired;
      approved, seqNo, confirms := {}, 0, map[];
    }

    /** The shared part of the protocol state is this object's. */
    ghost predicate Shares(s: State)
      reads this
    {
      s.policy == policy && s.wired == wired && s.approved == approved && s.seqNo == seqNo && s.confirms == confirms
    }

    /** First section of `authorize` under PerSession. */
    method IsApproved(fp: string, r: nat, ghost s: State) returns (hit: bool)
      requires Shares(s) && r in s.requests && s.requests[r] == Checking(fp)
      ensures Step(s, Act(r, Check)) == At(s, r, if hit then Cleared(fp) else Asking(fp))
      ensures hit <==> fp in approved
    {
      hit := fp in approved;
    }

    /** Last section of `authorize` under PerSession. */
    method Approve(fp: string, r: nat, ghost s: State)
      requires Shares(s) && r in s.requests && s.requests[r] == Allowed(fp)
      modifies this`approved
      ensures Shares(Step(s, Act(r, Remember))) && Step(s, Act(r, Remember)).requests[r] == Cleared(fp)
      ensures fp in approved
    {
      approved := approved + {fp};
    }

    method NextId(fp: string, r: nat, ghost s: State) returns (id: nat)
      requires Shares(s) && wired && r in s.requests && s.requests[r] == Asking(fp)
      modifies this`seqNo
      ensures Shares(Step(s, Act(r, TakeId))) && Step(s, Act(r, TakeId)).requests[r] == Numbered(fp, id)
    {
      seqNo := (seqNo + 1) % U64;
      id := seqNo;
    }

    method ParkChannel(fp: string, id: nat, r: nat, ghost s: State)
      requires Shares(s) && r in s.requests && s.requests[r] == Numbered(fp, id)
      modifies this`confirms
      ensures Shares(Step(s, Act(r, Park)))
    {
      confirms := confirms[id := r];
    }

    /** `respond_ssh_agent_confirm`: returns whose channel the answer goes to. */
    method RespondTo(id: nat, answer: bool, ghost s: State) returns (r: Option<nat>)
      requires Shares(s)
      modifies this`confirms
      ensures Shares(Step(s, Respond(id, answer)))
      ensures r.Some? <==> id in old(confirms)
      ensures r.Some? ==> r.value == old(confirms)[id]
    {
      r := None;
      if id in confirms {
        r := Some(confirms[id]);
        confirms := confirms - {id};
      }
    }

    /** The cleanup after a timeout, or after a prompt that could not be shown. */
    method Drop(fp: string, id: nat, r: nat, timedOut: bool, ghost s: State)
      requires Shares(s) && r in s.requests
      requires if timedOut then s.requests[r] == TimedOut(fp, id) else s.requests[r] == Waiting(fp, id, None)
      modifies this`confirms
      ensures var s' := Step(s, Act(r, if timedOut then Cleanup else EmitFails));
        Shares(s') && id !in confirms && s'.requests[r] == Denied
    {
      confirms := confirms - {id};
    }

    /** `SignGuard.ask` with `request_confirmation`, from end to end, when no other request comes in between. */
    method Ask(fp: string, r: nat, shown: bool, reply: Option<bool>, ghost s: State) returns (ok: bool)
      requires Shares(s) && r in s.requests && s.requests[r] == Asking(fp)
      modifies this`seqNo, this`confirms
      ensures Shares(Asked(s, r, shown, reply))
      ensures Asked(s, r, shown, reply).requests[r] == if ok then Granted(s, fp) else Denied
    {
      if !wired {
        return false;
      }
      var id := NextId(fp, r, s);
      ghost var numbered := Step(s, Act(r, TakeId));
      ParkChannel(fp, id, r, numbered);
      ghost var parked := Step(numbered, Act(r, Park));
      if !shown {
        Drop(fp, id, r, false, parked);
        ok := false;
      } else if reply.Some? {
        var who := RespondTo(id, reply.value, parked);
        ok := reply.value;
      } else {
        Drop(fp, id, r, true, Step(parked, Act(r, Timeout)));
        ok := false;
      }
    }

    /** `authorize` under any policy, likewise. */
    method Authorize(fp: string, r: nat, shown: bool, reply: Option<bool>, ghost s: State) returns (ok: bool)
      requires Shares(s) && r in s.requests && s.requests[r] == FirstPhase(policy, fp)
      modifies this
      ensures var end := Authorized(s, r, fp, shown, reply);
        Shares(end) && end.requests[r] == if ok then Cleared(fp) else Denied
      ensures ok && policy.PerSession? ==> fp in approved
    {
      hide Asked;
      ghost var asking := s;
      if policy.Never? {
        return true;
      }
      if policy.PerSession? {
        var hit := IsApproved(fp, r, s);
        if hit {
          return true;
        }
        asking := Step(s, Act(r, Check));
      }
      ok := Ask(fp, r, shown, reply, asking);
      if ok && policy.PerSession? {
        Approve(fp, r, Asked(asking, r, shown, reply));
      }
    }
  }

  /** The sections of one prompt: shown or not, answered or timed out. */
  function Asked(s: State, r: nat, shown: bool, reply: Option<bool>): (end: State)
    ensures r in s.requests ==> r in end.requests
  {
    var parked := Step(Step(s, Act(r, TakeId)), Act(r, Park));
    if !s.wired then Step(s, Act(r, TakeId))
    else if !shown then Step(parked, Act(r, EmitFails))
    else if reply.Some? then Step(Step(parked, Respond((s.seqNo + 1) % U64, reply.value)), Act(r, Receive))
    else Step(Step(parked, Act(r, Timeout)), Act(r, Cleanup))
  }

  /** The sections of one authorization. */
  function Authorized(s: State, r: nat, fp: string, shown: bool, reply: Option<bool>): (end: State)
    ensures r in s.requests ==> r in end.requests
  {
    match s.policy
    case Never => s
    case Always => Asked(s, r, shown, reply)
    case PerSession =>
      var checked := Step(s, Act(r, Check));
      if fp in s.approved then checked else Step(Asked(checked, r, shown, reply), Act(r, Remember))
  }
}
