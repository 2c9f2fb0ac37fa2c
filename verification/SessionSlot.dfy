/**
 * The session slot: src-tauri/core/src/services/auth.rs and session.rs. A refresh lets go of the lock while it waits
 * for the server, so logins, locks and standalone vaults interleave with its sections. The file on disk that the next
 * unlock reads is written by logins and, at its very end, by the refresh.
 */
module SessionSlot {
  import opened Optional

  datatype Origin = Server | OfflineCache | ExportFile

  /** Whom the tokens are for, from which login they stem, and when they came into the slot. */
  datatype Tokens = Tokens(account: nat, login: nat, access: nat, refresh: nat, expiresIn: nat, storedAt: real)

  /**
   * `client` stands for the account it was built for, `key` for whose user key the session holds, `login` for the login
   * that opened the session (0 for a standalone one).
   */
  datatype Session = Session(
    client: Option<nat>, tokens: Option<Tokens>, expiresAt: Option<real>, origin: Origin, key: nat, login: nat)

  /** The stored session: the account it is for, whose refresh token it holds, and whose key that token is under. */
  datatype File = File(account: nat, tokenOf: nat, sealedUnder: nat)

  /** What a token request brings back; no refresh token means the one sent stays valid. */
  datatype Grant = Grant(access: nat, refresh: Option<nat>, expiresIn: nat)

  /** Where one command stands between `ensure_fresh_tokens` and its own request. */
  datatype Phase =
    | Starting
    | Refreshing(account: nat, login: nat, refresh: nat)      // waiting for the server
    | Granted(account: nat, login: nat, refresh: nat, grant: Grant)
    | Writing(account: nat, login: nat, refresh: nat, grant: Grant, key: nat)
    | Saving(account: nat, key: nat)
    | Fresh                                           // may take client and token from the slot
    | NotAuthenticated | ReadOnly | RefreshFailed | Called

  /** A request that went out. */
  datatype Call = Call(origin: Origin, client: nat, login: nat, token: Tokens)

  /** `logins` counts them; `asked` are the refresh requests, `calls` the commands' own. */
  datatype State = State(
    logins: nat, slot: Option<Session>, file: Option<File>, commands: map<nat, Phase>,
    asked: seq<Call>, calls: seq<Call>)

  datatype Action =
    | Login(account: nat, access: nat, refresh: nat, expiresIn: nat)
    | SaveLogin(account: nat)                         // `persist_session`, before the login stores its session
    | OpenStandalone(fromCache: bool, key: nat)
    | Lock
    | ForgetFile                                      // logging out
    | Begin(id: nat)
    | Check(id: nat)
    | Reply(id: nat, grant: Option<Grant>)
    | ReadKey(id: nat)
    | Write(id: nat)
    | SaveRefresh(id: nat)
    | Issue(id: nat)

  datatype Event = Event(at: real, action: Action)

  /** `compute_expires_at`: half a minute early, but at least a second on. */
  function Deadline(now: real, expiresIn: nat): real {
    now + (if expiresIn <= 31 then 1 else expiresIn - 30) as real
  }

  function At(s: State, id: nat, p: Phase): State {
    s.(commands := s.commands[id := p])
  }

  /** First section of `ensure_fresh_tokens`. */
  function Checked(slot: Option<Session>, now: real): Phase {
    if slot.None? then NotAuthenticated
    else if slot.value.client.None? || slot.value.tokens.None? || slot.value.expiresAt.None? then ReadOnly
    else if slot.value.expiresAt.value > now + 60.0 then Fresh
    else
      var tokens := slot.value.tokens.value;
      Refreshing(tokens.account, tokens.login, tokens.refresh)
  }

  /** Last section: the tokens only if there are tokens, the deadline whenever there is a session. */
  function Written(slot: Option<Session>, account: nat, login: nat, sent: nat, grant: Grant, now: real):
    Option<Session>
  {
    if slot.None? then None
    else
      var refresh := if grant.refresh.Some? then grant.refresh.value else sent;
      var tokens := Tokens(account, login, grant.access, refresh, grant.expiresIn, now);
      Some(slot.value.(
        tokens := if slot.value.tokens.Some? then Some(tokens) else None,
        expiresAt := Some(Deadline(now, grant.expiresIn))))
  }

  function LoggedIn(account: nat, login: nat, access: nat, refresh: nat, expiresIn: nat, now: real): Session {
    var tokens := Tokens(account, login, access, refresh, expiresIn, now);
    Session(Some(account), Some(tokens), Some(Deadline(now, expiresIn)), Server, account, login)
  }

  function Standalone(fromCache: bool, key: nat): Session {
    Session(None, None, None, if fromCache then OfflineCache else ExportFile, key, 0)
  }

  /** The end of `ensure_fresh_tokens`: into whatever file is there by then. */
  function Saved(file: Option<File>, account: nat, key: nat): Option<File> {
    if file.Some? then Some(file.value.(tokenOf := account, sealedUnder := key)) else None
  }

  /** The request for new tokens, if this session makes one. */
  function Asks(slot: Option<Session>, now: real): seq<Call> {
    if !Checked(slot, now).Refreshing? then []
    else [Call(slot.value.origin, slot.value.client.value, slot.value.login, slot.value.tokens.value)]
  }

  function Step(s: State, e: Event): State {
    match e.action
    case Login(account, access, refresh, expiresIn) =>
      s.(logins := s.logins + 1, slot := Some(LoggedIn(account, s.logins + 1, access, refresh, expiresIn, e.at)))
    case SaveLogin(account) => s.(file := Some(File(account, account, account)))
    case OpenStandalone(fromCache, key) => s.(slot := Some(Standalone(fromCache, key)))
    case Lock => s.(slot := None)
    case ForgetFile => s.(file := None)
    case Begin(id) => if id in s.commands then s else At(s, id, Starting)
    case Check(id) =>
      if id in s.commands && s.commands[id].Starting? then
        At(s, id, Checked(s.slot, e.at)).(asked := s.asked + Asks(s.slot, e.at))
      else s
    case Reply(id, grant) =>
      if id in s.commands && s.commands[id].Refreshing? then
        var p := s.commands[id];
        At(s, id, if grant.Some? then Granted(p.account, p.login, p.refresh, grant.value) else RefreshFailed)
      else s
    case ReadKey(id) =>
      if id in s.commands && s.commands[id].Granted? then
        var p := s.commands[id];
        At(s, id,
           if s.slot.Some? then Writing(p.account, p.login, p.refresh, p.grant, s.slot.value.key)
           else NotAuthenticated)
      else s
    case Write(id) =>
      if id in s.commands && s.commands[id].Writing? then
        var p := s.commands[id];
        At(s, id, Saving(p.account, p.key)).(slot := Written(s.slot, p.account, p.login, p.refresh, p.grant, e.at))
      else s
    case SaveRefresh(id) =>
      if id in s.commands && s.commands[id].Saving? then
        At(s, id, Fresh).(file := Saved(s.file, s.commands[id].account, s.commands[id].key))
      else s
    case Issue(id) =>
      if id !in s.commands || !s.commands[id].Fresh? then s
      else if s.slot.None? then At(s, id, NotAuthenticated)
      else if s.slot.value.client.None? || s.slot.value.tokens.None? then At(s, id, ReadOnly)
      else At(s, id, Called).(
        calls := s.calls
          + [Call(s.slot.value.origin, s.slot.value.client.value, s.slot.value.login, s.slot.value.tokens.value)])
  }

  const START := State(0, None, None, map[], [], [])

  /** The state after a run, the last event last. */
  function Run(events: seq<Event>): State {
    if events == [] then START else Step(Run(events[..|events| - 1]), events[|events| - 1])
  }

  // ------------------------------------------------------------------ invariant

  /** A client, tokens and a server origin come together or not at all. */
  predicate Coherent(slot: Option<Session>) {
    slot.Some? ==>
      && (slot.value.client.Some? <==> slot.value.origin.Server?)
      && (slot.value.tokens.Some? <==> slot.value.origin.Server?)
  }

  /** The deadline is that of the tokens next to it. */
  predicate OwnDeadline(slot: Option<Session>) {
    slot.Some? && slot.value.tokens.Some? ==>
      slot.value.expiresAt == Some(Deadline(slot.value.tokens.value.storedAt, slot.value.tokens.value.expiresIn))
  }

  predicate ServerCallsOnly(calls: seq<Call>) {
    forall k :: 0 <= k < |calls| ==> calls[k].origin.Server?
  }

  predicate Sound(s: State) {
    Coherent(s.slot) && OwnDeadline(s.slot) && ServerCallsOnly(s.calls) && ServerCallsOnly(s.asked)
  }

  predicate NotFromTheFuture(slot: Option<Session>, now: real) {
    slot.Some? && slot.value.tokens.Some? ==> slot.value.tokens.value.storedAt <= now
  }

  predicate InOrder(events: seq<Event>) {
    forall i, j :: 0 <= i < j < |events| ==> events[i].at <= events[j].at
  }

  lemma StepKeeps(s: State, e: Event)
    requires Sound(s) && NotFromTheFuture(s.slot, e.at)
    ensures Sound(Step(s, e)) && NotFromTheFuture(Step(s, e).slot, e.at)
  {
  }

  lemma {:induction false} RunKeeps(events: seq<Event>)
    requires InOrder(events)
    ensures Sound(Run(events))
    ensures events != [] ==> NotFromTheFuture(Run(events).slot, events[|events| - 1].at)
    decreases |events|
  {
    if events != [] {
      RunKeeps(events[..|events| - 1]);
      StepKeeps(Run(events[..|events| - 1]), events[|events| - 1]);
    }
  }

  // ------------------------------------------------------------- main results

  /**
   * However refreshes interleave with logins, locks and standalone vaults, the slot is coherent and no request ever
   * goes out of a standalone session.
   */
  lemma SlotIsCoherent(events: seq<Event>, k: nat)
    requires InOrder(events)
    ensures var s := Run(events);
      && Coherent(s.slot)
      && (k < |s.calls| ==> s.calls[k].origin.Server?)
      && (k < |s.asked| ==> s.asked[k].origin.Server?)
  {
    RunKeeps(events);
  }

  /** A command skips the refresh exactly when the token has more than ninety seconds left by its own lifetime. */
  lemma SkippedRefreshHasTime(events: seq<Event>, id: nat, now: real)
    requires InOrder(events + [Event(now, Check(id))])
    requires var s := Run(events);
      && id in s.commands && s.commands[id].Starting?
      && s.slot.Some? && s.slot.value.tokens.Some?
    ensures var tokens := Run(events).slot.value.tokens.value;
      Run(events + [Event(now, Check(id))]).commands[id].Fresh?
      <==> tokens.storedAt + tokens.expiresIn as real > now + 90.0
  {
    var all := events + [Event(now, Check(id))];
    assert all[..|all| - 1] == events;
    forall i, j | 0 <= i < j < |events| ensures events[i].at <= events[j].at {
      assert all[i] == events[i] && all[j] == events[j];
    }
    RunKeeps(events);
    if events != [] {
      assert all[|events| - 1] == events[|events| - 1] && all[|events|] == Event(now, Check(id));
    }
  }

  /** And one that is not skipped is refreshed: there is no third outcome for a session with tokens. */
  lemma CheckedOutcome(slot: Option<Session>, now: real)
    requires Coherent(slot) && OwnDeadline(slot)
    ensures (Checked(slot, now).NotAuthenticated? <==> slot.None?)
      && (Checked(slot, now).ReadOnly? <==> slot.Some? && !slot.value.origin.Server?)
      && (Checked(slot, now).Fresh? || Checked(slot, now).Refreshing? <==> slot.Some? && slot.value.origin.Server?)
  {
  }

  // --------------------------------------------------- what each event stores

  /** The slot after a login: everything the login brought, and a deadline half a minute before the token ends. */
  lemma LoginStores(s: State, now: real, account: nat, access: nat, refresh: nat, expiresIn: nat)
    ensures var slot := Step(s, Event(now, Login(account, access, refresh, expiresIn))).slot;
      && slot.Some? && slot.value.client == Some(account) && slot.value.key == account
      && slot.value.origin == Server && slot.value.login == s.logins + 1 && slot.value.tokens.Some?
      && var t := slot.value.tokens.value;
      && t.account == account && t.login == s.logins + 1
      && t.access == access && t.refresh == refresh && t.expiresIn == expiresIn && t.storedAt == now
      && slot.value.expiresAt == Some(if expiresIn >= 31 then now + expiresIn as real - 30.0 else now + 1.0)
  {
  }

  /** The slot after a refresh is written back: the granted tokens, and the rest of the session as it was. */
  lemma WriteStores(s: State, id: nat, now: real)
    requires id in s.commands && s.commands[id].Writing?
    requires s.slot.Some? && s.slot.value.tokens.Some?
    ensures var p, before, slot := s.commands[id], s.slot.value, Step(s, Event(now, Write(id))).slot;
      && slot.Some? && slot.value.client == before.client && slot.value.key == before.key
      && slot.value.origin == before.origin && slot.value.login == before.login && slot.value.tokens.Some?
      && var t := slot.value.tokens.value;
      && t.account == p.account && t.login == p.login
      && t.access == p.grant.access && t.expiresIn == p.grant.expiresIn && t.storedAt == now
      && (p.grant.refresh.Some? ==> t.refresh == p.grant.refresh.value)
      && (p.grant.refresh.None? ==> t.refresh == p.refresh)
      && slot.value.expiresAt
           == Some(if t.expiresIn >= 31 then now + t.expiresIn as real - 30.0 else now + 1.0)
  {
  }

  /** A standalone vault has no client, tokens or deadline; a lock leaves no session; nothing else touches the slot. */
  lemma OthersStore(s: State, e: Event)
    ensures e.action.OpenStandalone? ==>
      var slot := Step(s, e).slot;
      && slot.Some? && slot.value.client.None? && slot.value.tokens.None? && slot.value.expiresAt.None?
      && slot.value.key == e.action.key
      && (if e.action.fromCache then slot.value.origin == OfflineCache else slot.value.origin == ExportFile)
    ensures e.action.Lock? ==> Step(s, e).slot.None?
    ensures !Replaces(s, e.action) && !e.action.Write? ==> Step(s, e).slot == s.slot
    ensures e.action.Write? && (s.slot.None? || s.slot.value.tokens.None?) ==>
      Step(s, e).slot.Some? == s.slot.Some? && (s.slot.Some? ==> Step(s, e).slot.value.tokens.None?)
  {
  }

  /** A session was stored at event `k`, and nobody has locked since. */
  ghost predicate StoredSince(events: seq<Event>, k: nat) {
    && k < |events| && (events[k].action.Login? || events[k].action.OpenStandalone?)
    && forall j: nat :: k < j < |events| ==> !events[j].action.Lock?
  }

  lemma OccupiedStep(s: State, e: Event)
    ensures Step(s, e).slot.Some?
      <==> e.action.Login? || e.action.OpenStandalone? || (s.slot.Some? && !e.action.Lock?)
  {
  }

  /** There is a session exactly when one was stored and nobody has locked since, whatever refreshes went on. */
  lemma {:induction false} SessionExactly(events: seq<Event>)
    ensures Run(events).slot.Some? <==> exists k: nat :: StoredSince(events, k)
    decreases |events|
  {
    if events != [] {
      var front, n: nat := events[..|events| - 1], |events| - 1;
      SessionExactly(front);
      OccupiedStep(Run(front), events[n]);
      hide Step;
      assert forall j: nat :: j < n ==> front[j] == events[j];
      if k: nat :| StoredSince(front, k) {
        assert events[n].action.Lock? || StoredSince(events, k);
      }
      if k: nat :| StoredSince(events, k) {
        assert k == n || StoredSince(front, k);
      }
      assert events[n].action.Login? || events[n].action.OpenStandalone? ==> StoredSince(events, n);
    }
  }

  /** The event puts another session into the slot, or none. */
  predicate Replaces(s: State, a: Action) {
    a.Login? || a.OpenStandalone? || a.Lock?
  }

  /** The event changes which tokens are in the slot. */
  predicate Changes(s: State, a: Action) {
    || Replaces(s, a)
    || (a.Write? && a.id in s.commands && s.commands[a.id].Writing? && s.slot.Some? && s.slot.value.tokens.Some?)
  }

  /** The event brings these tokens: those of a login, or those a refresh was granted. */
  predicate Brings(s: State, e: Event, t: Tokens) {
    match e.action
    case Login(account, access, refresh, expiresIn) =>
      && t.account == account && t.access == access && t.refresh == refresh
      && t.expiresIn == expiresIn && t.storedAt == e.at
    case Write(id) =>
      && id in s.commands && s.commands[id].Writing?
      && var p := s.commands[id];
      && t.account == p.account && t.access == p.grant.access && t.expiresIn == p.grant.expiresIn && t.storedAt == e.at
      && t.refresh == if p.grant.refresh.Some? then p.grant.refresh.value else p.refresh
    case _ => false
  }

  /** Event `k` brought these tokens, and none has changed them since. */
  predicate Latest(events: seq<Event>, k: nat, t: Tokens) {
    && k < |events| && Brings(Run(events[..k]), events[k], t)
    && forall m :: k < m < |events| ==> !Changes(Run(events[..m]), events[m].action)
  }

  lemma LatestGoesOn(events: seq<Event>, k: nat, t: Tokens)
    requires events != [] && Latest(events[..|events| - 1], k, t)
    requires !Changes(Run(events[..|events| - 1]), events[|events| - 1].action)
    ensures Latest(events, k, t)
  {
    hide Run, Changes, Brings;
    var front := events[..|events| - 1];
    assert front[..k] == events[..k] && front[k] == events[k];
    forall m | k < m < |front| ensures !Changes(Run(events[..m]), events[m].action) {
      assert front[..m] == events[..m] && front[m] == events[m];
    }
  }

  lemma StepTokens(s: State, e: Event)
    ensures var slot := Step(s, e).slot;
      && (Changes(s, e.action) && slot.Some? && slot.value.tokens.Some? ==> Brings(s, e, slot.value.tokens.value))
      && (!Changes(s, e.action) && slot.Some? && slot.value.tokens.Some? ==>
            s.slot.Some? && s.slot.value.tokens == slot.value.tokens)
  {
  }

  /** The tokens in the slot are those of the latest login or granted refresh. */
  lemma {:induction false} TokensComeFrom(events: seq<Event>) returns (k: nat)
    requires var slot := Run(events).slot; slot.Some? && slot.value.tokens.Some?
    ensures Latest(events, k, Run(events).slot.value.tokens.value)
    decreases |events|
  {
    var front, last, n: nat := events[..|events| - 1], events[|events| - 1], |events| - 1;
    StepTokens(Run(front), last);
    hide Step, Brings, Changes;
    if Changes(Run(front), last.action) {
      k := n;
    } else {
      k := TokensComeFrom(front);
      LatestGoesOn(events, k, Run(events).slot.value.tokens.value);
    }
  }

  /** The request is this session's: its client, its origin, its login, its tokens. */
  predicate Sends(session: Session, call: Call) {
    && session.tokens == Some(call.token) && session.client == Some(call.client)
    && session.origin == call.origin && session.login == call.login
  }

  lemma StepCalls(s: State, e: Event)
    ensures Step(s, e).calls == s.calls
      || (e.action.Issue? && e.action.id in s.commands && s.commands[e.action.id].Fresh?
          && s.slot.Some? && s.slot.value.tokens.Some? && |Step(s, e).calls| == |s.calls| + 1
          && Step(s, e).calls[..|s.calls|] == s.calls
          && Sends(s.slot.value, Step(s, e).calls[|s.calls|]))
    ensures Step(s, e).asked == s.asked
      || (e.action.Check? && s.slot.Some? && s.slot.value.tokens.Some? && |Step(s, e).asked| == |s.asked| + 1
          && Step(s, e).asked[..|s.asked|] == s.asked
          && Sends(s.slot.value, Step(s, e).asked[|s.asked|]))
  {
  }

  lemma RunLast(events: seq<Event>)
    ensures events != [] ==> Run(events) == Step(Run(events[..|events| - 1]), events[|events| - 1])
    ensures events == [] ==> Run(events).calls == [] && Run(events).asked == []
  {
    hide Step;
  }

  /** Every request carries the tokens of the login or refresh that was the latest when it went out. */
  lemma {:induction false} CallsCarryLatest(events: seq<Event>, i: nat) returns (n: nat, k: nat)
    requires i < |Run(events).calls|
    ensures n < |events| && events[n].action.Issue? && Latest(events[..n], k, Run(events).calls[i].token)
    ensures Run(events[..n]).slot.Some? && Sends(Run(events[..n]).slot.value, Run(events).calls[i])
    decreases |events|
  {
    hide Run, Step, Latest;
    RunLast(events);
    var front, last := events[..|events| - 1], events[|events| - 1];
    StepCalls(Run(front), last);
    if i < |Run(front).calls| {
      n, k := CallsCarryLatest(front, i);
      assert front[..n] == events[..n];
    } else {
      n := |events| - 1;
      k := TokensComeFrom(front);
    }
  }

  /** The event lets the command pass: its check finds a token with time left, or it has saved a refreshed one. */
  predicate Passes(s: State, e: Event, id: nat)
    requires id in s.commands
  {
    if s.commands[id].Starting? then
      && e.action == Check(id) && s.slot.Some? && s.slot.value.tokens.Some?
      && s.slot.value.expiresAt.Some? && s.slot.value.expiresAt.value > e.at + 60.0
    else e.action == SaveRefresh(id) && s.commands[id].Saving?
  }

  predicate LetPass(events: seq<Event>, k: nat, id: nat) {
    k < |events| && id in Run(events[..k]).commands && Passes(Run(events[..k]), events[k], id)
  }

  lemma PassStep(s: State, e: Event, id: nat)
    requires id in Step(s, e).commands && Step(s, e).commands[id].Fresh?
    ensures id in s.commands
    ensures s.commands[id].Fresh? || Passes(s, e, id)
  {
  }

  lemma {:induction false} FreshWasLetPass(events: seq<Event>, id: nat) returns (k: nat)
    requires id in Run(events).commands && Run(events).commands[id].Fresh?
    ensures LetPass(events, k, id)
    decreases |events|
  {
    var front, n: nat := events[..|events| - 1], |events| - 1;
    PassStep(Run(front), events[n], id);
    hide Step;
    if Run(front).commands[id].Fresh? {
      k := FreshWasLetPass(front, id);
      assert front[..k] == events[..k] && front[k] == events[k];
    } else {
      k := n;
    }
  }

  /** No request goes out of a command that has not passed the check or its refresh. */
  lemma {:induction false} CallsWereLetPass(events: seq<Event>, i: nat) returns (n: nat, k: nat)
    requires i < |Run(events).calls|
    ensures k < n < |events| && events[n].action.Issue? && LetPass(events, k, events[n].action.id)
    decreases |events|
  {
    hide Run, Step, Passes, Sends;
    RunLast(events);
    var front, last := events[..|events| - 1], events[|events| - 1];
    StepCalls(Run(front), last);
    if i < |Run(front).calls| {
      n, k := CallsWereLetPass(front, i);
      assert front[..k] == events[..k] && front[k] == events[k] && front[n] == events[n];
    } else {
      n := |events| - 1;
      k := FreshWasLetPass(front, last.action.id);
      assert front[..k] == events[..k] && front[k] == events[k];
    }
  }

  /** And so does every refresh request. */
  lemma {:induction false} RefreshesCarryLatest(events: seq<Event>, i: nat) returns (n: nat, k: nat)
    requires i < |Run(events).asked|
    ensures n < |events| && events[n].action.Check? && Latest(events[..n], k, Run(events).asked[i].token)
    ensures Run(events[..n]).slot.Some? && Sends(Run(events[..n]).slot.value, Run(events).asked[i])
    decreases |events|
  {
    hide Run, Step, Latest;
    RunLast(events);
    var front, last := events[..|events| - 1], events[|events| - 1];
    StepCalls(Run(front), last);
    if i < |Run(front).asked| {
      n, k := RefreshesCarryLatest(front, i);
      assert front[..n] == events[..n];
    } else {
      n := |events| - 1;
      k := TokensComeFrom(front);
    }
  }

  /** A command waits with the refresh token the slot had when it was checked. */
  predicate AskedWith(events: seq<Event>, c: nat, id: nat, account: nat, login: nat, refresh: nat) {
    && c < |events| && events[c].action == Check(id)
    && var slot := Run(events[..c]).slot;
    && slot.Some? && slot.value.tokens.Some?
    && slot.value.tokens.value.account == account && slot.value.tokens.value.login == login
    && slot.value.tokens.value.refresh == refresh
  }

  predicate RepliedWith(events: seq<Event>, r: nat, id: nat, grant: Grant) {
    r < |events| && events[r].action == Reply(id, Some(grant))
  }

  /** What a command is waiting for, was granted or is about to write is what was sent and what came back. */
  lemma {:induction false} PhasesRemember(events: seq<Event>, id: nat) returns (c: nat, r: nat)
    requires var s := Run(events);
      id in s.commands && (s.commands[id].Refreshing? || s.commands[id].Granted? || s.commands[id].Writing?)
    ensures var p := Run(events).commands[id];
      && AskedWith(events, c, id, p.account, p.login, p.refresh)
      && (!p.Refreshing? ==> c < r && RepliedWith(events, r, id, p.grant))
    decreases |events|
  {
    var front, last, n: nat := events[..|events| - 1], events[|events| - 1], |events| - 1;
    c, r := n, n;
    StepPhase(Run(front), last, id);
    var p := Run(events).commands[id];
    hide Step;
    var waiting := id in Run(front).commands && Run(front).commands[id].Refreshing?;
    if !p.Refreshing? || last.action != Check(id) || waiting {
      c, r := PhasesRemember(front, id);
      assert front[..c] == events[..c] && front[c] == events[c];
      if last.action.Reply? && last.action.id == id && p.Granted? && Run(front).commands[id].Refreshing? {
        r := n;
      } else if !p.Refreshing? {
        assert front[r] == events[r];
      }
    } else {
      assert events[..c] == front;
    }
  }

  /** How one event moves one command. */
  lemma StepPhase(s: State, e: Event, id: nat)
    requires var s' := Step(s, e);
      id in s'.commands && (s'.commands[id].Refreshing? || s'.commands[id].Granted? || s'.commands[id].Writing?)
    ensures var p := Step(s, e).commands[id];
      || (id in s.commands && s.commands[id] == p)
      || (e.action == Check(id) && p.Refreshing? && s.slot.Some? && s.slot.value.tokens.Some?
          && s.slot.value.tokens.value.account == p.account && s.slot.value.tokens.value.login == p.login
          && s.slot.value.tokens.value.refresh == p.refresh)
      || (id in s.commands && s.commands[id].Refreshing? && p.Granted? && e.action == Reply(id, Some(p.grant))
          && SameAsked(s.commands[id], p))
      || (id in s.commands && s.commands[id].Granted? && p.Writing? && e.action == ReadKey(id)
          && SameAsked(s.commands[id], p) && p.grant == s.commands[id].grant
          && s.slot.Some? && p.key == s.slot.value.key)
  {
  }

  /** What each event does to the stored session. */
  lemma FileStores(s: State, e: Event)
    ensures var file := Step(s, e).file;
      match e.action
      case SaveLogin(account) => file == Some(File(account, account, account))
      case ForgetFile => file.None?
      case SaveRefresh(id) =>
        if id in s.commands && s.commands[id].Saving? && s.file.Some? then
          && file.Some? && file.value.account == s.file.value.account
          && file.value.tokenOf == s.commands[id].account && file.value.sealedUnder == s.commands[id].key
        else file == s.file
      case _ => file == s.file
  {
  }

  /** A command's own section moves that command alone; what is saved is what was written. */
  lemma CommandsApart(s: State, e: Event, id: nat)
    requires id in s.commands
    ensures id in Step(s, e).commands
    ensures Step(s, e).commands[id] != s.commands[id] ==>
      e.action in {Check(id), ReadKey(id), Write(id), SaveRefresh(id), Issue(id)}
      || (e.action.Reply? && e.action.id == id)
    ensures s.commands[id].Writing? && e.action == Write(id) ==>
      Step(s, e).commands[id] == Saving(s.commands[id].account, s.commands[id].key)
  {
  }

  /**
   * One `ensure_fresh_tokens` with nothing in between: refused without a session or on a standalone one, at once when
   * the token has time, and otherwise as the server answers, with the granted tokens in the slot and in the file.
   */
  lemma RefreshOutcome(s: State, id: nat, now: real, reply: Option<Grant>, later: real)
    requires id in s.commands && s.commands[id].Starting?
    requires Coherent(s.slot) && OwnDeadline(s.slot) && NotFromTheFuture(s.slot, now)
    ensures var end := Refreshed(s, id, now, reply, later);
      var p := end.commands[id];
      if s.slot.None? then p.NotAuthenticated? && end.slot.None? && end.file == s.file
      else if !s.slot.value.origin.Server? then p.ReadOnly? && end.slot == s.slot && end.file == s.file
      else
        var t := s.slot.value.tokens.value;
        if t.storedAt + t.expiresIn as real > now + 90.0 then p.Fresh? && end.slot == s.slot && end.file == s.file
        else if reply.None? then p.RefreshFailed? && end.slot == s.slot && end.file == s.file
        else
          && p.Fresh? && end.slot.Some? && end.slot.value.tokens.Some?
          && var t' := end.slot.value.tokens.value;
          && t'.access == reply.value.access && t'.expiresIn == reply.value.expiresIn && t'.storedAt == later
          && t'.refresh == (if reply.value.refresh.Some? then reply.value.refresh.value else t.refresh)
          && t'.account == t.account && t'.login == t.login
          && (s.file.Some? ==> end.file == Some(File(s.file.value.account, t.account, s.slot.value.key)))
          && (s.file.None? ==> end.file.None?)
  {
  }

  predicate SameAsked(p: Phase, q: Phase)
    requires p.Refreshing? || p.Granted? || p.Writing?
    requires q.Refreshing? || q.Granted? || q.Writing?
  {
    p.account == q.account && p.login == q.login && p.refresh == q.refresh
  }

  // ------------------------------------------ what a refresh may leave behind

  /** Every event of the run is one that `ok` admits in the state it meets. */
  predicate Always(events: seq<Event>, ok: (State, Action) -> bool) {
    forall k :: 0 <= k < |events| ==> ok(Run(events[..k]), events[k].action)
  }

  lemma {:induction false} AlwaysFront(events: seq<Event>, ok: (State, Action) -> bool)
    requires events != [] && Always(events, ok)
    ensures Always(events[..|events| - 1], ok) && ok(Run(events[..|events| - 1]), events[|events| - 1].action)
  {
    hide Run;
    var front := events[..|events| - 1];
    forall k | 0 <= k < |front| ensures ok(Run(front[..k]), front[k].action) {
      assert front[..k] == events[..k] && front[k] == events[k];
    }
  }

  /** A deadline stands next to tokens and nowhere else. */
  predicate DeadlineWithTokens(slot: Option<Session>) {
    slot.Some? ==> (slot.value.expiresAt.Some? <==> slot.value.tokens.Some?)
  }

  /** Writing back a refresh gives a deadline to tokens and nothing else exactly when no standalone session is open. */
  lemma WriteKeepsDeadline(s: State, id: nat, now: real)
    requires id in s.commands && s.commands[id].Writing?
    ensures DeadlineWithTokens(Step(s, Event(now, Write(id))).slot) <==> s.slot.None? || s.slot.value.tokens.Some?
  {
  }

  /** The event does not write a refresh back onto a standalone session. */
  predicate NotOntoStandalone(s: State, a: Action) {
    a.Write? && a.id in s.commands && s.commands[a.id].Writing? ==> s.slot.None? || s.slot.value.tokens.Some?
  }

  lemma StepKeepsDeadline(s: State, e: Event)
    requires DeadlineWithTokens(s.slot) && NotOntoStandalone(s, e.action)
    ensures DeadlineWithTokens(Step(s, e).slot)
  {
  }

  /** In every run without such a write the deadline stands next to tokens and nowhere else. */
  lemma {:induction false} DeadlineOverRuns(events: seq<Event>)
    requires Always(events, NotOntoStandalone)
    ensures DeadlineWithTokens(Run(events).slot)
    decreases |events|
  {
    hide Step, Always, NotOntoStandalone;
    if events != [] {
      AlwaysFront(events, NotOntoStandalone);
      DeadlineOverRuns(events[..|events| - 1]);
      StepKeepsDeadline(Run(events[..|events| - 1]), events[|events| - 1]);
    }
  }

  /** A refresh that outlives its session does set a deadline on a standalone one. */
  lemma DeadlineOnStandalone() returns (events: seq<Event>)
    ensures InOrder(events)
    ensures var slot := Run(events).slot; slot.Some? && slot.value.origin.ExportFile? && slot.value.expiresAt.Some?
  {
    hide Run, AllAtZero, InOrder;
    var s: State;
    events, s := RefreshPending();
    events, s := Extend(events, s, OpenStandalone(false, 0));
    events, s := Extend(events, s, ReadKey(0));
    events, s := Extend(events, s, Write(0));
    ZeroInOrder(events);
  }

  /** A run up to where command 0 of account 7 has its new tokens and is about to read the session's key. */
  lemma RefreshPending() returns (events: seq<Event>, s: State)
    ensures Run(events) == s && AllAtZero(events)
    ensures s.commands == map[0 := Granted(7, 1, 1, Grant(2, None, 3600))]
    ensures s.slot == Some(LoggedIn(7, 1, 1, 1, 10, 0.0))
    ensures s.file == Some(File(7, 7, 7)) && s.calls == [] && s.logins == 1
  {
    events, s := [], START;
    events, s := Extend(events, s, SaveLogin(7));
    events, s := Extend(events, s, Login(7, 1, 1, 10));
    events, s := Extend(events, s, Begin(0));
    events, s := Extend(events, s, Check(0));
    assert s.commands[0] == Refreshing(7, 1, 1);
    events, s := Extend(events, s, Reply(0, Some(Grant(2, None, 3600))));
  }

  predicate AllAtZero(events: seq<Event>) {
    forall i :: 0 <= i < |events| ==> events[i].at == 0.0
  }

  lemma ZeroInOrder(events: seq<Event>)
    requires AllAtZero(events)
    ensures InOrder(events)
  {
  }

  lemma Extend(events: seq<Event>, s: State, a: Action) returns (events': seq<Event>, s': State)
    requires Run(events) == s && AllAtZero(events)
    ensures Run(events') == s' == Step(s, Event(0.0, a)) && AllAtZero(events')
  {
    events' := events + [Event(0.0, a)];
    assert events'[..|events|] == events;
    s' := Step(s, Event(0.0, a));
  }

  // ------------------------------------------- whose tokens are in the slot

  predicate OwnTokens(slot: Option<Session>) {
    slot.Some? && slot.value.client.Some? && slot.value.tokens.Some? ==>
      slot.value.tokens.value.account == slot.value.client.value
  }

  /** The slot is unoccupied, standalone, or of the account the refresh was for. */
  predicate SameAccount(slot: Option<Session>, account: nat) {
    slot.Some? && slot.value.tokens.Some? && slot.value.client.Some? ==> slot.value.client.value == account
  }

  /** Writing back a refresh leaves the tokens with the right client exactly when the slot has no other account's. */
  lemma WriteKeepsOwnTokens(s: State, id: nat, now: real)
    requires id in s.commands && s.commands[id].Writing?
    ensures OwnTokens(Step(s, Event(now, Write(id))).slot) <==> SameAccount(s.slot, s.commands[id].account)
  {
  }

  /** The event is not the write-back of a refresh for an account that is no longer the session's. */
  predicate NotStale(s: State, a: Action) {
    a.Write? && a.id in s.commands && s.commands[a.id].Writing? ==> SameAccount(s.slot, s.commands[a.id].account)
  }

  predicate OwnCalls(calls: seq<Call>) {
    forall k :: 0 <= k < |calls| ==> calls[k].token.account == calls[k].client
  }

  lemma StepKeepsOwn(s: State, e: Event)
    requires OwnTokens(s.slot) && OwnCalls(s.calls) && OwnCalls(s.asked) && NotStale(s, e.action)
    ensures OwnTokens(Step(s, e).slot) && OwnCalls(Step(s, e).calls) && OwnCalls(Step(s, e).asked)
  {
  }

  lemma {:induction false} RunKeepsOwn(events: seq<Event>)
    requires Always(events, NotStale)
    ensures OwnTokens(Run(events).slot) && OwnCalls(Run(events).calls) && OwnCalls(Run(events).asked)
    decreases |events|
  {
    hide Step, Always, NotStale, OwnTokens, OwnCalls;
    if events == [] {
      NothingYet();
    } else {
      AlwaysFront(events, NotStale);
      RunKeepsOwn(events[..|events| - 1]);
      StepKeepsOwn(Run(events[..|events| - 1]), events[|events| - 1]);
    }
  }

  lemma NothingYet()
    ensures OwnTokens(START.slot) && OwnCalls(START.calls) && OwnCalls(START.asked)
  {
  }

  /** Every request carries the tokens of its own client as long as no stale refresh has been written back. */
  lemma {:induction false} CallsUseOwnTokens(events: seq<Event>, k: nat)
    requires Always(events, NotStale)
    ensures OwnTokens(Run(events).slot)
    ensures k < |Run(events).calls| ==> Run(events).calls[k].token.account == Run(events).calls[k].client
    ensures k < |Run(events).asked| ==> Run(events).asked[k].token.account == Run(events).asked[k].client
  {
    RunKeepsOwn(events);
    hide Run, Always, OwnTokens;
  }

  /** And a stale one does reach the server: a request of account 8 goes out with the token of account 7. */
  lemma ForeignTokenIsSent() returns (events: seq<Event>)
    ensures InOrder(events) && Coherent(Run(events).slot)
    ensures var s := Run(events);
      |s.calls| == 1 && s.calls[0].client == 8 && s.calls[0].token.account == 7 && !OwnTokens(s.slot)
  {
    hide Run, AllAtZero, InOrder;
    var s: State;
    events, s := RefreshPending();
    events, s := Extend(events, s, Lock);
    events, s := Extend(events, s, SaveLogin(8));
    events, s := Extend(events, s, Login(8, 5, 5, 3600));
    events, s := Extend(events, s, ReadKey(0));
    events, s := Extend(events, s, Write(0));
    events, s := Extend(events, s, SaveRefresh(0));
    assert s.commands[0].Fresh?;
    events, s := Extend(events, s, Issue(0));
    ZeroInOrder(events);
  }

  // ------------------------------------------ whose login the tokens stem from

  predicate OwnLogin(slot: Option<Session>) {
    slot.Some? && slot.value.tokens.Some? ==> slot.value.tokens.value.login == slot.value.login
  }

  /** The slot is unoccupied, standalone, or holds the very session the refresh was begun for. */
  predicate SameSession(slot: Option<Session>, login: nat) {
    slot.Some? && slot.value.tokens.Some? ==> slot.value.login == login
  }

  /** Writing back a refresh leaves a session the tokens of its own login exactly when it was not replaced meanwhile. */
  lemma WriteKeepsOwnLogin(s: State, id: nat, now: real)
    requires id in s.commands && s.commands[id].Writing?
    ensures OwnLogin(Step(s, Event(now, Write(id))).slot) <==> SameSession(s.slot, s.commands[id].login)
  {
  }

  predicate NotReplaced(s: State, a: Action) {
    a.Write? && a.id in s.commands && s.commands[a.id].Writing? ==> SameSession(s.slot, s.commands[a.id].login)
  }

  predicate OwnLoginCalls(calls: seq<Call>) {
    forall k :: 0 <= k < |calls| ==> calls[k].token.login == calls[k].login
  }

  lemma StepKeepsLogin(s: State, e: Event)
    requires OwnLogin(s.slot) && OwnLoginCalls(s.calls) && OwnLoginCalls(s.asked) && NotReplaced(s, e.action)
    ensures OwnLogin(Step(s, e).slot) && OwnLoginCalls(Step(s, e).calls) && OwnLoginCalls(Step(s, e).asked)
  {
  }

  /** Until a refresh is written onto another login's session, requests carry tokens of their session's own login. */
  lemma {:induction false} LoginsOverRuns(events: seq<Event>)
    requires Always(events, NotReplaced)
    ensures OwnLogin(Run(events).slot) && OwnLoginCalls(Run(events).calls) && OwnLoginCalls(Run(events).asked)
    decreases |events|
  {
    if events != [] {
      AlwaysFront(events, NotReplaced);
      hide Step, Always, NotReplaced, OwnLogin, OwnLoginCalls;
      LoginsOverRuns(events[..|events| - 1]);
      StepKeepsLogin(Run(events[..|events| - 1]), events[|events| - 1]);
    }
  }

  /** The same account logs in again, and the old refresh overwrites the new login's tokens. */
  lemma SecondLoginLosesItsTokens() returns (events: seq<Event>)
    ensures InOrder(events) && OwnTokens(Run(events).slot)
    ensures var slot := Run(events).slot;
      slot.Some? && slot.value.login == 2 && slot.value.tokens.Some? && slot.value.tokens.value.login == 1
  {
    hide Run, AllAtZero, InOrder;
    var s: State;
    events, s := RefreshPending();
    events, s := Extend(events, s, Lock);
    events, s := Extend(events, s, Login(7, 5, 5, 3600));
    events, s := Extend(events, s, ReadKey(0));
    events, s := Extend(events, s, Write(0));
    ZeroInOrder(events);
  }

  // --------------------------------------------- what the next unlock reads

  /** The stored refresh token opens under the account's own key, and is that account's. */
  predicate Whole(file: Option<File>) {
    file.Some? ==> file.value.tokenOf == file.value.account == file.value.sealedUnder
  }

  /**
   * Saving a refresh keeps the stored session whole exactly when the file is still of the account it was for and the
   * key was read from a session of that account.
   */
  lemma SaveKeepsWhole(s: State, id: nat, now: real)
    requires id in s.commands && s.commands[id].Saving?
    ensures var p := s.commands[id];
      Whole(Step(s, Event(now, SaveRefresh(id))).file)
      <==> s.file.None? || (s.file.value.account == p.account && p.key == p.account)
  {
  }

  predicate NoForeignSave(s: State, a: Action) {
    a.SaveRefresh? && a.id in s.commands && s.commands[a.id].Saving? && s.file.Some? ==>
      s.file.value.account == s.commands[a.id].account == s.commands[a.id].key
  }

  lemma StepKeepsWhole(s: State, e: Event)
    requires Whole(s.file) && NoForeignSave(s, e.action)
    ensures Whole(Step(s, e).file)
  {
  }

  lemma {:induction false} FileOverRuns(events: seq<Event>)
    requires Always(events, NoForeignSave)
    ensures Whole(Run(events).file)
    decreases |events|
  {
    hide Step, Always, NoForeignSave;
    if events != [] {
      AlwaysFront(events, NoForeignSave);
      FileOverRuns(events[..|events| - 1]);
      StepKeepsWhole(Run(events[..|events| - 1]), events[|events| - 1]);
    }
  }

  /** A refresh of account 7 that ends after a login of 8 leaves 7's token in 8's file, under 8's key. */
  lemma ForeignTokenIsStored() returns (events: seq<Event>)
    ensures InOrder(events) && Run(events).file == Some(File(8, 7, 8))
  {
    hide Run, AllAtZero, InOrder;
    var s: State;
    events, s := RefreshPending();
    events, s := Extend(events, s, Lock);
    events, s := Extend(events, s, SaveLogin(8));
    events, s := Extend(events, s, Login(8, 5, 5, 3600));
    events, s := Extend(events, s, ReadKey(0));
    events, s := Extend(events, s, Write(0));
    events, s := Extend(events, s, SaveRefresh(0));
    ZeroInOrder(events);
  }

  /** Or, when the key was read before the login, under a key that the file's account does not have. */
  lemma UnreadableTokenIsStored() returns (events: seq<Event>)
    ensures InOrder(events) && Run(events).file == Some(File(8, 7, 7))
  {
    hide Run, AllAtZero, InOrder;
    var s: State;
    events, s := RefreshPending();
    events, s := Extend(events, s, ReadKey(0));
    events, s := Extend(events, s, Write(0));
    events, s := Extend(events, s, Lock);
    events, s := Extend(events, s, SaveLogin(8));
    events, s := Extend(events, s, SaveRefresh(0));
    ZeroInOrder(events);
  }

  /** A vault opened from a file before the key is read: the account's own token, under a key it does not have. */
  lemma StandaloneKeyIsStored() returns (events: seq<Event>)
    ensures InOrder(events) && Run(events).file == Some(File(7, 7, 0)) && !Whole(Run(events).file)
  {
    hide Run, AllAtZero, InOrder;
    var s: State;
    events, s := RefreshPending();
    events, s := Extend(events, s, OpenStandalone(false, 0));
    events, s := Extend(events, s, ReadKey(0));
    events, s := Extend(events, s, Write(0));
    events, s := Extend(events, s, SaveRefresh(0));
    ZeroInOrder(events);
  }

  // --------------------------------------------------------------- in place

  /** `SessionSlot` and `PendingTwoFactorSlot`. */
  class Slots {
    var slot: Option<Session>
    var file: Option<File>
    var pendingSince: Option<real>

    constructor ()
      ensures slot == None && file == None && pendingSince == None
    {
      slot, file, pendingSince := None, None, None;
    }

    method StoreSession(account: nat, login: nat, access: nat, refresh: nat, expiresIn: nat, now: real)
      modifies this`slot
      ensures slot == Some(LoggedIn(account, login, access, refresh, expiresIn, now))
      ensures Coherent(slot) && OwnDeadline(slot)
    {
      var deadline := now + (if expiresIn <= 31 then 1 else expiresIn - 30) as real;
      var tokens := Tokens(account, login, access, refresh, expiresIn, now);
      slot := Some(Session(Some(account), Some(tokens), Some(deadline), Server, account, login));
    }

    method StoreStandalone(fromCache: bool, key: nat)
      modifies this`slot
      ensures slot == Some(Standalone(fromCache, key)) && Coherent(slot)
    {
      slot := Some(Session(None, None, None, if fromCache then OfflineCache else ExportFile, key, 0));
    }

    /** The write firewall and the freshness test. */
    method CheckFresh(now: real) returns (p: Phase)
      ensures p == Checked(slot, now)
      ensures Coherent(slot) && slot.Some? && !slot.value.origin.Server? ==> p.ReadOnly?
    {
      if slot.None? {
        return NotAuthenticated;
      }
      var s := slot.value;
      if s.client.None? || s.tokens.None? || s.expiresAt.None? {
        return ReadOnly;
      }
      if s.expiresAt.value > now + 60.0 {
        return Fresh;
      }
      p := Refreshing(s.tokens.value.account, s.tokens.value.login, s.tokens.value.refresh);
    }

    method WriteBack(account: nat, login: nat, sent: nat, grant: Grant, now: real)
      modifies this`slot
      ensures slot == Written(old(slot), account, login, sent, grant, now)
      ensures Coherent(old(slot)) ==> Coherent(slot)
    {
      if slot.Some? && slot.value.tokens.Some? {
        var refresh := if grant.refresh.Some? then grant.refresh.value else sent;
        slot := Some(slot.value.(tokens := Some(Tokens(account, login, grant.access, refresh, grant.expiresIn, now))));
      }
      if slot.Some? {
        slot := Some(slot.value.(expiresAt := Some(Deadline(now, grant.expiresIn))));
      }
    }

    /** `ensure_fresh_tokens` from end to end, when nothing comes in between; the reply comes at `later`. */
    method EnsureFresh(now: real, reply: Option<Grant>, later: real, ghost s: State, ghost id: nat) returns (p: Phase)
      requires slot == s.slot && file == s.file && id in s.commands && s.commands[id].Starting?
      modifies this`slot, this`file
      ensures var end := Refreshed(s, id, now, reply, later);
        slot == end.slot && file == end.file && p == end.commands[id]
    {
      p := CheckFresh(now);
      if p.Refreshing? {
        if reply.None? {
          return RefreshFailed;
        }
        var key := slot.value.key;
        WriteBack(p.account, p.login, p.refresh, reply.value, later);
        if file.Some? {
          file := Some(file.value.(tokenOf := p.account, sealedUnder := key));
        }
        p := Fresh;
      }
    }

    method SetPending(now: real)
      modifies this`pendingSince
      ensures pendingSince == Some(now)
    {
      pendingSince := Some(now);
    }

    /** The sweep of every watchdog round: afterwards nothing is left that is older than five minutes. */
    method ClearPendingIfStale(now: real)
      modifies this`pendingSince
      ensures pendingSince.Some? ==> now - pendingSince.value <= 300.0
      ensures pendingSince == old(pendingSince) || (pendingSince.None? && now - old(pendingSince).value > 300.0)
    {
      if pendingSince.Some? && now - pendingSince.value > 300.0 {
        pendingSince := None;
      }
    }

    /** `with_pending_two_factor`: hands the material out only while it is fresh, and drops it when it is not. */
    method UsePending(now: real) returns (used: bool)
      modifies this`pendingSince
      ensures used <==> old(pendingSince).Some? && now - old(pendingSince).value <= 300.0
      ensures pendingSince == if used then old(pendingSince) else None
    {
      if pendingSince.Some? && now - pendingSince.value > 300.0 {
        pendingSince := None;
      }
      used := pendingSince.Some?;
    }
  }

  /** All sections of one `ensure_fresh_tokens`, one after the other. */
  function Refreshed(s: State, id: nat, now: real, reply: Option<Grant>, later: real): State {
    var asked := Step(Step(s, Event(now, Check(id))), Event(later, Reply(id, reply)));
    Step(Step(Step(asked, Event(later, ReadKey(id))), Event(later, Write(id))), Event(later, SaveRefresh(id)))
  }
}
