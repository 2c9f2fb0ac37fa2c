/**
 * The batch that carries out a folder rename: `apply_folder_path_rename` of src-tauri/src/commands/move_share.rs with
 * the write-ahead log of src-tauri/core/src/cache.rs. A crash may stop it after any step.
 */
module RenameBatch {
  import FolderMove
  import opened Optional

  datatype Op = Op(folder: string, next: string)

  /** One row of the log; names are the encrypted ones, exactly as they were at hand. */
  datatype Row = Row(folder: string, original: string, next: string, applied: bool)

  type Names = map<string, string>

  datatype Phase = Saving | Sending | Flagging | Failed | Done

  /** `server` and `memory` map folder ids to names; `at` counts the operations already dealt with. */
  datatype Batch = Batch(server: Names, memory: Names, log: seq<Row>, logged: bool, phase: Phase, at: nat)

  /** How a request ends: the server may have acted even when the client sees an error. */
  datatype Outcome = Applied | LostReply | Refused

  datatype Event = Save(ok: bool) | Put(outcome: Outcome) | Flag(ok: bool) | Finish

  /** Unapplied rows for the operations whose folder is still in memory, with the names found there. */
  function Rows(ops: seq<Op>, memory: Names): seq<Row> {
    if ops == [] then []
    else
      (if ops[0].folder in memory then [Row(ops[0].folder, memory[ops[0].folder], ops[0].next, false)] else [])
      + Rows(ops[1..], memory)
  }

  /** `UPDATE … SET applied = 1 WHERE folder_id = …`. */
  function Flagged(log: seq<Row>, folder: string): (r: seq<Row>)
    ensures |r| == |log|
    ensures forall k :: 0 <= k < |log| ==> r[k] == if log[k].folder == folder then log[k].(applied := true) else log[k]
  {
    seq(|log|, k requires 0 <= k < |log| => if log[k].folder == folder then log[k].(applied := true) else log[k])
  }

  /** The names after the first `n` operations have been written over them, where the folder exists. */
  function Sent(names: Names, ops: seq<Op>, n: nat): (r: Names)
    requires n <= |ops|
    ensures r.Keys == names.Keys
  {
    if n == 0 then names
    else
      var before, op := Sent(names, ops, n - 1), ops[n - 1];
      if op.folder in before then before[op.folder := op.next] else before
  }

  function Step(ops: seq<Op>, s: Batch, e: Event): Batch {
    match e
    case Save(ok) =>
      if !s.phase.Saving? then s
      else s.(log := if ok then Rows(ops, s.memory) else [], logged := ok, phase := Sending)
    case Put(outcome) =>
      if !s.phase.Sending? || s.at >= |ops| then s
      else if outcome.Refused? || ops[s.at].folder !in s.server then s.(phase := Failed)
      else s.(
        server := s.server[ops[s.at].folder := ops[s.at].next],
        phase := if outcome.Applied? then Flagging else Failed)
    case Flag(ok) =>
      if !s.phase.Flagging? || s.at >= |ops| then s
      else s.(log := if ok then Flagged(s.log, ops[s.at].folder) else s.log, at := s.at + 1, phase := Sending)
    case Finish =>
      if !s.phase.Sending? || s.at != |ops| then s
      else s.(memory := Sent(s.memory, ops, |ops|), phase := Done)
  }

  function Start(server: Names, memory: Names): Batch {
    Batch(server, memory, [], false, Saving, 0)
  }

  /** The state after a run, the last event last. */
  function Run(ops: seq<Op>, start: Batch, events: seq<Event>): Batch {
    if events == [] then start else Step(ops, Run(ops, start, events[..|events| - 1]), events[|events| - 1])
  }

  predicate Distinct(ops: seq<Op>) {
    forall i, j :: 0 <= i < j < |ops| ==> ops[i].folder != ops[j].folder
  }

  // ---------------------------------------------------------------- invariant

  /** How many operations the server has carried out. */
  function Reached(s: Batch, extra: bool): nat {
    match s.phase
    case Flagging => s.at + 1
    case Failed => if extra then s.at + 1 else s.at
    case _ => s.at
  }

  predicate SameRows(log: seq<Row>, rows: seq<Row>) {
    |log| == |rows| && forall k :: 0 <= k < |log| ==> log[k].(applied := false) == rows[k]
  }

  predicate Behind(row: Row, ops: seq<Op>, n: nat)
    requires n <= |ops|
  {
    exists i :: 0 <= i < n && ops[i].folder == row.folder
  }

  /** `extra` says whether a failed request still reached the server. */
  predicate Inv(ops: seq<Op>, server: Names, memory: Names, s: Batch, extra: bool) {
    && s.at <= Reached(s, extra) <= |ops|
    && (s.phase.Saving? ==> s.at == 0 && !s.logged)
    && (s.phase.Done? ==> s.at == |ops|)
    && s.server == Sent(server, ops, Reached(s, extra))
    && s.memory == (if s.phase.Done? then Sent(memory, ops, |ops|) else memory)
    && (s.phase.Done? || s.phase.Flagging? || s.phase.Sending? || s.phase.Failed? ==>
          forall i :: 0 <= i < Reached(s, extra) ==> ops[i].folder in server)
    && (s.logged ==> SameRows(s.log, Rows(ops, memory)))
    && (forall k :: 0 <= k < |s.log| && s.log[k].applied ==> Behind(s.log[k], ops, s.at))
  }

  lemma {:induction false} FreshRows(ops: seq<Op>, memory: Names)
    ensures forall k :: 0 <= k < |Rows(ops, memory)| ==> !Rows(ops, memory)[k].applied
  {
    if ops != [] {
      FreshRows(ops[1..], memory);
    }
  }

  lemma FlagKeeps(ops: seq<Op>, s: Batch)
    requires s.at < |ops|
    requires forall k :: 0 <= k < |s.log| && s.log[k].applied ==> Behind(s.log[k], ops, s.at)
    ensures var log := Flagged(s.log, ops[s.at].folder);
      forall k :: 0 <= k < |log| && log[k].applied ==> Behind(log[k], ops, s.at + 1)
  {
    var log := Flagged(s.log, ops[s.at].folder);
    forall k | 0 <= k < |log| && log[k].applied ensures Behind(log[k], ops, s.at + 1) {
      if s.log[k].folder != ops[s.at].folder {
        var i :| 0 <= i < s.at && ops[i].folder == s.log[k].folder;
        assert ops[i].folder == log[k].folder;
      }
    }
  }

  lemma BehindGrows(ops: seq<Op>, log: seq<Row>, n: nat)
    requires n < |ops| && forall k :: 0 <= k < |log| && log[k].applied ==> Behind(log[k], ops, n)
    ensures forall k :: 0 <= k < |log| && log[k].applied ==> Behind(log[k], ops, n + 1)
  {
  }

  lemma PutKeeps(
    ops: seq<Op>, server: Names, memory: Names, s: Batch, outcome: Outcome, extra: bool)
    returns (extra': bool)
    requires Inv(ops, server, memory, s, extra) && s.phase.Sending? && s.at < |ops|
    ensures Inv(ops, server, memory, Step(ops, s, Put(outcome)), extra')
  {
    hide Rows, SameRows, Behind;
    extra' := !outcome.Refused? && ops[s.at].folder in s.server;
    assert Sent(server, ops, s.at + 1)
      == if ops[s.at].folder in s.server then s.server[ops[s.at].folder := ops[s.at].next] else s.server;
  }

  lemma StepKeeps(ops: seq<Op>, server: Names, memory: Names, s: Batch, e: Event, extra: bool) returns (extra': bool)
    requires Inv(ops, server, memory, s, extra)
    ensures Inv(ops, server, memory, Step(ops, s, e), extra')
  {
    extra' := extra;
    if Step(ops, s, e) != s {
      match e
      case Save(ok) => SaveKeeps(ops, server, memory, s, ok, extra);
      case Put(outcome) => extra' := PutKeeps(ops, server, memory, s, outcome, extra);
      case Flag(ok) =>
        FlagKeeps(ops, s);
        BehindGrows(ops, s.log, s.at);
        hide Behind, Rows, Sent;
      case Finish =>
        hide Behind, Rows, SameRows;
    }
  }

  lemma SaveKeeps(ops: seq<Op>, server: Names, memory: Names, s: Batch, ok: bool, extra: bool)
    requires Inv(ops, server, memory, s, extra) && s.phase.Saving?
    ensures Inv(ops, server, memory, Step(ops, s, Save(ok)), extra)
  {
    FreshRows(ops, memory);
    hide Behind, Rows, Sent;
  }

  lemma {:induction false} RunKeeps(
    ops: seq<Op>, server: Names, memory: Names, events: seq<Event>)
    returns (extra: bool)
    ensures Inv(ops, server, memory, Run(ops, Start(server, memory), events), extra)
    decreases |events|
  {
    extra := false;
    if events != [] {
      var before := Run(ops, Start(server, memory), events[..|events| - 1]);
      extra := RunKeeps(ops, server, memory, events[..|events| - 1]);
      extra := StepKeeps(ops, server, memory, before, events[|events| - 1], extra);
    }
  }

  // ------------------------------------------------------- what was sent

  /** Each name is the new one up to `n` and the old one from there on. */
  lemma {:induction false} SentName(names: Names, ops: seq<Op>, n: nat, id: string)
    requires n <= |ops| && Distinct(ops) && id in names
    ensures forall i :: 0 <= i < |ops| && ops[i].folder == id ==>
      Sent(names, ops, n)[id] == if i < n then ops[i].next else names[id]
    ensures (forall i :: 0 <= i < n ==> ops[i].folder != id) ==> Sent(names, ops, n)[id] == names[id]
  {
    if n > 0 {
      SentName(names, ops, n - 1, id);
    }
  }

  lemma {:induction false} RowIsOp(ops: seq<Op>, memory: Names, k: nat) returns (i: nat)
    requires k < |Rows(ops, memory)|
    ensures i < |ops| && ops[i].folder in memory
    ensures Rows(ops, memory)[k] == Row(ops[i].folder, memory[ops[i].folder], ops[i].next, false)
  {
    var first := if ops[0].folder in memory then 1 else 0;
    if k < first {
      i := 0;
    } else {
      var j := RowIsOp(ops[1..], memory, k - first);
      i := j + 1;
    }
  }

  lemma {:induction false} OpHasRow(ops: seq<Op>, memory: Names, i: nat) returns (k: nat)
    requires i < |ops| && ops[i].folder in memory
    ensures k < |Rows(ops, memory)|
    ensures Rows(ops, memory)[k] == Row(ops[i].folder, memory[ops[i].folder], ops[i].next, false)
  {
    var first := if ops[0].folder in memory then 1 else 0;
    if i == 0 {
      k := 0;
    } else {
      var j := OpHasRow(ops[1..], memory, i - 1);
      k := first + j;
    }
  }

  // ------------------------------------------------------------ crash safety

  /**
   * Wherever the batch stops, a row flagged as applied has its new name on the server, and every other logged row has
   * its new name or the name it had before the batch.
   */
  lemma CrashSafe(ops: seq<Op>, server: Names, memory: Names, events: seq<Event>, k: nat)
    requires Distinct(ops)
    requires var s := Run(ops, Start(server, memory), events); s.logged && k < |s.log| && s.log[k].folder in server
    ensures var s := Run(ops, Start(server, memory), events);
      && s.server.Keys == server.Keys
      && (s.log[k].applied ==> s.server[s.log[k].folder] == s.log[k].next)
      && s.server[s.log[k].folder] in {server[s.log[k].folder], s.log[k].next}
  {
    var extra := RunKeeps(ops, server, memory, events);
    var s := Run(ops, Start(server, memory), events);
    var i := RowIsOp(ops, memory, k);
    var row := s.log[k];
    assert row.(applied := false) == Rows(ops, memory)[k];
    SentName(server, ops, Reached(s, extra), row.folder);
    if row.applied {
      assert Behind(row, ops, s.at);
    }
  }

  /** Sending the new name of every row that is not flagged. */
  function Resumed(server: Names, log: seq<Row>): (r: Names)
    ensures r.Keys == server.Keys
    decreases |log|
  {
    if log == [] then server
    else
      var row, before := log[|log| - 1], Resumed(server, log[..|log| - 1]);
      if !row.applied && row.folder in before then before[row.folder := row.next] else before
  }

  /** Sending the logged original of every row. */
  function RolledBack(server: Names, log: seq<Row>): (r: Names)
    ensures r.Keys == server.Keys
    decreases |log|
  {
    if log == [] then server
    else
      var row, before := log[|log| - 1], RolledBack(server, log[..|log| - 1]);
      if row.folder in before then before[row.folder := row.original] else before
  }

  predicate DistinctRows(log: seq<Row>) {
    forall j, k :: 0 <= j < k < |log| ==> log[j].folder != log[k].folder
  }

  lemma {:induction false} ResumedName(server: Names, log: seq<Row>, id: string)
    requires DistinctRows(log) && id in server
    ensures (forall k :: 0 <= k < |log| ==> log[k].folder != id) ==> Resumed(server, log)[id] == server[id]
    ensures forall k :: 0 <= k < |log| && log[k].folder == id ==>
      Resumed(server, log)[id] == if log[k].applied then server[id] else log[k].next
    decreases |log|
  {
    if log != [] {
      var front, last := log[..|log| - 1], log[|log| - 1];
      assert forall k :: 0 <= k < |front| ==> front[k] == log[k];
      ResumedName(server, front, id);
      if last.folder == id {
        assert forall k :: 0 <= k < |front| ==> front[k].folder != id;
      }
    }
  }

  lemma {:induction false} RolledBackName(server: Names, log: seq<Row>, id: string)
    requires DistinctRows(log) && id in server
    ensures (forall k :: 0 <= k < |log| ==> log[k].folder != id) ==> RolledBack(server, log)[id] == server[id]
    ensures forall k :: 0 <= k < |log| && log[k].folder == id ==> RolledBack(server, log)[id] == log[k].original
    decreases |log|
  {
    if log != [] {
      RolledBackName(server, log[..|log| - 1], id);
    }
  }

  lemma {:induction false} RowsDistinct(ops: seq<Op>, memory: Names)
    requires Distinct(ops)
    ensures DistinctRows(Rows(ops, memory))
  {
    if ops != [] {
      RowsDistinct(ops[1..], memory);
      forall k | 0 <= k < |Rows(ops[1..], memory)| ensures Rows(ops[1..], memory)[k].folder != ops[0].folder {
        var i := RowIsOp(ops[1..], memory, k);
        assert ops[1..][i] == ops[i + 1];
      }
    }
  }

  lemma LogDistinct(ops: seq<Op>, memory: Names, log: seq<Row>)
    requires Distinct(ops) && SameRows(log, Rows(ops, memory))
    ensures DistinctRows(log)
  {
    RowsDistinct(ops, memory);
    forall j, k | 0 <= j < k < |log| ensures log[j].folder != log[k].folder {
      assert log[j].(applied := false) == Rows(ops, memory)[j] && log[k].(applied := false) == Rows(ops, memory)[k];
    }
  }

  /** No row of the log is about a folder that the batch does not rename, or that memory did not have at the save. */
  lemma NoRowFor(ops: seq<Op>, memory: Names, log: seq<Row>, id: string)
    requires SameRows(log, Rows(ops, memory))
    requires id !in memory || forall i :: 0 <= i < |ops| ==> ops[i].folder != id
    ensures forall k :: 0 <= k < |log| ==> log[k].folder != id
  {
    forall k | 0 <= k < |log| ensures log[k].folder != id {
      var i := RowIsOp(ops, memory, k);
      assert log[k].(applied := false) == Rows(ops, memory)[k];
    }
  }

  /** What resending makes of operation `i`: its new name, unless the folder was not logged and not reached. */
  predicate GetsNewName(ops: seq<Op>, server: Names, memory: Names, reached: nat, i: nat)
    requires i < |ops|
  {
    var f := ops[i].folder;
    f in server && f !in memory ==> i < reached || server[f] == ops[i].next
  }

  /**
   * From every crash point, resending what is not flagged reaches exactly the planned names, if and only if every
   * folder that had left memory before the log was saved was reached, is not on the server, or had its new name anyway.
   */
  lemma ResumeReachesPlan(ops: seq<Op>, server: Names, memory: Names, events: seq<Event>) returns (reached: nat)
    requires Distinct(ops) && Run(ops, Start(server, memory), events).logged
    ensures var s := Run(ops, Start(server, memory), events);
      && s.at <= reached <= |ops| && s.server == Sent(server, ops, reached)
      && (Resumed(s.server, s.log) == Sent(server, ops, |ops|)
          <==> forall i :: 0 <= i < |ops| ==> GetsNewName(ops, server, memory, reached, i))
  {
    var extra := RunKeeps(ops, server, memory, events);
    var s := Run(ops, Start(server, memory), events);
    reached := Reached(s, extra);
    LogDistinct(ops, memory, s.log);
    var after, plan := Resumed(s.server, s.log), Sent(server, ops, |ops|);
    forall i | 0 <= i < |ops| && ops[i].folder in server
      ensures after[ops[i].folder] == plan[ops[i].folder] <==> GetsNewName(ops, server, memory, reached, i)
    {
      ResumeOne(ops, server, memory, events, s, extra, i);
    }
    forall id | id in server && forall i :: 0 <= i < |ops| ==> ops[i].folder != id ensures after[id] == plan[id] {
      ResumeOther(ops, server, memory, s, extra, id);
    }
    hide Resumed, Sent, Run, Reached, Inv, GetsNewName;
    if after == plan {
      forall i | 0 <= i < |ops| ensures GetsNewName(ops, server, memory, reached, i) {
        NotOnServer(ops, server, memory, reached, i);
      }
    } else {
      var id :| id in server && after[id] != plan[id];
    }
  }

  lemma NotOnServer(ops: seq<Op>, server: Names, memory: Names, reached: nat, i: nat)
    requires i < |ops|
    ensures ops[i].folder !in server ==> GetsNewName(ops, server, memory, reached, i)
  {
  }

  lemma ResumeOne(ops: seq<Op>, server: Names, memory: Names, events: seq<Event>, s: Batch, extra: bool, i: nat)
    requires Distinct(ops) && i < |ops| && ops[i].folder in server && s == Run(ops, Start(server, memory), events)
    requires s.logged && Inv(ops, server, memory, s, extra) && DistinctRows(s.log)
    ensures Resumed(s.server, s.log)[ops[i].folder] == Sent(server, ops, |ops|)[ops[i].folder]
      <==> GetsNewName(ops, server, memory, Reached(s, extra), i)
  {
    var id := ops[i].folder;
    SentName(server, ops, |ops|, id);
    SentName(server, ops, Reached(s, extra), id);
    ResumedName(s.server, s.log, id);
    if id in memory {
      var k := OpHasRow(ops, memory, i);
      assert s.log[k].(applied := false) == Rows(ops, memory)[k];
      CrashSafe(ops, server, memory, events, k);
    } else {
      NoRowFor(ops, memory, s.log, id);
    }
  }

  lemma ResumeOther(ops: seq<Op>, server: Names, memory: Names, s: Batch, extra: bool, id: string)
    requires Distinct(ops) && id in server && forall i :: 0 <= i < |ops| ==> ops[i].folder != id
    requires s.logged && Inv(ops, server, memory, s, extra) && DistinctRows(s.log)
    ensures Resumed(s.server, s.log)[id] == Sent(server, ops, |ops|)[id]
  {
    SentName(server, ops, |ops|, id);
    SentName(server, ops, Reached(s, extra), id);
    ResumedName(s.server, s.log, id);
    NoRowFor(ops, memory, s.log, id);
  }

  /** Every logged original is the name the server had before the batch. */
  predicate OriginalsFaithful(server: Names, log: seq<Row>) {
    forall k :: 0 <= k < |log| && log[k].folder in server ==> log[k].original == server[log[k].folder]
  }

  /** Of the folders of the batch that memory and server have, memory had the server's own name before the batch. */
  predicate MemoryFaithful(ops: seq<Op>, server: Names, memory: Names) {
    forall i :: 0 <= i < |ops| && ops[i].folder in server && ops[i].folder in memory ==>
      memory[ops[i].folder] == server[ops[i].folder]
  }

  /** What was logged is what memory had. */
  lemma LogIsFaithfulExactly(ops: seq<Op>, server: Names, memory: Names, log: seq<Row>)
    requires SameRows(log, Rows(ops, memory))
    ensures OriginalsFaithful(server, log) <==> MemoryFaithful(ops, server, memory)
  {
    hide Rows;
    forall k | 0 <= k < |log|
      ensures exists i ::
        && 0 <= i < |ops| && ops[i].folder == log[k].folder
        && ops[i].folder in memory && memory[ops[i].folder] == log[k].original
    {
      var i := RowIsOp(ops, memory, k);
      assert log[k].(applied := false) == Rows(ops, memory)[k];
    }
    if OriginalsFaithful(server, log) {
      forall i | 0 <= i < |ops| && ops[i].folder in server && ops[i].folder in memory
        ensures memory[ops[i].folder] == server[ops[i].folder]
      {
        var k := OpHasRow(ops, memory, i);
        assert log[k].(applied := false) == Rows(ops, memory)[k];
      }
    }
  }

  /** What rolling back makes of operation `i`: the name the server had, from the log or because it was not reached. */
  predicate GetsOldName(ops: seq<Op>, server: Names, memory: Names, reached: nat, i: nat)
    requires i < |ops|
  {
    var f := ops[i].folder;
    f in server ==> if f in memory then memory[f] == server[f] else i >= reached || ops[i].next == server[f]
  }

  /**
   * From every crash point, resending all originals restores the server exactly when memory held the server's own name
   * of every logged folder, and no folder that had left memory was reached. A folder created since the last sync sits
   * in memory in plain text, so the condition is not idle.
   */
  lemma RollbackRestores(ops: seq<Op>, server: Names, memory: Names, events: seq<Event>) returns (reached: nat)
    requires Distinct(ops) && Run(ops, Start(server, memory), events).logged
    ensures var s := Run(ops, Start(server, memory), events);
      && s.at <= reached <= |ops| && s.server == Sent(server, ops, reached)
      && (RolledBack(s.server, s.log) == server
          <==> forall i :: 0 <= i < |ops| ==> GetsOldName(ops, server, memory, reached, i))
  {
    var extra := RunKeeps(ops, server, memory, events);
    var s := Run(ops, Start(server, memory), events);
    reached := Reached(s, extra);
    LogDistinct(ops, memory, s.log);
    var back := RolledBack(s.server, s.log);
    forall i | 0 <= i < |ops| && ops[i].folder in server
      ensures back[ops[i].folder] == server[ops[i].folder] <==> GetsOldName(ops, server, memory, reached, i)
    {
      RollbackOne(ops, server, memory, s, extra, i);
    }
    forall id | id in server && forall i :: 0 <= i < |ops| ==> ops[i].folder != id ensures back[id] == server[id] {
      SentName(server, ops, reached, id);
      RolledBackName(s.server, s.log, id);
      NoRowFor(ops, memory, s.log, id);
    }
    hide RolledBack, Sent, Run, Reached, Inv;
    if back != server {
      var id :| id in server && back[id] != server[id];
    }
  }

  lemma RollbackOne(ops: seq<Op>, server: Names, memory: Names, s: Batch, extra: bool, i: nat)
    requires Distinct(ops) && i < |ops| && ops[i].folder in server
    requires s.logged && Inv(ops, server, memory, s, extra) && DistinctRows(s.log)
    ensures RolledBack(s.server, s.log)[ops[i].folder] == server[ops[i].folder]
      <==> GetsOldName(ops, server, memory, Reached(s, extra), i)
  {
    var id := ops[i].folder;
    SentName(server, ops, Reached(s, extra), id);
    RolledBackName(s.server, s.log, id);
    if id in memory {
      var k := OpHasRow(ops, memory, i);
      assert s.log[k].(applied := false) == Rows(ops, memory)[k];
    } else {
      NoRowFor(ops, memory, s.log, id);
    }
  }

  /** A folder that memory still holds in plain text is not restored. */
  lemma PlaintextOriginalIsLost() returns (ops: seq<Op>, server: Names, memory: Names, events: seq<Event>)
    ensures Distinct(ops)
    ensures var s := Run(ops, Start(server, memory), events); s.logged && RolledBack(s.server, s.log) != server
  {
    ops, server, memory := [Op("id", "2.new")], map["id" := "2.old"], map["id" := "old"];
    events := [Save(true)];
    var s := Run(ops, Start(server, memory), events);
    assert events[..0] == [];
    assert Rows(ops[1..], memory) == [];
    assert s.log == [Row("id", "old", "2.new", false)];
    var reached := RollbackRestores(ops, server, memory, events);
    assert !GetsOldName(ops, server, memory, reached, 0);
  }

  /** A folder that left memory before the log was saved is renamed all the same, and nothing brings its name back. */
  lemma UnloggedRenameIsLost() returns (ops: seq<Op>, server: Names, events: seq<Event>)
    ensures Distinct(ops)
    ensures var s := Run(ops, Start(server, map[]), events);
      s.logged && s.phase.Done? && RolledBack(s.server, s.log) != server
  {
    ops, server := [Op("id", "2.new")], map["id" := "2.old"];
    events := [Save(true), Put(Applied), Flag(true), Finish];
    assert events[..3][..2][..1] == [Save(true)] && events[..3][..2] == [Save(true), Put(Applied)];
    assert events[..3] == [Save(true), Put(Applied), Flag(true)] && events[..0] == [] == [Save(true)][..0];
    assert Rows(ops[1..], map[]) == [];
    var s1 := Run(ops, Start(server, map[]), [Save(true)]);
    assert s1.log == [] && s1.logged && s1.phase.Sending?;
    var s2 := Step(ops, s1, Put(Applied));
    assert Run(ops, Start(server, map[]), [Save(true), Put(Applied)]) == s2;
    var s3 := Step(ops, s2, Flag(true));
    assert Run(ops, Start(server, map[]), events[..3]) == s3 && s3.at == 1;
    assert s3.server["id"] == "2.new";
  }

  /** When the batch ends well, the server has every planned name and memory shows the server's names. */
  lemma SuccessAgrees(ops: seq<Op>, server: Names, memory: Names, events: seq<Event>, i: nat)
    requires Distinct(ops) && i < |ops| && Run(ops, Start(server, memory), events).phase.Done?
    ensures var s := Run(ops, Start(server, memory), events);
      && s.server == Sent(server, ops, |ops|)
      && ops[i].folder in s.server && s.server[ops[i].folder] == ops[i].next
      && (ops[i].folder in s.memory ==> s.memory[ops[i].folder] == s.server[ops[i].folder])
  {
    var extra := RunKeeps(ops, server, memory, events);
    var s := Run(ops, Start(server, memory), events);
    assert ops[i].folder in server;
    SentName(server, ops, |ops|, ops[i].folder);
    if ops[i].folder in memory {
      SentName(memory, ops, |ops|, ops[i].folder);
    }
  }

  // ------------------------------------------------------- the log is optional

  function WithoutLogging(e: Event): Event {
    match e
    case Save(_) => Save(false)
    case Flag(_) => Flag(false)
    case _ => e
  }

  function AllWithoutLogging(events: seq<Event>): (r: seq<Event>)
    ensures |r| == |events|
  {
    if events == [] then [] else AllWithoutLogging(events[..|events| - 1]) + [WithoutLogging(events[|events| - 1])]
  }

  predicate SameButLog(a: Batch, b: Batch) {
    a.server == b.server && a.memory == b.memory && a.phase == b.phase && a.at == b.at
  }

  lemma SameButLogStep(ops: seq<Op>, a: Batch, b: Batch, e: Event)
    requires SameButLog(a, b)
    ensures SameButLog(Step(ops, a, e), Step(ops, b, WithoutLogging(e)))
  {
  }

  /** Failing log writes change nothing but the log: the same requests are sent and the same names end up everywhere. */
  lemma {:induction false} LogFailuresAreHarmless(ops: seq<Op>, start: Batch, events: seq<Event>)
    ensures SameButLog(Run(ops, start, events), Run(ops, start, AllWithoutLogging(events)))
    decreases |events|
  {
    if events != [] {
      var before, all := events[..|events| - 1], AllWithoutLogging(events);
      LogFailuresAreHarmless(ops, start, before);
      assert all == AllWithoutLogging(before) + [WithoutLogging(events[|events| - 1])];
      assert all[..|all| - 1] == AllWithoutLogging(before);
      SameButLogStep(ops, Run(ops, start, before), Run(ops, start, AllWithoutLogging(before)), events[|events| - 1]);
      hide Step, WithoutLogging;
    }
  }

  // --------------------------------------------------------- from plan to batch

  /** The operations of a move: the planned names, each encrypted anew. */
  function Operations(plan: seq<FolderMove.Folder>, encrypt: string -> string): (ops: seq<Op>)
    ensures |ops| == |plan|
    ensures forall i :: 0 <= i < |plan| ==> ops[i] == Op(plan[i].id, encrypt(plan[i].name))
  {
    if plan == [] then [] else [Op(plan[0].id, encrypt(plan[0].name))] + Operations(plan[1..], encrypt)
  }

  lemma {:induction false} PlanFrom(
    folders: seq<FolderMove.Folder>, source: string, base: string, i: nat)
    returns (j: nat)
    requires i < |FolderMove.Plan(folders, source, base)|
    ensures j < |folders| && folders[j].id == FolderMove.Plan(folders, source, base)[i].id
  {
    var first := if FolderMove.Renamed(folders[0].name, source, base).Some? then 1 else 0;
    if i < first {
      j := 0;
    } else {
      var k := PlanFrom(folders[1..], source, base, i - first);
      j := k + 1;
    }
  }

  lemma {:induction false} OperationsDistinct(
    folders: seq<FolderMove.Folder>, source: string, base: string, encrypt: string -> string)
    requires FolderMove.DistinctIds(folders)
    ensures Distinct(Operations(FolderMove.Plan(folders, source, base), encrypt))
  {
    if folders != [] {
      OperationsDistinct(folders[1..], source, base, encrypt);
      var plan, rest := FolderMove.Plan(folders, source, base), FolderMove.Plan(folders[1..], source, base);
      if FolderMove.Renamed(folders[0].name, source, base).Some? {
        assert plan[1..] == rest;
        forall i | 0 <= i < |rest| ensures rest[i].id != folders[0].id {
          var j := PlanFrom(folders[1..], source, base, i);
          assert folders[1..][j] == folders[j + 1];
        }
      } else {
        assert plan == rest;
      }
    }
  }

  lemma {:induction false} PlannedAt(plan: seq<FolderMove.Folder>, id: string) returns (i: nat)
    requires FolderMove.Look(plan, id).Some?
    ensures i < |plan| && plan[i] == FolderMove.Folder(id, FolderMove.Look(plan, id).value)
  {
    if plan[0].id == id {
      i := 0;
    } else {
      var j := PlannedAt(plan[1..], id);
      i := j + 1;
    }
  }

  /** A move that ends well leaves every folder of the subtree on the server under its rewritten path, encrypted. */
  lemma MoveSucceeds(
    folders: seq<FolderMove.Folder>, source: string, base: string, encrypt: string -> string,
    server: Names, memory: Names, events: seq<Event>, k: nat)
    requires FolderMove.DistinctIds(folders) && k < |folders| && FolderMove.Under(folders[k].name, source)
    requires var ops := Operations(FolderMove.Plan(folders, source, base), encrypt);
      Run(ops, Start(server, memory), events).phase.Done?
    ensures var s := Run(Operations(FolderMove.Plan(folders, source, base), encrypt), Start(server, memory), events);
      && folders[k].id in s.server
      && s.server[folders[k].id] == encrypt(FolderMove.Renamed(folders[k].name, source, base).value)
  {
    var plan := FolderMove.Plan(folders, source, base);
    FolderMove.PlanCovers(folders, source, base, k);
    OperationsDistinct(folders, source, base, encrypt);
    var i := PlannedAt(plan, folders[k].id);
    SuccessAgrees(Operations(plan, encrypt), server, memory, events, i);
  }

  // ------------------------------------------------------------- the loop itself

  function Rounds(puts: seq<Outcome>, flags: seq<bool>, n: nat): seq<Event>
    requires n <= |puts| == |flags|
  {
    if n == 0 then [] else Rounds(puts, flags, n - 1) + [Put(puts[n - 1]), Flag(flags[n - 1])]
  }

  /** Everything the loop attempts; what comes after a failed request has no effect. */
  function Script(saved: bool, puts: seq<Outcome>, flags: seq<bool>, n: nat): seq<Event>
    requires n <= |puts| == |flags|
  {
    [Save(saved)] + Rounds(puts, flags, n)
  }

  lemma RunAppend(ops: seq<Op>, start: Batch, events: seq<Event>, e: Event)
    ensures Run(ops, start, events + [e]) == Step(ops, Run(ops, start, events), e)
  {
    assert (events + [e])[..|events|] == events;
  }

  lemma NextRound(ops: seq<Op>, start: Batch, saved: bool, puts: seq<Outcome>, flags: seq<bool>, n: nat)
    requires n < |puts| == |flags|
    ensures Run(ops, start, Script(saved, puts, flags, n + 1))
      == Step(ops, Step(ops, Run(ops, start, Script(saved, puts, flags, n)), Put(puts[n])), Flag(flags[n]))
  {
    var events := Script(saved, puts, flags, n);
    assert Script(saved, puts, flags, n + 1) == events + [Put(puts[n])] + [Flag(flags[n])];
    RunAppend(ops, start, events, Put(puts[n]));
    RunAppend(ops, start, events + [Put(puts[n])], Flag(flags[n]));
  }

  lemma FirstRound(ops: seq<Op>, start: Batch, saved: bool, puts: seq<Outcome>, flags: seq<bool>)
    requires |puts| == |flags|
    ensures Run(ops, start, Script(saved, puts, flags, 0)) == Step(ops, start, Save(saved))
  {
    assert Script(saved, puts, flags, 0) == [] + [Save(saved)];
    RunAppend(ops, start, [], Save(saved));
  }

  lemma {:induction false} FailedStays(
    ops: seq<Op>, start: Batch, saved: bool, puts: seq<Outcome>, flags: seq<bool>, n: nat, m: nat)
    requires n <= m <= |puts| == |flags| && Run(ops, start, Script(saved, puts, flags, n)).phase.Failed?
    ensures Run(ops, start, Script(saved, puts, flags, m)) == Run(ops, start, Script(saved, puts, flags, n))
    decreases m
  {
    if n < m {
      FailedStays(ops, start, saved, puts, flags, n, m - 1);
      NextRound(ops, start, saved, puts, flags, m - 1);
    }
  }

  /** The client's side of the batch, and the server it talks to. */
  class Client {
    var server: Names
    var memory: Names
    var log: seq<Row>

    ghost predicate Shows(s: Batch)
      reads this
    {
      server == s.server && memory == s.memory && log == s.log
    }

    /** One `update_folder_name` request. */
    method Send(op: Op, outcome: Outcome) returns (ok: bool)
      modifies this`server
      ensures server ==
        if outcome.Refused? || op.folder !in old(server) then old(server) else old(server)[op.folder := op.next]
      ensures ok <==> outcome.Applied? && op.folder in old(server)
    {
      ok := outcome.Applied? && op.folder in server;
      if !outcome.Refused? && op.folder in server {
        server := server[op.folder := op.next];
      }
    }

    method SaveBatch(ops: seq<Op>, saved: bool)
      modifies this`log
      ensures log == if saved then Rows(ops, memory) else []
    {
      var rows: seq<Row> := [];
      for i := 0 to |ops|
        invariant rows + Rows(ops[i..], memory) == Rows(ops, memory)
      {
        assert ops[i..][1..] == ops[i + 1..];
        if ops[i].folder in memory {
          rows := rows + [Row(ops[i].folder, memory[ops[i].folder], ops[i].next, false)];
        }
      }
      log := if saved then rows else [];
    }

    /** The last section: every renamed folder that is still in memory gets its new name. */
    method StampMemory(ops: seq<Op>)
      modifies this`memory
      ensures memory == Sent(old(memory), ops, |ops|)
    {
      for i := 0 to |ops|
        invariant memory == Sent(old(memory), ops, i)
      {
        if ops[i].folder in memory {
          memory := memory[ops[i].folder := ops[i].next];
        }
      }
    }

    /** One round: the request, and the flag if the request succeeded. */
    method Round(op: Op, put: Outcome, flag: bool, ghost ops: seq<Op>, ghost s: Batch) returns (ok: bool)
      requires Shows(s) && s.phase.Sending? && s.at < |ops| && op == ops[s.at]
      modifies this`server, this`log
      ensures var sent := Step(ops, s, Put(put));
        && (ok <==> sent.phase.Flagging?) && (!ok ==> sent.phase.Failed? && Step(ops, sent, Flag(flag)) == sent)
        && Shows(Step(ops, sent, Flag(flag)))
    {
      hide Rows, Sent;
      ok := Send(op, put);
      if ok && flag {
        log := Flagged(log, op.folder);
      }
    }

    /** `apply_folder_path_rename`: the loop does, request by request, what the step functions say. */
    method Apply(ops: seq<Op>, saved: bool, puts: seq<Outcome>, flags: seq<bool>) returns (ok: bool)
      requires |puts| == |flags| == |ops|
      modifies this
      ensures var end := Run(ops, Start(old(server), old(memory)), Script(saved, puts, flags, |ops|) + [Finish]);
        Shows(end) && (ok <==> end.phase.Done?)
    {
      hide Run, Script, Rounds, Sent, Rows, Flagged, Step, Start;
      ghost var start := Start(server, memory);
      ghost var s := Step(ops, start, Save(saved));
      FirstRound(ops, start, saved, puts, flags);
      SavingIs(ops, server, memory, saved);
      SaveBatch(ops, saved);
      for i := 0 to |ops|
        invariant s == Run(ops, start, Script(saved, puts, flags, i))
        invariant Shows(s) && s.at == i && s.phase.Sending?
      {
        NextRound(ops, start, saved, puts, flags, i);
        SentAndFlagged(ops, s, puts[i], flags[i]);
        ok := Round(ops[i], puts[i], flags[i], ops, s);
        s := Step(ops, Step(ops, s, Put(puts[i])), Flag(flags[i]));
        if !ok {
          FailedStays(ops, start, saved, puts, flags, i + 1, |ops|);
          FinishAfterFailure(ops, s);
          RunAppend(ops, start, Script(saved, puts, flags, |ops|), Finish);
          return;
        }
      }
      FinishAfterSuccess(ops, s);
      RunAppend(ops, start, Script(saved, puts, flags, |ops|), Finish);
      StampMemory(ops);
      ok := true;
    }
  }

  lemma SavingIs(ops: seq<Op>, server: Names, memory: Names, saved: bool)
    ensures var s := Step(ops, Start(server, memory), Save(saved));
      && s.server == server && s.memory == memory && s.log == (if saved then Rows(ops, memory) else [])
      && s.phase.Sending? && s.at == 0
  {
  }

  lemma SentAndFlagged(ops: seq<Op>, s: Batch, put: Outcome, flag: bool)
    requires s.phase.Sending? && s.at < |ops|
    ensures var sent := Step(ops, s, Put(put)); var next := Step(ops, sent, Flag(flag));
      sent.phase.Flagging? ==> next.phase.Sending? && next.at == s.at + 1
  {
  }

  lemma FinishAfterFailure(ops: seq<Op>, s: Batch)
    requires s.phase.Failed?
    ensures Step(ops, s, Finish) == s
  {
  }

  lemma FinishAfterSuccess(ops: seq<Op>, s: Batch)
    requires s.phase.Sending? && s.at == |ops|
    ensures Step(ops, s, Finish) == s.(memory := Sent(s.memory, ops, |ops|), phase := Done)
  {
  }
}
