/** Password history over updates: `build_update_cipher_body` of src-tauri/core/src/services/cipher.rs. */
module History {
  import opened Optional
  import opened Secrets

  type Entries = seq<Entry<Secret>>

  /** The part of a stored login that updates read and write. */
  datatype Stored = Stored(password: Option<Secret>, history: Option<Entries>)

  /** `enc_opt_raw`: an absent or empty text is not encrypted at all. */
  function EncryptRaw(text: string, key: Key, iv: nat): Option<Secret> {
    if text == "" then None else Some(EncryptText(text, key, iv))
  }

  /** `filter_map`: entries without a password go. */
  function Kept(history: Entries): (r: Entries)
    ensures |r| <= |history|
  {
    if history == [] then []
    else (if history[0].password.Some? then [history[0]] else []) + Kept(history[1..])
  }

  function Take5(history: Entries): Entries {
    if |history| <= 5 then history else history[..5]
  }

  /** The previous password, when it is to be remembered: it opens, is not empty, and is not the next one. */
  function Replaced(s: Stored, next: string, key: Key): Option<Secret> {
    if s.password.None? then None
    else
      var was := ReadText(s.password.value, key);
      if was.Some? && was.value != "" && was.value != next then s.password else None
  }

  function NextHistory(s: Stored, next: string, key: Key, now: string): Entries {
    var history := Kept(if s.history.Some? then s.history.value else []);
    var replaced := Replaced(s, next, key);
    Take5(if replaced.Some? then [Entry(Some(now), replaced)] + history else history)
  }

  lemma KeptCons(e: Entry<Secret>, l: Entries)
    ensures Kept([e] + l) == if e.password.Some? then [e] + Kept(l) else Kept(l)
  {
    assert ([e] + l)[1..] == l;
  }

  method KeepEntries(existing: Entries) returns (history: Entries)
    ensures history == Kept(existing)
  {
    history := [];
    for i := 0 to |existing|
      invariant history + Kept(existing[i..]) == Kept(existing)
    {
      KeptCons(existing[i], existing[i + 1..]);
      hide Kept;
      assert existing[i..] == [existing[i]] + existing[i + 1..];
      if existing[i].password.Some? {
        history := history + [existing[i]];
      }
    }
    assert existing[|existing|..] == [];
  }

  /** The history part of `build_update_cipher_body`. */
  method UpdatedHistory(s: Stored, next: string, key: Key, now: string) returns (history: Entries)
    ensures history == NextHistory(s, next, key, now)
  {
    hide Kept, ReadText;
    history := KeepEntries(if s.history.Some? then s.history.value else []);
    if s.password.Some? {
      var was := ReadText(s.password.value, key);
      if was.Some? && was.value != "" {
        if next != was.value {
          history := [Entry(Some(now), s.password)] + history;
        }
      }
    }
    if |history| > 5 {
      history := history[..5];
    }
  }

  /** The server stores what an update sends. */
  function Update(s: Stored, next: string, key: Key, iv: nat, now: string): Stored {
    Stored(EncryptRaw(next, key, iv), Some(NextHistory(s, next, key, now)))
  }

  // --------------------------------------------------------------------- runs

  /** One save: the password typed, the vector drawn, the clock. */
  datatype Save = Save(password: string, iv: nat, now: string)

  /** A login created by the first save and updated by the others. */
  function Run(saves: seq<Save>, key: Key): Stored
    requires saves != []
  {
    var last := saves[|saves| - 1];
    if |saves| == 1 then Stored(EncryptRaw(last.password, key, last.iv), None)
    else Update(Run(saves[..|saves| - 1], key), last.password, key, last.iv, last.now)
  }

  /** What should be remembered: every non-empty password the next save replaced by a different one, newest first. */
  function Remembered(saves: seq<Save>): seq<(string, string)>
    requires saves != []
  {
    if |saves| == 1 then []
    else
      var was, next := saves[|saves| - 2], saves[|saves| - 1];
      (if was.password != "" && was.password != next.password then [(next.now, was.password)] else [])
      + Remembered(saves[..|saves| - 1])
  }

  function Cut<T>(l: seq<T>): seq<T> {
    if |l| <= 5 then l else l[..5]
  }

  /** A history read with the item's key: dates and passwords. */
  ghost predicate Shows(history: Entries, key: Key, expected: seq<(string, string)>) {
    && |history| == |expected|
    && forall i :: 0 <= i < |history| ==>
      && history[i].lastUsed == Some(expected[i].0) && history[i].password.Some?
      && ReadText(history[i].password.value, key) == Some(expected[i].1)
  }

  lemma {:induction false} NothingToDrop(history: Entries)
    requires forall i :: 0 <= i < |history| ==> history[i].password.Some?
    ensures Kept(history) == history
  {
    if history != [] {
      NothingToDrop(history[1..]);
      assert history == [history[0]] + history[1..];
    }
  }

  /** After any run of saves, the history is exactly what should be remembered, cut to five. */
  lemma {:induction false} HistoryOverRuns(saves: seq<Save>, key: Key)
    requires saves != []
    ensures var s := Run(saves, key);
      && s.password == EncryptRaw(saves[|saves| - 1].password, key, saves[|saves| - 1].iv)
      && (s.password.None? <==> saves[|saves| - 1].password == "")
      && (s.password.Some? ==> ReadText(s.password.value, key) == Some(saves[|saves| - 1].password))
      && (s.history.None? <==> |saves| == 1)
      && Shows(if s.history.Some? then s.history.value else [], key, Cut(Remembered(saves)))
    decreases |saves|
  {
    if |saves| > 1 {
      var before, last := saves[..|saves| - 1], saves[|saves| - 1];
      var s := Run(before, key);
      HistoryOverRuns(before, key);
      assert before[|before| - 1] == saves[|saves| - 2];
      var was := if s.history.Some? then s.history.value else [];
      NothingToDrop(was);
      OneMore(s, was, last, key, before[|before| - 1], Remembered(before));
    }
  }

  lemma ShowsOneMore(
    was: Entries, entry: Entry<Secret>, key: Key, pair: (string, string), remembered: seq<(string, string)>)
    requires Shows(was, key, Cut(remembered)) && Shows([entry], key, [pair])
    ensures Shows(Take5([entry] + was), key, Cut([pair] + remembered))
  {
    hide ReadText;
    var all := [entry] + was;
    assert Shows(all, key, [pair] + Cut(remembered)) by {
      forall i | 0 < i < |all| ensures all[i] == was[i - 1] && ([pair] + Cut(remembered))[i] == Cut(remembered)[i - 1] {
      }
      assert all[0] == [entry][0] && ([pair] + Cut(remembered))[0] == [pair][0];
    }
    assert Cut([pair] + Cut(remembered)) == Cut([pair] + remembered);
  }

  lemma OneMore(s: Stored, was: Entries, last: Save, key: Key, previous: Save, remembered: seq<(string, string)>)
    requires s.password == EncryptRaw(previous.password, key, previous.iv)
    requires was == (if s.history.Some? then s.history.value else []) && Kept(was) == was
      && Shows(was, key, Cut(remembered))
    ensures Shows(
      NextHistory(s, last.password, key, last.now), key,
      Cut(
        (if previous.password != "" && previous.password != last.password then [(last.now, previous.password)] else [])
          + remembered))
  {
    if previous.password != "" && previous.password != last.password {
      var entry := Entry(Some(last.now), s.password);
      assert ReadText(s.password.value, key) == Some(previous.password);
      assert NextHistory(s, last.password, key, last.now) == Take5([entry] + was);
      ShowsOneMore(was, entry, key, (last.now, previous.password), remembered);
    } else {
      assert [] + remembered == remembered;
    }
  }

  /** Saving an unchanged password again never adds an entry, however it is re-encrypted. */
  lemma UnchangedAddsNothing(s: Stored, key: Key, iv: nat, now: string, password: string)
    requires s.password == EncryptRaw(password, key, iv)
    ensures NextHistory(s, password, key, now) == Take5(Kept(if s.history.Some? then s.history.value else []))
  {
  }
}
