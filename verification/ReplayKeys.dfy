/** Checkpoint rows of the feedback recordings (runner/diagnostic_replay.c): the recorder that writes
    them, and the player that counts a checkpoint's uses in advance and holds it from its K row to its
    last R row. A log is a sequence of parsed rows. */
module ReplayKeys {
  const MAX_TEXT: nat := 64 * 1024 * 1024
  const MAX_KEYS: nat := 1000000
  const MAX_CACHE: nat := 256 * 1024 * 1024
  const ALL_ONES: nat := 0xFFFF_FFFF

  /** K id, R id, the I row that opens a tick, the H row that closes it, and W or P. */
  datatype Row = Checkpoint(id: nat) | Restore(id: nat) | Input(text: nat) | Result | Aux(text: nat)

  function Digits(n: nat): (d: nat)
    ensures d >= 1
  {
    if n < 10 then 1 else 1 + Digits(n / 10)
  }

  function Pow10(d: nat): (p: nat)
    ensures p > 0
  {
    if d == 0 then 1 else 10 * Pow10(d - 1)
  }

  /** As many digits as the number needs in decimal. */
  lemma {:induction false} DigitsCount(n: nat)
    requires n > 0
    ensures Pow10(Digits(n) - 1) <= n < Pow10(Digits(n))
  {
    if n >= 10 {
      DigitsCount(n / 10);
    } else {
      assert Pow10(1) == 10 * Pow10(0);
    }
  }

  /** Bytes charged against MAX_TEXT. */
  function Length(r: Row): nat
  {
    match r
    case Checkpoint(id) => 3 + Digits(id)
    case Restore(id) => 3 + Digits(id)
    case Input(n) => n
    case Result => 64
    case Aux(n) => n
  }

  function TextOf(log: seq<Row>): nat
  {
    if log == [] then 0 else TextOf(log[..|log| - 1]) + Length(log[|log| - 1])
  }

  /** Checkpoints in a log. */
  function Keys(log: seq<Row>): nat
  {
    if log == [] then 0 else Keys(log[..|log| - 1]) + if log[|log| - 1].Checkpoint? then 1 else 0
  }

  /** The last I row has no H row yet. */
  predicate InTick(log: seq<Row>)
  {
    log != [] && (log[|log| - 1].Input? || (!log[|log| - 1].Result? && InTick(log[..|log| - 1])))
  }

  /** Restores of one checkpoint in a log. */
  function Uses(log: seq<Row>, id: nat): nat
  {
    if log == [] then 0 else (if log[0] == Restore(id) then 1 else 0) + Uses(log[1..], id)
  }

  /** The row may follow the log, as far as the recorder sees to it. */
  predicate Follows(log: seq<Row>, r: Row)
  {
    match r
    case Checkpoint(id) => id == Keys(log) + 1 && id <= MAX_KEYS && !InTick(log)
    case Restore(id) => 1 <= id <= Keys(log) && !InTick(log)
    case Result => InTick(log)
    case _ => true
  }

  predicate Recorded(log: seq<Row>)
  {
    log == [] || (Recorded(log[..|log| - 1]) && Follows(log[..|log| - 1], log[|log| - 1]))
  }

  lemma {:induction false} Appended(log: seq<Row>, r: Row)
    ensures Recorded(log + [r]) == (Recorded(log) && Follows(log, r))
    ensures Keys(log + [r]) == Keys(log) + if r.Checkpoint? then 1 else 0
    ensures InTick(log + [r]) == (r.Input? || (!r.Result? && InTick(log)))
    ensures TextOf(log + [r]) == TextOf(log) + Length(r)
  {
    assert (log + [r])[..|log|] == log;
  }

  // ---- the recorder ------------------------------------------------------------------

  class Recorder {
    var active: bool
    var pending: bool
    var failed: bool
    var textBytes: nat
    var keyId: nat
    var log: seq<Row>

    constructor (header: nat)
      requires header <= MAX_TEXT
      ensures Valid() && active && !pending && log == []
    {
      active, pending, failed, textBytes, keyId, log := true, false, false, header, 0, [];
    }

    ghost predicate Valid()
      reads this
    {
      && Recorded(log)
      && TextOf(log) <= textBytes && TextOf(log) <= MAX_TEXT && keyId <= MAX_KEYS
      && (active ==> textBytes <= MAX_TEXT && Keys(log) == keyId && pending == InTick(log))
      && (!active ==> !pending) && (failed ==> !active)
    }

    method Fail()
      modifies this`failed, this`active, this`pending
      ensures failed && !active && !pending
    {
      failed, active, pending := true, false, false;
    }

    /** One row; `written` is whether the writer thread took it. */
    method Line(row: Row, written: bool) returns (ok: bool)
      requires active ==> textBytes <= MAX_TEXT
      modifies this`failed, this`active, this`pending, this`textBytes, this`log
      ensures ok == (old(active) && Length(row) <= MAX_TEXT - old(textBytes) && written)
      ensures ok ==> log == old(log) + [row] && textBytes == old(textBytes) + Length(row)
      ensures ok ==> textBytes <= MAX_TEXT && active && pending == old(pending) && failed == old(failed)
      ensures !ok ==> log == old(log) && !active && textBytes >= old(textBytes)
      ensures !ok ==> pending == (!old(active) && old(pending))
    {
      if !active { return false; }
      if Length(row) > MAX_TEXT - textBytes {
        Fail();
        return false;
      }
      textBytes := textBytes + Length(row);
      if !written {
        Fail();
        return false;
      }
      log := log + [row];
      return true;
    }

    /** genesis_replay_snapshot_saved: every checkpoint of a live recording gets the next number. */
    method SnapshotSaved(written: bool) returns (token: nat)
      requires Valid()
      modifies this
      ensures Valid()
      ensures active ==> old(active) && token == old(keyId) + 1 && log == old(log) + [Checkpoint(token)]
      ensures !active ==> log == old(log)
      ensures active <==> old(active) && !old(pending) && old(keyId) < MAX_KEYS && written
                          && Length(Checkpoint(old(keyId) + 1)) <= MAX_TEXT - old(textBytes)
    {
      if !active { return 0; }
      if pending {
        Fail();
        return 0;
      }
      if keyId >= MAX_KEYS {
        Fail();
        return 0;
      }
      keyId := keyId + 1;
      Appended(log, Checkpoint(keyId));
      var _ := Line(Checkpoint(keyId), written);
      return keyId;
    }

    /** genesis_replay_snapshot_loaded: only a checkpoint this recording wrote may be restored. */
    method SnapshotLoaded(id: nat, written: bool)
      requires Valid()
      modifies this
      ensures Valid() && keyId == old(keyId)
      ensures active ==> old(active) && 1 <= id <= keyId && log == old(log) + [Restore(id)]
      ensures !active ==> log == old(log)
      ensures active <==> old(active) && !old(pending) && 1 <= id <= keyId && written
                          && Length(Restore(id)) <= MAX_TEXT - old(textBytes)
    {
      if !active { return; }
      if pending || id == 0 || id > keyId {
        Fail();
        return;
      }
      Appended(log, Restore(id));
      var _ := Line(Restore(id), written);
    }

    /** The W and P rows, which the recorder writes without asking whether a tick is open. */
    method Note(text: nat, written: bool)
      requires Valid()
      modifies this
      ensures Valid() && keyId == old(keyId)
      ensures active <==> old(active) && text <= MAX_TEXT - old(textBytes) && written
      ensures active ==> log == old(log) + [Aux(text)] && pending == old(pending)
      ensures !active ==> log == old(log)
    {
      if active {
        Appended(log, Aux(text));
        var _ := Line(Aux(text), written);
      }
    }

    /** The recording half of genesis_replay_begin. */
    method Begin(text: nat, written: bool)
      requires Valid()
      modifies this
      ensures Valid() && keyId == old(keyId)
      ensures active <==> old(active) && text <= MAX_TEXT - old(textBytes) && written
      ensures active ==> pending && log == old(log) + [Input(text)]
      ensures !active ==> log == old(log)
    {
      if !active { return; }
      Appended(log, Input(text));
      var ok := Line(Input(text), written);
      pending := ok;
    }

    /** The recording half of genesis_replay_end. */
    method End(written: bool)
      requires Valid()
      modifies this
      ensures Valid() && keyId == old(keyId) && !pending
      ensures active <==> old(active) && (old(pending) ==> old(textBytes) + 64 <= MAX_TEXT && written)
      ensures log == old(log) + (if active && old(pending) then [Result] else [])
    {
      if !pending || failed {
        return;
      }
      pending := false;
      textBytes := textBytes + 64;
      if textBytes > MAX_TEXT {
        Fail();
        return;
      }
      if !written {
        Fail();
        return;
      }
      Appended(log, Result);
      log := log + [Result];
    }
  }

  // ---- prefixes of a recorded log ----------------------------------------------------

  lemma {:induction false} RecordedPrefix(log: seq<Row>, p: nat)
    requires Recorded(log) && p <= |log|
    ensures Recorded(log[..p]) && Keys(log[..p]) <= Keys(log)
    decreases |log|
  {
    if p == |log| {
      assert log[..p] == log;
    } else {
      RecordedPrefix(log[..|log| - 1], p);
      assert log[..|log| - 1][..p] == log[..p];
    }
  }

  lemma {:induction false} LastFollows(front: seq<Row>, r: Row, log: seq<Row>)
    requires log == front + [r] && Recorded(log)
    ensures Follows(front, r)
    ensures Keys(log) == Keys(front) + if r.Checkpoint? then 1 else 0
    ensures InTick(log) == (r.Input? || (!r.Result? && InTick(front)))
  {
    Appended(front, r);
  }

  /** Row p of a recorded log follows the rows before it. */
  lemma {:induction false} RowFollows(log: seq<Row>, p: nat)
    requires Recorded(log) && p < |log|
    ensures Follows(log[..p], log[p])
    ensures Keys(log[..p + 1]) == Keys(log[..p]) + (if log[p].Checkpoint? then 1 else 0) <= Keys(log)
    ensures InTick(log[..p + 1]) == (log[p].Input? || (!log[p].Result? && InTick(log[..p])))
  {
    RecordedPrefix(log, p + 1);
    assert log[..p + 1] == log[..p] + [log[p]];
    LastFollows(log[..p], log[p], log[..p + 1]);
  }

  lemma {:induction false} UsesAppend(a: seq<Row>, r: Row, id: nat)
    ensures Uses(a + [r], id) == Uses(a, id) + if r == Restore(id) then 1 else 0
  {
    if a != [] {
      UsesAppend(a[1..], r, id);
      assert (a + [r])[1..] == a[1..] + [r];
    }
  }

  lemma {:induction false} UsesBounded(log: seq<Row>, id: nat)
    ensures 4 * Uses(log, id) <= TextOf(log)
  {
    if log != [] {
      var n := |log| - 1;
      UsesBounded(log[..n], id);
      UsesAppend(log[..n], log[n], id);
      assert log == log[..n] + [log[n]];
    }
  }

  // ---- the first pass ----------------------------------------------------------------

  /** What scan_keys demands of the K rows, of one R row, and of the counts. */
  predicate KeysInOrder(log: seq<Row>)
  {
    log == [] || (KeysInOrder(log[..|log| - 1])
                  && (log[|log| - 1].Checkpoint? ==> log[|log| - 1].id == Keys(log) <= MAX_KEYS))
  }

  predicate RestoresInRange(log: seq<Row>, top: nat)
  {
    forall i :: 0 <= i < |log| && log[i].Restore? ==> 1 <= log[i].id <= top
  }

  ghost predicate Scannable(log: seq<Row>)
  {
    KeysInOrder(log) && RestoresInRange(log, Keys(log)) && forall id :: Uses(log, id) <= ALL_ONES
  }

  lemma {:induction false} RecordedInOrder(log: seq<Row>)
    requires Recorded(log)
    ensures KeysInOrder(log) && RestoresInRange(log, Keys(log))
  {
    if log != [] {
      var n := |log| - 1;
      RecordedInOrder(log[..n]);
      forall i | 0 <= i < |log| && log[i].Restore? ensures 1 <= log[i].id <= Keys(log) {
        assert i < n ==> log[..n][i] == log[i];
      }
    }
  }

  /** A log that passes has at most a million checkpoints, numbered from one. */
  lemma {:induction false} KeysLimited(log: seq<Row>)
    requires KeysInOrder(log)
    ensures Keys(log) <= 1000000
  {
    if log != [] { KeysLimited(log[..|log| - 1]); }
  }

  /** Whatever the recorder writes passes the first pass: the text limit alone keeps the counts well
      below 32 bits. */
  lemma {:induction false} RecordedScannable(log: seq<Row>)
    requires Recorded(log) && TextOf(log) <= MAX_TEXT
    ensures Scannable(log)
  {
    RecordedInOrder(log);
    forall id ensures Uses(log, id) <= ALL_ONES {
      UsesBounded(log, id);
    }
  }

  // ---- the player --------------------------------------------------------------------

  /** A ReplayKey: whether its blob is held, the two sizes, and restores still to come. */
  datatype Key = Key(held: bool, size: nat, presentation: nat, uses: nat)

  function Weight(k: Key): nat { if k.held then k.size + k.presentation else 0 }

  function HeldBytes(keys: seq<Key>): nat
  {
    if keys == [] then 0 else HeldBytes(keys[..|keys| - 1]) + Weight(keys[|keys| - 1])
  }

  lemma {:induction false} HeldUpdate(keys: seq<Key>, i: nat, k: Key)
    requires i < |keys|
    ensures HeldBytes(keys[i := k]) == HeldBytes(keys) - Weight(keys[i]) + Weight(k)
  {
    var n := |keys| - 1;
    if i < n {
      HeldUpdate(keys[..n], i, k);
      assert keys[i := k][..n] == keys[..n][i := k];
    } else {
      assert keys[i := k][..n] == keys[..n];
    }
  }

  lemma {:induction false} NothingHeld(keys: seq<Key>)
    requires forall i :: 0 <= i < |keys| ==> !keys[i].held
    ensures HeldBytes(keys) == 0
  {
    if keys != [] { NothingHeld(keys[..|keys| - 1]); }
  }

  datatype Playing = Playing(keys: seq<Key>, cache: int, pending: bool)

  /** What the machine answers at one row: the blob bound, the presentation size, the bytes a save
      wrote (0 when it failed), and whether every other call it makes succeeds. */
  datatype Host = Host(bound: nat, local: nat, saved: nat, works: bool)

  predicate Healthy(h: Host) { 0 < h.saved <= h.bound && h.works }

  datatype Outcome = Played(next: Playing) | MemoryLimit | Broken

  function PlayRow(s: Playing, r: Row, h: Host): (o: Outcome)
  {
    match r
    case Checkpoint(id) =>
      if s.pending || id == 0 || id >= |s.keys| then Broken
      else if s.keys[id].uses == 0 then Played(s)
      else if s.keys[id].held then Broken
      else if h.bound > MAX_CACHE - s.cache || h.local > MAX_CACHE - s.cache - h.bound then MemoryLimit
      else if !h.works || h.saved == 0 then Broken
      else Played(s.(keys := s.keys[id := Key(true, h.saved, h.local, s.keys[id].uses)],
                     cache := s.cache + h.saved + h.local))
    case Restore(id) =>
      if s.pending || id == 0 || id >= |s.keys| || s.keys[id].uses == 0 || !s.keys[id].held
         || !h.works
      then Broken
      else
        var k := s.keys[id];
        if k.uses == 1
        then Played(s.(keys := s.keys[id := k.(held := false, uses := 0)],
                       cache := s.cache - (k.size + k.presentation)))
        else Played(s.(keys := s.keys[id := k.(uses := k.uses - 1)]))
    case Input(_) => if s.pending || !h.works then Broken else Played(s.(pending := true))
    case Result => if s.pending && h.works then Played(s.(pending := false)) else Broken
    case Aux(_) => if s.pending || !h.works then Broken else Played(s)
  }

  /** A key at position p of the log: its count is the restores still to come, and it is held exactly
      from its K row until its last R row. */
  predicate KeyAt(k: Key, id: nat, log: seq<Row>, p: nat)
    requires p <= |log|
  {
    k.uses == Uses(log[p..], id) && (k.held <==> 1 <= id <= Keys(log[..p]) && k.uses > 0)
  }

  ghost predicate At(s: Playing, log: seq<Row>, p: nat)
    requires p <= |log|
  {
    && |s.keys| == Keys(log) + 1
    && (forall id :: 0 <= id < |s.keys| ==> KeyAt(s.keys[id], id, log, p))
    && s.cache == HeldBytes(s.keys) <= MAX_CACHE
    && s.pending == InTick(log[..p])
  }

  /** The rows the recorder does not keep out of an open tick were outside one. */
  predicate Tidy(log: seq<Row>, p: nat)
    requires p < |log|
  {
    log[p].Input? || log[p].Aux? ==> !InTick(log[..p])
  }

  lemma {:induction false} HeldAtLeast(keys: seq<Key>, id: nat)
    requires id < |keys|
    ensures Weight(keys[id]) <= HeldBytes(keys)
  {
    HeldUpdate(keys, id, keys[id].(held := false));
  }

  /** Keys other than the row's own are untouched by the row. */
  lemma {:induction false} OtherKeys(k: Key, id: nat, log: seq<Row>, p: nat)
    requires Recorded(log) && p < |log| && KeyAt(k, id, log, p)
    requires (log[p].Checkpoint? || log[p].Restore?) ==> log[p].id != id
    ensures KeyAt(k, id, log, p + 1)
  {
    RowFollows(log, p);
    assert log[p..][1..] == log[p + 1..];
  }

  lemma {:induction false} CheckpointKeeps(s: Playing, log: seq<Row>, p: nat, h: Host)
    requires Recorded(log) && p < |log| && At(s, log, p) && Healthy(h) && log[p].Checkpoint?
    ensures var o := PlayRow(s, log[p], h);
            o == MemoryLimit || (o.Played? && At(o.next, log, p + 1))
  {
    var id := log[p].id;
    RowFollows(log, p);
    assert KeyAt(s.keys[id], id, log, p);
    assert log[p..][1..] == log[p + 1..];
    var o := PlayRow(s, log[p], h);
    if o.Played? {
      var t := o.next;
      HeldUpdate(s.keys, id, t.keys[id]);
      assert s.keys[id := s.keys[id]] == s.keys;
      forall i | 0 <= i < |t.keys| ensures KeyAt(t.keys[i], i, log, p + 1) {
        if i != id { OtherKeys(s.keys[i], i, log, p); }
      }
    }
  }

  lemma {:induction false} RestoreKeeps(s: Playing, log: seq<Row>, p: nat, h: Host)
    requires Recorded(log) && p < |log| && At(s, log, p) && Healthy(h) && log[p].Restore?
    ensures var o := PlayRow(s, log[p], h);
            o.Played? && At(o.next, log, p + 1)
  {
    var id := log[p].id;
    RowFollows(log, p);
    assert KeyAt(s.keys[id], id, log, p);
    assert log[p..][1..] == log[p + 1..];
    HeldAtLeast(s.keys, id);
    var t := PlayRow(s, log[p], h).next;
    HeldUpdate(s.keys, id, t.keys[id]);
    forall i | 0 <= i < |t.keys| ensures KeyAt(t.keys[i], i, log, p + 1) {
      if i != id { OtherKeys(s.keys[i], i, log, p); }
    }
  }

  /** One row of a recorded log: the player goes on to the next position, refuses for memory, or meets
      an untidy row, and a tidy row never breaks it. */
  lemma {:induction false} RowKeeps(s: Playing, log: seq<Row>, p: nat, h: Host)
    requires Recorded(log) && p < |log| && At(s, log, p) && Healthy(h)
    ensures var o := PlayRow(s, log[p], h);
            && (o == Broken <==> !Tidy(log, p))
            && (o.Played? ==> At(o.next, log, p + 1))
  {
    if log[p].Checkpoint? {
      CheckpointKeeps(s, log, p, h);
    } else if log[p].Restore? {
      RestoreKeeps(s, log, p, h);
    } else {
      RowFollows(log, p);
      forall i | 0 <= i < |s.keys| ensures KeyAt(s.keys[i], i, log, p + 1) {
        OtherKeys(s.keys[i], i, log, p);
      }
    }
  }

  /** A K row that will be restored keeps what the machine saved, and charges exactly that. */
  lemma {:induction false} CheckpointHolds(s: Playing, log: seq<Row>, p: nat, h: Host)
    requires Recorded(log) && p < |log| && At(s, log, p) && log[p].Checkpoint?
    requires PlayRow(s, log[p], h).Played? && Uses(log[p..], log[p].id) > 0
    ensures var t, id := PlayRow(s, log[p], h).next, log[p].id;
            && id < |t.keys| && t.keys[id] == Key(true, h.saved, h.local, Uses(log[p..], id))
            && t.cache == s.cache + h.saved + h.local && h.saved > 0
  {
    RowFollows(log, p);
    var id := log[p].id;
    assert KeyAt(s.keys[id], id, log, p);
  }

  /** The memory limit stops a recorded row exactly when it is the K row of a checkpoint that will be
      restored, and what is held with what the row may need is more than 256 MiB. */
  lemma {:induction false} MemoryLimitExactly(s: Playing, log: seq<Row>, p: nat, h: Host)
    requires Recorded(log) && p < |log| && At(s, log, p)
    ensures PlayRow(s, log[p], h) == MemoryLimit
            <==> log[p].Checkpoint? && Uses(log[p..], log[p].id) > 0
                 && HeldBytes(s.keys) + h.bound + h.local > 256 * 1024 * 1024
  {
    RowFollows(log, p);
    if log[p].Checkpoint? {
      var id := log[p].id;
      assert KeyAt(s.keys[id], id, log, p);
    }
  }

  /** The player's whole run from position p. */
  function Play(s: Playing, log: seq<Row>, p: nat, hosts: seq<Host>): Outcome
    requires p <= |log| == |hosts|
    decreases |log| - p
  {
    if p == |log| then Played(s)
    else
      match PlayRow(s, log[p], hosts[p])
      case Played(t) => Play(t, log, p + 1, hosts)
      case o => o
  }

  /** A recorded log plays to its end unless memory runs out or a row was written inside a tick; at
      the end every checkpoint has been released. */
  lemma {:induction false} PlaybackAccepts(s: Playing, log: seq<Row>, p: nat, hosts: seq<Host>)
    requires p <= |log| == |hosts| && Recorded(log) && At(s, log, p)
    requires forall i :: p <= i < |log| ==> Healthy(hosts[i])
    ensures var o := Play(s, log, p, hosts);
            && (o.Played? ==> forall i :: p <= i < |log| ==> Tidy(log, i))
            && ((forall i :: p <= i < |log| ==> Tidy(log, i)) ==> o != Broken)
            && (o.Played? ==> o.next.cache == 0 && forall id :: 0 <= id < |o.next.keys| ==> !o.next.keys[id].held)
    decreases |log| - p
  {
    if p < |log| {
      RowKeeps(s, log, p, hosts[p]);
      var o := PlayRow(s, log[p], hosts[p]);
      if o.Played? { PlaybackAccepts(o.next, log, p + 1, hosts); }
    } else {
      forall id | 0 <= id < |s.keys| ensures !s.keys[id].held {
        assert KeyAt(s.keys[id], id, log, p) && log[p..] == [];
      }
      NothingHeld(s.keys);
    }
  }

  /** A log the recorder can write and the player cannot play: a save request, or a second input row
      (a step that was stopped before its result), inside an open tick. */
  lemma {:induction false} UntidyLogBreaks(inner: Row, hosts: seq<Host>)
    requires inner == Aux(2) || inner == Input(1)
    requires |hosts| == 2 && Healthy(hosts[0]) && Healthy(hosts[1])
    ensures var log := [Input(1), inner];
            && Recorded(log) && Scannable(log) && !Tidy(log, 1)
            && Play(Playing([Key(false, 0, 0, 0)], 0, false), log, 0, hosts) == Broken
  {
    var log := [Input(1), inner];
    Appended([], Input(1));
    assert [] + [Input(1)] == [Input(1)];
    Appended([Input(1)], inner);
    assert [Input(1)] + [inner] == log && log[..1] == [Input(1)];
    RecordedScannable(log);
    var s := Playing([Key(false, 0, 0, 0)], 0, false);
    assert PlayRow(s, log[0], hosts[0]) == Played(s.(pending := true));
    assert Play(s, log, 0, hosts) == Play(s.(pending := true), log, 1, hosts);
  }

  // ---- the player's statics ----------------------------------------------------------

  lemma {:induction false} KeysInOrderPrefix(log: seq<Row>, p: nat)
    requires KeysInOrder(log) && p <= |log|
    ensures KeysInOrder(log[..p])
    decreases |log|
  {
    if p == |log| {
      assert log[..p] == log;
    } else {
      KeysInOrderPrefix(log[..|log| - 1], p);
      assert log[..|log| - 1][..p] == log[..p];
    }
  }

  lemma {:induction false} UsesPrefix(log: seq<Row>, p: nat, id: nat)
    requires p <= |log|
    ensures Uses(log[..p], id) <= Uses(log, id)
    decreases |log|
  {
    if p > 0 {
      UsesPrefix(log[1..], p - 1, id);
      assert log[..p][1..] == log[1..][..p - 1];
    }
  }

  lemma {:induction false} NoUses(log: seq<Row>, top: nat, id: nat)
    requires RestoresInRange(log, top) && !(1 <= id <= top)
    ensures Uses(log, id) == 0
  {
    if log != [] {
      assert forall i :: 0 <= i < |log| - 1 ==> log[1..][i] == log[i + 1];
      NoUses(log[1..], top, id);
    }
  }

  class Player {
    var keys: array<Key>
    var cache: int
    var pending: bool

    constructor ()
      ensures fresh(keys) && cache == 0 && !pending
    {
      keys, cache, pending := new Key[0], 0, false;
    }

    ghost function View(): Playing
      reads this, keys
    {
      Playing(keys[..], cache, pending)
    }

    /** The K pass of scan_keys. */
    method CountKeys(log: seq<Row>) returns (ok: bool, max: nat)
      ensures ok == KeysInOrder(log) && (ok ==> max == Keys(log))
    {
      max := 0;
      for i := 0 to |log|
        invariant KeysInOrder(log[..i]) && max == Keys(log[..i])
      {
        assert log[..i + 1][..i] == log[..i];
        if log[i].Checkpoint? {
          if log[i].id != max + 1 || log[i].id > MAX_KEYS {
            assert !KeysInOrder(log[..i + 1]);
            if KeysInOrder(log) { KeysInOrderPrefix(log, i + 1); }
            return false, max;
          }
          max := log[i].id;
        }
      }
      assert log[..|log|] == log;
      ok := true;
    }

    /** The R pass of scan_keys. */
    method CountUses(log: seq<Row>, max: nat) returns (ok: bool)
      requires keys.Length == max + 1
      requires forall id :: 0 <= id <= max ==> keys[id] == Key(false, 0, 0, 0)
      modifies keys
      ensures ok <==> RestoresInRange(log, max) && forall id :: 1 <= id <= max ==> Uses(log, id) <= ALL_ONES
      ensures ok ==> forall id :: 0 <= id <= max ==> keys[id] == Key(false, 0, 0, Uses(log, id))
    {
      for i := 0 to |log|
        invariant RestoresInRange(log[..i], max)
        invariant forall id :: 0 <= id <= max ==> keys[id] == Key(false, 0, 0, Uses(log[..i], id))
        invariant forall id :: 0 <= id <= max ==> keys[id].uses <= ALL_ONES
      {
        assert log[..i + 1] == log[..i] + [log[i]];
        forall id | 0 <= id <= max
          ensures Uses(log[..i + 1], id) == Uses(log[..i], id) + if log[i] == Restore(id) then 1 else 0
        {
          UsesAppend(log[..i], log[i], id);
        }
        if log[i].Restore? {
          var id := log[i].id;
          if id == 0 || id > max || keys[id].uses == ALL_ONES {
            UsesPrefix(log, i + 1, id);
            return false;
          }
          keys[id] := keys[id].(uses := keys[id].uses + 1);
        }
      }
      assert log[..|log|] == log;
      return true;
    }

    /** scan_keys: accepts exactly the scannable logs and leaves the player at the first row. */
    method ScanKeys(log: seq<Row>) returns (ok: bool)
      requires cache == 0 && !pending
      modifies this
      ensures ok <==> Scannable(log)
      ensures ok ==> fresh(keys) && cache == 0 && !pending && At(View(), log, 0)
    {
      var inOrder, max := CountKeys(log);
      if !inOrder { return false; }
      keys := new Key[max + 1](_ => Key(false, 0, 0, 0));
      ok := CountUses(log, max);
      if ok {
        forall id ensures Uses(log, id) <= ALL_ONES {
          if !(1 <= id <= max) { NoUses(log, max, id); }
        }
        NothingHeld(keys[..]);
        assert log[0..] == log;
      }
    }

    /** The K branch of playback_command. */
    method PlayCheckpoint(id: nat, h: Host) returns (o: Outcome)
      modifies this`cache, keys
      ensures o == PlayRow(old(View()), Checkpoint(id), h)
      ensures o.Played? ==> View() == o.next
      ensures !o.Played? ==> View() == old(View())
    {
      if pending || id == 0 || id >= keys.Length { return Broken; }
      if keys[id].uses == 0 { return Played(Playing(keys[..], cache, pending)); }
      if keys[id].held { return Broken; }
      if h.bound > MAX_CACHE - cache || h.local > MAX_CACHE - cache - h.bound { return MemoryLimit; }
      if !h.works || h.saved == 0 { return Broken; }
      keys[id] := Key(true, h.saved, h.local, keys[id].uses);
      cache := cache + (h.saved + h.local);
      return Played(Playing(keys[..], cache, pending));
    }

    /** The R branch of playback_command. */
    method PlayRestore(id: nat, h: Host) returns (o: Outcome)
      modifies this`cache, keys
      ensures o == PlayRow(old(View()), Restore(id), h)
      ensures o.Played? ==> View() == o.next
      ensures !o.Played? ==> View() == old(View())
    {
      if pending || id == 0 || id >= keys.Length || keys[id].uses == 0 || !keys[id].held { return Broken; }
      if !h.works { return Broken; }
      keys[id] := keys[id].(uses := keys[id].uses - 1);
      if keys[id].uses == 0 {
        cache := cache - (keys[id].size + keys[id].presentation);
        keys[id] := keys[id].(held := false);
      }
      return Played(Playing(keys[..], cache, pending));
    }

    /** A whole playback of a scanned log on a machine that does its part: it ends well, or for
        memory, or at the first row written inside a tick. */
    method Playback(log: seq<Row>, hosts: seq<Host>) returns (o: Outcome)
      requires Recorded(log) && At(View(), log, 0) && |hosts| == |log|
      requires forall i :: 0 <= i < |log| ==> Healthy(hosts[i])
      modifies this`cache, this`pending, keys
      ensures o == Play(old(View()), log, 0, hosts)
      ensures o.Played? ==> cache == 0
      ensures o == Broken ==> exists i :: 0 <= i < |log| && !Tidy(log, i)
    {
      PlaybackAccepts(View(), log, 0, hosts);
      var p := 0;
      while p < |log|
        invariant p <= |log|
        invariant Play(View(), log, p, hosts) == Play(old(View()), log, 0, hosts)
      {
        o := PlayAny(log[p], hosts[p]);
        if !o.Played? { return; }
        p := p + 1;
      }
      return Played(Playing(keys[..], cache, pending));
    }

    method PlayAny(r: Row, h: Host) returns (o: Outcome)
      modifies this`cache, this`pending, keys
      ensures o == PlayRow(old(View()), r, h)
      ensures o.Played? ==> View() == o.next
    {
      match r
      case Checkpoint(id) => o := PlayCheckpoint(id, h);
      case Restore(id) => o := PlayRestore(id, h);
      case Input(_) =>
        if pending || !h.works { return Broken; }
        pending := true;
        return Played(Playing(keys[..], cache, pending));
      case Result =>
        if !pending || !h.works { return Broken; }
        pending := false;
        return Played(Playing(keys[..], cache, pending));
      case Aux(_) =>
        if pending || !h.works { return Broken; }
        return Played(Playing(keys[..], cache, pending));
    }
  }
}
