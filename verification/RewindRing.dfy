/** Whole-machine local rewind (runner/local_states.c): a ring of snapshot records with byte
    accounting and a memory budget, beside the external snapshot ring, which is modelled as a
    bounded map from tick to blob size. */
module RewindRing {
  import opened Bits

  /** One LocalSnap: its tick and the bytes it holds. */
  datatype Snap = Snap(tick: nat, presentation: nat, guest: nat)

  function Bytes(s: Snap): nat { s.presentation + s.guest }

  function Emptied(s: Snap): Snap { s.(presentation := 0, guest := 0) }

  function TotalBytes(ss: seq<Snap>): nat
  {
    if ss == [] then 0 else TotalBytes(ss[..|ss| - 1]) + Bytes(ss[|ss| - 1])
  }

  lemma {:induction false} TotalFront(ss: seq<Snap>)
    requires ss != []
    ensures TotalBytes(ss) == Bytes(ss[0]) + TotalBytes(ss[1..])
  {
    var front := ss[..|ss| - 1];
    if |ss| > 1 {
      TotalFront(front);
      assert front[1..] == ss[1..][..|ss| - 2];
    } else {
      assert front == [];
    }
  }

  lemma {:induction false} TotalLast(ss: seq<Snap>, x: Snap)
    ensures TotalBytes(ss + [x]) == TotalBytes(ss) + Bytes(x)
  {
    assert (ss + [x])[..|ss|] == ss;
  }

  lemma {:induction false} TotalUpdate(ss: seq<Snap>, i: nat, x: Snap)
    requires i < |ss|
    ensures TotalBytes(ss[i := x]) == TotalBytes(ss) - Bytes(ss[i]) + Bytes(x)
  {
    var n := |ss| - 1;
    var t := ss[i := x];
    if i < n {
      TotalUpdate(ss[..n], i, x);
      assert t[..n] == ss[..n][i := x];
    } else {
      assert t[..n] == ss[..n];
    }
  }

  lemma {:induction false} TotalZero(ss: seq<Snap>)
    requires forall i :: 0 <= i < |ss| ==> Bytes(ss[i]) == 0
    ensures TotalBytes(ss) == 0
  {
    if ss != [] { TotalZero(ss[..|ss| - 1]); }
  }

  // ---- the ring, oldest slot first ---------------------------------------------------

  /** The slots in age order: the head slot, next to be written, comes first and the newest record
      last. */
  function Rot(meta: seq<Snap>, head: nat): (r: seq<Snap>)
    requires head < |meta|
    ensures |r| == |meta|
  {
    meta[head..] + meta[..head]
  }

  /** The slot `back` places before `head`: the source's `(head - back + depth) % depth`. */
  function Slot(head: nat, back: nat, depth: nat): (j: nat)
    requires head < depth && back <= depth
    ensures j < depth
  {
    if head >= back then head - back else head - back + depth
  }

  lemma {:induction false} SlotIsMod(head: nat, back: nat, depth: nat)
    requires head < depth && back <= depth
    ensures (head - back + depth) % depth == Slot(head, back, depth)
  {
    WrapOnce(head - back + depth, depth);
  }

  /** The slot `back` places before the head is the `back`-th from the end in age order. */
  lemma RotUpdate(meta: seq<Snap>, head: nat, back: nat, x: Snap)
    requires head < |meta| && 0 < back <= |meta|
    ensures var j := Slot(head, back, |meta|);
            && Rot(meta, head)[|meta| - back] == meta[j]
            && Rot(meta[j := x], head) == Rot(meta, head)[|meta| - back := x]
  {
  }

  /** Writing the head slot and advancing shifts the age order by one. */
  lemma {:induction false} RotPush(meta: seq<Snap>, head: nat, x: Snap)
    requires head < |meta|
    ensures (head + 1) % |meta| < |meta|
    ensures Rot(meta[head := x], (head + 1) % |meta|) == Rot(meta, head)[1..] + [x]
  {
    WrapOnce(head + 1, |meta|);
    var h := if head + 1 == |meta| then 0 else head + 1;
    assert Rot(meta[head := x], h) == Rot(meta, head)[1..] + [x];
  }

  /** Moving the head back k places makes the k newest slots the next to be written. */
  lemma RotBack(meta: seq<Snap>, head: nat, k: nat)
    requires head < |meta| && k < |meta|
    ensures var r, n := Rot(meta, head), |meta|;
            Rot(meta, Slot(head, k, n)) == Turned(r, k)
  {
  }

  /** The last k slots moved to the front. */
  function Turned(r: seq<Snap>, k: nat): (t: seq<Snap>)
    requires k <= |r|
    ensures |t| == |r|
  {
    r[|r| - k..] + r[..|r| - k]
  }

  // ---- the invariant -----------------------------------------------------------------

  /** Live records carry consecutive ticks that end at the current one. */
  predicate Consecutive(live: seq<Snap>, tick: nat)
  {
    |live| <= tick && forall i :: 0 <= i < |live| ==> live[i].tick == tick - (|live| - 1 - i)
  }

  /** The snapshot ring holds exactly the live ticks, each with its record's size. */
  ghost predicate Mirrors(ring: map<nat, nat>, live: seq<Snap>, tick: nat)
  {
    && (forall t :: t in ring <==> tick - |live| < t <= tick)
    && (forall i :: 0 <= i < |live| ==> live[i].tick in ring && ring[live[i].tick] == live[i].guest)
  }

  /** The module's statics: slots in age order, s_count, s_tick, s_history_bytes and the ring. */
  datatype Store = Store(slots: seq<Snap>, count: nat, tick: nat, bytes: int, ring: map<nat, nat>)

  predicate Shaped(s: Store) { 0 < |s.slots| && s.count <= |s.slots| }

  /** The live records, oldest first. */
  function Live(s: Store): (l: seq<Snap>)
    requires Shaped(s)
    ensures |l| == s.count
  {
    s.slots[|s.slots| - s.count..]
  }

  ghost predicate Good(s: Store)
  {
    && Shaped(s)
    && Consecutive(Live(s), s.tick)
    && (forall i :: 0 <= i < |s.slots| - s.count ==> Bytes(s.slots[i]) == 0)
    && s.bytes == TotalBytes(Live(s))
    && Mirrors(s.ring, Live(s), s.tick)
  }

  // ---- operations on values ----------------------------------------------------------

  /** The oldest record goes. */
  function Evicted(s: Store): Store
    requires Shaped(s) && s.count > 0
  {
    var i := |s.slots| - s.count;
    Store(s.slots[i := Emptied(s.slots[i])], s.count - 1, s.tick,
          s.bytes - Bytes(s.slots[i]), s.ring - {s.slots[i].tick})
  }

  lemma {:induction false} EvictedGood(s: Store)
    requires Good(s) && s.count > 0
    ensures Good(Evicted(s)) && Live(Evicted(s)) == Live(s)[1..]
  {
    assert Live(Evicted(s)) == Live(s)[1..];
    TotalFront(Live(s));
    assert Live(s)[0] == s.slots[|s.slots| - s.count];
  }

  /** A record goes into the head slot; a full ring loses its oldest. */
  function Inserted(s: Store, e: Snap): Store
    requires Shaped(s)
  {
    var n := |s.slots|;
    Store(s.slots[1..] + [e], if s.count == n then n else s.count + 1, e.tick,
          s.bytes - Bytes(s.slots[0]) + Bytes(e),
          (if s.count == n then s.ring - {s.tick + 1 - n} else s.ring)[e.tick := e.guest])
  }

  function Grown(s: Store, e: Snap): seq<Snap>
    requires Shaped(s)
  {
    (if s.count == |s.slots| then Live(s)[1..] else Live(s)) + [e]
  }

  lemma InsertedLive(s: Store, e: Snap)
    requires Shaped(s)
    ensures Shaped(Inserted(s, e)) && Live(Inserted(s, e)) == Grown(s, e)
  {
  }

  lemma {:induction false} InsertedBytes(s: Store, e: Snap)
    requires Shaped(s) && s.bytes == TotalBytes(Live(s)) && (s.count < |s.slots| ==> Bytes(s.slots[0]) == 0)
    ensures Inserted(s, e).bytes == TotalBytes(Grown(s, e))
  {
    if s.count == |s.slots| {
      assert Live(s) == s.slots;
      TotalFront(s.slots);
      TotalLast(s.slots[1..], e);
    } else {
      TotalLast(Live(s), e);
    }
  }

  lemma {:induction false} InsertedGood(s: Store, e: Snap)
    requires Good(s) && e.tick == s.tick + 1
    ensures Good(Inserted(s, e)) && Inserted(s, e).count > 0 && Live(Inserted(s, e)) == Grown(s, e)
  {
    InsertedLive(s, e);
    InsertedBytes(s, e);
    InsertedVacant(s, e);
    InsertedMirrors(s, e);
  }

  lemma InsertedVacant(s: Store, e: Snap)
    requires Shaped(s) && forall i :: 0 <= i < |s.slots| - s.count ==> Bytes(s.slots[i]) == 0
    ensures var t := Inserted(s, e); forall i :: 0 <= i < |t.slots| - t.count ==> Bytes(t.slots[i]) == 0
  {
  }

  lemma {:induction false} InsertedMirrors(s: Store, e: Snap)
    requires Good(s) && e.tick == s.tick + 1
    ensures Consecutive(Grown(s, e), e.tick) && Mirrors(Inserted(s, e).ring, Grown(s, e), e.tick)
  {
    var live, g := Live(s), Grown(s, e);
    forall i | 0 <= i < |g| - 1 ensures g[i].tick == e.tick - (|g| - 1 - i) && g[i].tick in s.ring && s.ring[g[i].tick] == g[i].guest {
      var k := if s.count == |s.slots| then i + 1 else i;
      assert g[i] == live[k];
    }
  }

  /** The budget loop: the oldest go while the history is over budget and another remains. */
  function Trimmed(s: Store, fixed: nat, limit: nat): Store
    requires Shaped(s)
    decreases s.count
  {
    if s.count > 1 && s.bytes + fixed > limit then Trimmed(Evicted(s), fixed, limit) else s
  }

  /** `rest` is `live` without its oldest `dropped` records, at least one is left, and no fewer
      could have gone: keeping one more would be over the budget. */
  predicate LeastDrop(live: seq<Snap>, rest: seq<Snap>, dropped: nat, fixed: nat, limit: nat)
  {
    && dropped < |live|
    && rest == live[dropped..]
    && (dropped > 0 ==> TotalBytes(live[dropped - 1..]) + fixed > limit)
  }

  lemma {:induction false} DropOneMore(live: seq<Snap>, rest: seq<Snap>, d: nat, fixed: nat, limit: nat)
    requires |live| > 0 && TotalBytes(live) + fixed > limit
    requires LeastDrop(live[1..], rest, d, fixed, limit)
    ensures LeastDrop(live, rest, d + 1, fixed, limit)
  {
    assert live[1..][d..] == live[d + 1..];
    if d > 0 {
      assert live[1..][d - 1..] == live[d..];
    } else {
      assert live[0..] == live;
    }
  }

  lemma {:induction false} TrimmedGood(s: Store, fixed: nat, limit: nat)
    requires Good(s) && s.count > 0
    ensures Good(Trimmed(s, fixed, limit))
    decreases s.count
  {
    if s.count > 1 && s.bytes + fixed > limit {
      EvictedGood(s);
      TrimmedGood(Evicted(s), fixed, limit);
    }
  }

  /** What trimming leaves: within budget or a single record, and never one record shorter than the
      budget asks for. */
  lemma {:induction false} TrimmedLeast(s: Store, fixed: nat, limit: nat) returns (dropped: nat)
    requires Good(s) && s.count > 0
    ensures var t := Trimmed(s, fixed, limit);
            && Shaped(t) && t.tick == s.tick && LeastDrop(Live(s), Live(t), dropped, fixed, limit)
            && (t.bytes + fixed <= limit || t.count == 1)
    decreases s.count
  {
    if s.count > 1 && s.bytes + fixed > limit {
      EvictedGood(s);
      var d := TrimmedLeast(Evicted(s), fixed, limit);
      var live := Live(s);
      DropOneMore(live, Live(Trimmed(Evicted(s), fixed, limit)), d, fixed, limit);
      dropped := d + 1;
    } else {
      dropped := 0;
      assert Live(s)[0..] == Live(s);
    }
  }

  /** A capture: insert, then trim. */
  function Captured(s: Store, e: Snap, fixed: nat, limit: nat): (t: Store)
    requires Shaped(s)
  {
    Trimmed(Inserted(s, e), fixed, limit)
  }

  /** What a capture achieves: the new record joins, the oldest make room, and only as many go as the
      budget asks for, or all but the new one. */
  ghost predicate CaptureDone(s: Store, e: Snap, t: Store, dropped: nat, fixed: nat, limit: nat)
    requires Shaped(s)
  {
    && Good(t) && t.tick == e.tick
    && LeastDrop(Grown(s, e), Live(t), dropped, fixed, limit)
    && (t.bytes + fixed <= limit || t.count == 1)
  }

  lemma {:induction false} CapturedGood(s: Store, e: Snap, fixed: nat, limit: nat) returns (dropped: nat)
    requires Good(s) && e.tick == s.tick + 1
    ensures CaptureDone(s, e, Captured(s, e, fixed, limit), dropped, fixed, limit)
  {
    InsertedGood(s, e);
    TrimmedGood(Inserted(s, e), fixed, limit);
    dropped := TrimmedLeast(Inserted(s, e), fixed, limit);
  }

  /** The slots with the newest k emptied. */
  function NewestEmptied(slots: seq<Snap>, k: nat): (r: seq<Snap>)
    requires k <= |slots|
    ensures |r| == |slots|
  {
    seq(|slots|, i requires 0 <= i < |slots| => if i < |slots| - k then slots[i] else Emptied(slots[i]))
  }

  /** Bytes of the live records older than the newest k. */
  function OlderBytes(slots: seq<Snap>, count: nat, k: nat): nat
    requires k <= count <= |slots|
  {
    TotalBytes(slots[|slots| - count..][..count - k])
  }

  lemma {:induction false} AllLive(slots: seq<Snap>, count: nat)
    requires count <= |slots|
    ensures OlderBytes(slots, count, 0) == TotalBytes(slots[|slots| - count..])
  {
    var live := slots[|slots| - count..];
    assert live[..count] == live;
  }

  /** Emptying one more of the newest, and what it frees. */
  lemma {:induction false} NewestStep(slots: seq<Snap>, count: nat, i: nat)
    requires i < count <= |slots|
    ensures var n := |slots|;
            var x := NewestEmptied(slots, i)[n - (i + 1)];
            && NewestEmptied(slots, i)[n - (i + 1) := Emptied(x)] == NewestEmptied(slots, i + 1)
            && OlderBytes(slots, count, i + 1) == OlderBytes(slots, count, i) - Bytes(x)
  {
    var live := slots[|slots| - count..];
    assert live[..count - i][..count - i - 1] == live[..count - (i + 1)];
  }

  /** rbe_snap_ring_drop_after. */
  function UpTo(ring: map<nat, nat>, at: nat): map<nat, nat>
  {
    map t | t in ring && t <= at :: ring[t]
  }

  /** The newest k records released and the head moved back over them. */
  function Rewound(s: Store, k: nat): Store
    requires Shaped(s) && k < s.count
  {
    var n := |s.slots|;
    var at := s.slots[n - 1 - k].tick;
    Store(Turned(NewestEmptied(s.slots, k), k), s.count - k, at, OlderBytes(s.slots, s.count, k),
          UpTo(s.ring, at))
  }

  lemma RewoundLive(s: Store, k: nat)
    requires Shaped(s) && k < s.count
    ensures Shaped(Rewound(s, k)) && Live(Rewound(s, k)) == Live(s)[..s.count - k]
    ensures Rewound(s, k).tick == Live(s)[s.count - 1 - k].tick
  {
  }

  lemma {:induction false} RewoundGood(s: Store, k: nat)
    requires Good(s) && k < s.count
    ensures Good(Rewound(s, k)) && Live(Rewound(s, k)) == Live(s)[..s.count - k]
    ensures Rewound(s, k).tick == Live(s)[s.count - 1 - k].tick
  {
    RewoundLive(s, k);
    var t, n := Rewound(s, k), |s.slots|;
    forall i | 0 <= i < n - t.count ensures Bytes(t.slots[i]) == 0 {
      if i >= k { assert t.slots[i] == s.slots[i - k]; }
    }
  }

  // ---- whole runs --------------------------------------------------------------------

  /** A successful capture, accepting the entry k places back, and clearing. */
  datatype Op = Note(presentation: nat, guest: nat) | Take(k: nat) | Wipe

  ghost predicate Moves(s: Store, t: Store, op: Op, fixed: nat, limit: nat)
  {
    && Shaped(s)
    && match op
       case Note(p, g) => t == Captured(s, Snap(s.tick + 1, p, g), fixed, limit)
       case Take(k) => t == if k < s.count then Rewound(s, k) else s
       case Wipe => Emptier(s, t)
  }

  ghost predicate Emptier(s: Store, t: Store)
  {
    && |t.slots| == |s.slots| && t.count == 0 && t.tick == 0 && t.bytes == 0 && t.ring == map[]
    && forall i :: 0 <= i < |t.slots| ==> Bytes(t.slots[i]) == 0
  }

  lemma {:induction false} MoveGood(s: Store, t: Store, op: Op, fixed: nat, limit: nat)
    requires Good(s) && Moves(s, t, op, fixed, limit)
    ensures Good(t)
  {
    match op
    case Note(p, g) => var _ := CapturedGood(s, Snap(s.tick + 1, p, g), fixed, limit);
    case Take(k) => if k < s.count { RewoundGood(s, k); }
    case Wipe =>
  }

  ghost predicate MoveAt(ss: seq<Store>, ops: seq<Op>, i: nat, fixed: nat, limit: nat)
  {
    i + 1 < |ss| && i < |ops| && Moves(ss[i], ss[i + 1], ops[i], fixed, limit)
  }

  /** In every run of captures, budget evictions, rewinds and clears: live entries carry consecutive
      ticks that end at the current one, vacant slots hold no bytes, the byte count is the sum over
      the live entries, and the snapshot ring holds exactly the live ticks. */
  lemma {:induction false} EveryRunGood(ss: seq<Store>, ops: seq<Op>, fixed: nat, limit: nat, i: nat)
    requires |ss| == |ops| + 1 && i < |ss| && Good(ss[0])
    requires forall k: nat :: k < |ops| ==> MoveAt(ss, ops, k, fixed, limit)
    ensures Good(ss[i])
  {
    if i > 0 {
      EveryRunGood(ss, ops, fixed, limit, i - 1);
      assert MoveAt(ss, ops, i - 1, fixed, limit);
      MoveGood(ss[i - 1], ss[i], ops[i - 1], fixed, limit);
    }
  }

  // ---- the statics -------------------------------------------------------------------

  class Rewind {
    const fixed: nat                // s_depth * sizeof(LocalSnap)
    const limit: nat                // GENESIS_LOCAL_HISTORY_LIMIT
    const meta: array<Snap>
    var head: nat
    var count: nat
    var tick: nat
    var historyBytes: int
    var ring: map<nat, nat>

    constructor (depth: nat, recordBytes: nat, limit: nat)
      requires depth > 0
      ensures Valid() && Live(View()) == [] && tick == 0 && fresh(meta) && meta.Length == depth
      ensures this.fixed == depth * recordBytes && this.limit == limit
    {
      this.fixed, this.limit := depth * recordBytes, limit;
      meta := new Snap[depth](_ => Snap(0, 0, 0));
      head, count, tick, historyBytes, ring := 0, 0, 0, 0, map[];
    }

    ghost function View(): Store
      reads this, meta
      requires head < meta.Length
    {
      Store(Rot(meta[..], head), count, tick, historyBytes, ring)
    }

    ghost predicate Valid()
      reads this, meta
    {
      head < meta.Length && Good(View())
    }

    /** release_snap on the slot `back` places before the head. */
    method Release(j: nat, ghost back: nat)
      requires head < meta.Length && 0 < back <= meta.Length && j == Slot(head, back, meta.Length)
      modifies this`historyBytes, meta
      ensures var n := meta.Length;
              var old_ := old(Rot(meta[..], head)[n - back]);
              && historyBytes == old(historyBytes) - Bytes(old_) && old_ == old(meta[j])
              && Rot(meta[..], head) == old(Rot(meta[..], head))[n - back := Emptied(old_)]
              && meta[..] == old(meta[..])[j := Emptied(old_)]
    {
      RotUpdate(meta[..], head, back, Emptied(meta[j]));
      historyBytes := historyBytes - (meta[j].presentation + meta[j].guest);
      meta[j] := meta[j].(presentation := 0, guest := 0);
      assert meta[..] == old(meta[..])[j := Emptied(old(meta[j]))];
    }

    /** One turn of the budget loop. */
    method EvictOldest()
      requires head < meta.Length && 0 < count <= meta.Length
      modifies this`historyBytes, this`count, this`ring, meta
      ensures View() == Evicted(old(View()))
    {
      SlotIsMod(head, count, meta.Length);
      var j := (head - count + meta.Length) % meta.Length;
      RotUpdate(meta[..], head, count, meta[j]);
      ring := ring - {meta[j].tick};
      Release(j, count);
      count := count - 1;
    }

    method Insert(e: Snap)
      requires head < meta.Length && count <= meta.Length && e.tick == tick + 1
      modifies this, meta
      ensures head < meta.Length && View() == Inserted(old(View()), e)
    {
      tick := tick + 1;
      ring := (if count == meta.Length then ring - {tick - meta.Length} else ring)[tick := e.guest];
      WriteHead(e);
      if count < meta.Length { count := count + 1; }
    }

    /** The head slot gives up what it held, takes the record, and the head moves on. */
    method WriteHead(e: Snap)
      requires head < meta.Length
      modifies this`historyBytes, this`head, meta
      ensures head < meta.Length && Rot(meta[..], head) == old(Rot(meta[..], head))[1..] + [e]
      ensures historyBytes == old(historyBytes) - Bytes(old(Rot(meta[..], head))[0]) + Bytes(e)
    {
      RotPush(meta[..], head, e);
      Release(head, meta.Length);
      meta[head] := e;
      assert meta[..] == old(meta[..])[head := e];
      historyBytes := historyBytes + (e.presentation + e.guest);
      head := (head + 1) % meta.Length;
    }

    /** The part of genesis_local_states_note_frame that records a successful capture of `guest`
        bytes with `presentation` bytes beside it: the new record joins the live ones, the oldest
        makes room when the ring is full, and then the oldest go until the history fits the budget
        or only the new record is left. */
    method Capture(presentation: nat, guest: nat) returns (ghost dropped: nat)
      requires Valid()
      modifies this, meta
      ensures Valid()
      ensures Moves(old(View()), View(), Note(presentation, guest), fixed, limit)
      ensures CaptureDone(old(View()), Snap(old(tick) + 1, presentation, guest), View(), dropped, fixed, limit)
    {
      dropped := CapturedGood(View(), Snap(tick + 1, presentation, guest), fixed, limit);
      InsertAndTrim(Snap(tick + 1, presentation, guest));
    }

    method InsertAndTrim(e: Snap)
      requires head < meta.Length && count <= meta.Length && e.tick == tick + 1
      modifies this, meta
      ensures head < meta.Length
      ensures View() == Captured(old(View()), e, fixed, limit)
    {
      Insert(e);
      Trim();
    }

    method Trim()
      requires head < meta.Length && count <= meta.Length
      modifies this`historyBytes, this`count, this`ring, meta
      ensures View() == Trimmed(old(View()), fixed, limit)
    {
      while count > 1 && historyBytes + fixed > limit
        invariant count <= meta.Length
        invariant Trimmed(View(), fixed, limit) == Trimmed(old(View()), fixed, limit)
        decreases count
      {
        EvictOldest();
      }
    }

    /** genesis_local_states_accept in rewind mode: accepting the entry `selected` places back keeps
        exactly that entry and the older ones. `restores` is whether the blob loads. */
    method Accept(selected: nat, restores: bool) returns (ok: bool)
      requires Valid()
      modifies this, meta
      ensures Valid() && ok == (selected < old(count) && restores)
      ensures !ok ==> View() == old(View())
      ensures ok ==> Moves(old(View()), View(), Take(selected), fixed, limit)
      ensures ok ==> Live(View()) == old(Live(View()))[..old(count) - selected]
      ensures ok ==> tick == old(Live(View()))[old(count) - 1 - selected].tick
    {
      if selected >= count || !restores {
        return false;
      }
      RewoundGood(View(), selected);
      AllLive(Rot(meta[..], head), count);
      Return(selected);
      return true;
    }

    /** The accepting branch after the blob has loaded. */
    method Return(selected: nat)
      requires head < meta.Length && selected < count <= meta.Length
      requires historyBytes == OlderBytes(Rot(meta[..], head), count, 0)
      modifies this, meta
      ensures head < meta.Length && View() == Rewound(old(View()), selected)
    {
      var snap := SnapAt(selected);
      ring, tick := UpTo(ring, snap.tick), snap.tick;
      Discard(selected);
    }

    /** The records newer than the selected entry go. */
    method Discard(selected: nat)
      requires head < meta.Length && selected < count <= meta.Length
      requires historyBytes == OlderBytes(Rot(meta[..], head), count, 0)
      modifies this`head, this`count, this`historyBytes, meta
      ensures head < meta.Length && count == old(count) - selected
      ensures Rot(meta[..], head) == Turned(NewestEmptied(old(Rot(meta[..], head)), selected), selected)
      ensures historyBytes == OlderBytes(old(Rot(meta[..], head)), old(count), selected)
    {
      ReleaseNewest(selected);
      StepBack(selected);
    }

    /** snap_at: the record `selected` places before the newest. */
    method SnapAt(selected: nat) returns (snap: Snap)
      requires head < meta.Length && selected < count <= meta.Length
      ensures snap == Rot(meta[..], head)[meta.Length - 1 - selected]
    {
      SlotIsMod(head, selected + 1, meta.Length);
      snap := meta[(head - 1 - selected + meta.Length) % meta.Length];
      RotUpdate(meta[..], head, selected + 1, snap);
    }

    method StepBack(selected: nat)
      requires head < meta.Length && selected < count <= meta.Length
      modifies this`head, this`count
      ensures head < meta.Length && count == old(count) - selected
      ensures Rot(meta[..], head) == Turned(old(Rot(meta[..], head)), selected)
    {
      SlotIsMod(head, selected, meta.Length);
      RotBack(meta[..], head, selected);
      head := (head - selected + meta.Length) % meta.Length;
      count := count - selected;
    }

    /** The loop that releases the `k` newest records. */
    method ReleaseNewest(k: nat)
      requires head < meta.Length && k < count <= meta.Length && historyBytes == OlderBytes(Rot(meta[..], head), count, 0)
      modifies this`historyBytes, meta
      ensures historyBytes == OlderBytes(old(Rot(meta[..], head)), count, k)
      ensures Rot(meta[..], head) == NewestEmptied(old(Rot(meta[..], head)), k)
    {
      ghost var slots := Rot(meta[..], head);
      for i := 0 to k
        invariant historyBytes == OlderBytes(slots, count, i)
        invariant Rot(meta[..], head) == NewestEmptied(slots, i)
      {
        NewestStep(slots, count, i);
        ReleaseBack(i);
      }
    }

    method ReleaseBack(i: nat)
      requires head < meta.Length && i < meta.Length
      modifies this`historyBytes, meta
      ensures var r, k := old(Rot(meta[..], head)), meta.Length - (i + 1);
              historyBytes == old(historyBytes) - Bytes(r[k]) && Rot(meta[..], head) == r[k := Emptied(r[k])]
    {
      SlotIsMod(head, i + 1, meta.Length);
      Release((head - 1 - i + meta.Length) % meta.Length, i + 1);
    }

    /** genesis_local_states_clear. */
    method Clear()
      requires Valid()
      modifies this, meta
      ensures Valid() && Live(View()) == [] && tick == 0 && historyBytes == 0 && ring == map[]
      ensures Moves(old(View()), View(), Wipe, fixed, limit)
    {
      AllBytes(meta[..], head, Rot(meta[..], head), meta.Length - count);
      ring := map[];
      ReleaseAll();
      head, count, tick := 0, 0, 0;
      assert Rot(meta[..], 0) == meta[..];
    }

    method ReleaseAll()
      requires head < meta.Length && historyBytes == TotalBytes(meta[..])
      modifies this`historyBytes, meta
      ensures historyBytes == 0 && forall j :: 0 <= j < meta.Length ==> Bytes(meta[j]) == 0
    {
      for i := 0 to meta.Length
        invariant historyBytes == TotalBytes(meta[..])
        invariant forall j :: 0 <= j < i ==> Bytes(meta[j]) == 0
      {
        TotalUpdate(meta[..], i, Emptied(meta[i]));
        Release(i, if i < head then head - i else head - i + meta.Length);
      }
      TotalZero(meta[..]);
    }
  }

  /** With vacant slots empty, the live bytes are all the bytes in the array. */
  lemma {:induction false} AllBytes(meta: seq<Snap>, head: nat, slots: seq<Snap>, k: nat)
    requires head < |meta| && slots == Rot(meta, head) && k <= |slots|
    requires forall i :: 0 <= i < k ==> Bytes(slots[i]) == 0
    ensures TotalBytes(meta) == TotalBytes(slots[k..])
  {
    TotalRot(meta, head);
    TotalVacant(slots, k);
  }

  lemma {:induction false} TotalVacant(slots: seq<Snap>, k: nat)
    requires k <= |slots| && forall i :: 0 <= i < k ==> Bytes(slots[i]) == 0
    ensures TotalBytes(slots) == TotalBytes(slots[k..])
  {
    TotalSplit(slots[..k], slots[k..]);
    TotalZero(slots[..k]);
    assert slots == slots[..k] + slots[k..];
  }

  lemma {:induction false} TotalRot(meta: seq<Snap>, head: nat)
    requires head < |meta|
    ensures TotalBytes(Rot(meta, head)) == TotalBytes(meta)
  {
    TotalSplit(meta[head..], meta[..head]);
    TotalSplit(meta[..head], meta[head..]);
    assert meta == meta[..head] + meta[head..];
  }

  lemma {:induction false} TotalSplit(a: seq<Snap>, b: seq<Snap>)
    ensures TotalBytes(a + b) == TotalBytes(a) + TotalBytes(b)
  {
    if b == [] {
      assert a + b == a;
    } else {
      var n := |b| - 1;
      TotalSplit(a, b[..n]);
      assert (a + b)[..|a| + n] == a + b[..n];
    }
  }
}
