/** The co-simulation park/step protocol (runner/cosim.c): the guest thread and the command server
    share s_cp, s_target, s_parked, s_chain and the reporting ring. Each thread has a program
    counter, each shared access is one step, and any step of either thread may come next. */
module Lockstep {
  import opened Bits
  import opened Fnv

  const RING_N: nat := 8192

  datatype GuestPc =
    | Running                            // guest code between checkpoints
    | Folding(full: u64)                 // do_checkpoint: state hashed, cp computed
    | Recording(full: u64)               // chain folded, ring row next
    | Publishing                         // row written, s_cp next
    | Parking                            // s_cp published, s_parked next
    | Parked                             // spinning on s_target
    | Leaving                            // saw room below s_target, clears s_parked next

  datatype ServerPc =
    | Ready
    | StepWait(n: nat)                   // step: wait_parked
    | StepAim(n: nat)                    // step: compute the target
    | StepRelease(target: nat)           // step: store s_target
    | StepWatch(target: nat)             // step: wait for s_cp
    | StepReadCp                         // step: reply reads s_cp
    | StepReadChain(cp: nat)             // step: reply reads s_chain
    | ChainWait                          // chain: wait_parked
    | ChainReadChain                     // chain: reply reads s_chain
    | ChainReadCp(chain: u64)            // chain: reply reads s_cp

  datatype Row = Row(cp: nat, full: u64)

  datatype Reply = StepReply(from: nat, n: nat, cp: nat, chain: u64) | ChainReply(cp: nat, chain: u64)

  datatype State = State(
    cp: nat, target: nat, parked: bool, chain: u64, ring: map<nat, Row>,
    guest: GuestPc, server: ServerPc,
    // history, read by no step:
    fulls: seq<u64>,                     // state hashes folded into the chain so far
    from: nat,                           // where the current step command started
    steps: nat,                          // its n
    replies: seq<Reply>)

  datatype Action =
    | Checkpoint(full: u64) | FoldChain | RecordRow | PublishCp | SetParked | SeeRoom | ClearParked
    | CommandStep(n: nat) | CommandChain
    | SeeParked | Aim | Release | SeeArrived | ReadCp | ReadChain

  const INITIAL := State(0, 0, false, FNV_OFFSET, map[], Running, Ready, [], 0, 0, [])

  predicate Enabled(s: State, a: Action)
  {
    match a
    case Checkpoint(_) => s.guest.Running?
    case FoldChain => s.guest.Folding?
    case RecordRow => s.guest.Recording?
    case PublishCp => s.guest.Publishing?
    case SetParked => s.guest.Parking?
    case SeeRoom => s.guest.Parked? && s.cp < s.target
    case ClearParked => s.guest.Leaving?
    case CommandStep(_) => s.server.Ready?
    case CommandChain => s.server.Ready?
    case SeeParked => (s.server.StepWait? || s.server.ChainWait?) && s.parked
    case Aim => s.server.StepAim?
    case Release => s.server.StepRelease?
    case SeeArrived => s.server.StepWatch? && s.cp >= s.server.target
    case ReadCp => s.server.StepReadCp? || s.server.ChainReadCp?
    case ReadChain => s.server.StepReadChain? || s.server.ChainReadChain?
  }

  function Apply(s: State, a: Action): State
    requires Enabled(s, a)
  {
    match a
    case Checkpoint(full) => s.(guest := Folding(full))
    case FoldChain =>
      s.(chain := Link(s.chain, (s.cp + 1) % TWO64, s.guest.full), fulls := s.fulls + [s.guest.full],
         guest := Recording(s.guest.full))
    case RecordRow => s.(ring := s.ring[(s.cp + 1) % RING_N := Row(s.cp + 1, s.guest.full)], guest := Publishing)
    case PublishCp => s.(cp := s.cp + 1, guest := Parking)
    case SetParked => s.(parked := true, guest := Parked)
    case SeeRoom => s.(guest := Leaving)
    case ClearParked => s.(parked := false, guest := Running)
    case CommandStep(n) => s.(server := StepWait(if n < 1 then 1 else n))
    case CommandChain => s.(server := ChainWait)
    case SeeParked => s.(server := if s.server.StepWait? then StepAim(s.server.n) else ChainReadChain)
    case Aim => s.(server := StepRelease(s.cp + s.server.n), from := s.cp, steps := s.server.n)
    case Release => s.(target := s.server.target, server := StepWatch(s.server.target))
    case SeeArrived => s.(server := StepReadCp)
    case ReadCp =>
      if s.server.StepReadCp? then s.(server := StepReadChain(s.cp))
      else s.(server := Ready, replies := s.replies + [ChainReply(s.cp, s.server.chain)])
    case ReadChain =>
      if s.server.StepReadChain? then
        s.(server := Ready, replies := s.replies + [StepReply(s.from, s.steps, s.server.cp, s.chain)])
      else s.(server := ChainReadCp(s.chain))
  }

  // ---- the invariant -----------------------------------------------------------------

  /** The chain folded over checkpoints 1, 2, ... with these state hashes. */
  function ChainOf(fulls: seq<u64>): u64 { Chain(FNV_OFFSET, 1, fulls) }

  /** How many checkpoints have been folded: one more than published while one is in progress. */
  function Folded(s: State): nat
  {
    if s.guest.Recording? || s.guest.Publishing? then s.cp + 1 else s.cp
  }

  /** Between park and publish. */
  predicate Advancing(g: GuestPc) { g.Running? || g.Folding? || g.Recording? || g.Publishing? }

  /** The guest owns s_cp and s_parked. It advances only below the target, so it never passes it
      (the very first checkpoint is taken unasked). */
  predicate GuestInv(s: State)
  {
    && s.parked == (s.guest.Parked? || s.guest.Leaving?)
    && (s.guest.Leaving? ==> s.cp < s.target)
    && (Advancing(s.guest) ==> s.cp < s.target || s.cp == 0)
    && (!Advancing(s.guest) ==> s.cp > 0)
    && s.cp <= (if s.target == 0 then 1 else s.target)
  }

  /** The guest is parked, or about to say so, at the target: nothing moves. */
  predicate Settled(s: State) { s.cp >= s.target && s.cp > 0 && (s.guest.Parking? || s.guest.Parked?) }

  /** Server states in which it relies on the guest standing still. */
  predicate Looking(p: ServerPc)
  {
    p.StepAim? || p.StepRelease? || p.StepReadCp? || p.StepReadChain? || p.ChainReadChain? || p.ChainReadCp?
  }

  predicate ServerInv(s: State)
  {
    && (Looking(s.server) ==> Settled(s))
    && (s.server.StepWait? || s.server.StepAim? ==> s.server.n >= 1)
    && (s.server.StepRelease? ==> s.server.target == s.cp + s.steps && s.from == s.cp && s.steps >= 1)
    && (s.server.StepWatch? ==> s.server.target == s.target == s.from + s.steps && s.steps >= 1)
    && (s.server.StepReadCp? ==> s.cp == s.from + s.steps && s.steps >= 1)
    && (s.server.StepReadChain? ==> s.cp == s.server.cp == s.from + s.steps && s.steps >= 1)
    && (s.server.ChainReadCp? ==> s.server.chain == s.chain)
    && (s.server.Ready? || s.server.StepWait? || s.server.ChainWait? ==> Settled(s) || (s.cp == 0 && s.target == 0))
  }

  predicate ChainInv(s: State)
  {
    && |s.fulls| == Folded(s) && s.chain == ChainOf(s.fulls)
    && (s.guest.Recording? ==> s.fulls[s.cp] == s.guest.full)
  }

  /** A reply's chain is the chain over exactly the checkpoints it names, and a step reply names
      the checkpoint n past the one the step started from. */
  predicate Honest(r: Reply, fulls: seq<u64>)
  {
    && r.cp <= |fulls| && r.chain == ChainOf(fulls[..r.cp])
    && (r.StepReply? ==> r.cp == r.from + r.n && r.n >= 1)
  }

  /** The row of checkpoint k. */
  predicate Recorded(s: State, k: nat)
  {
    1 <= k <= |s.fulls| && k % RING_N in s.ring && s.ring[k % RING_N] == Row(k, s.fulls[k - 1])
  }

  /** How far back the ring reaches: the row being published has taken the oldest one's slot. */
  function Reach(s: State): nat { if s.guest.Publishing? then RING_N - 1 else RING_N }

  /** The ring holds the rows of the last RING_N published checkpoints; while one more is about to be
      published, its row and the last RING_N - 1. */
  ghost predicate RingInv(s: State)
  {
    && (forall k: nat :: 1 <= k <= s.cp && s.cp < k + Reach(s) ==> Recorded(s, k))
    && (s.guest.Publishing? ==> Recorded(s, s.cp + 1))
  }

  ghost predicate AllHonest(s: State) { forall r :: r in s.replies ==> Honest(r, s.fulls) }

  ghost predicate Inv(s: State)
  {
    GuestInv(s) && ServerInv(s) && ChainInv(s) && AllHonest(s) && RingInv(s)
  }

  lemma ControlKeeps(s: State, a: Action)
    requires GuestInv(s) && ServerInv(s) && Enabled(s, a)
    ensures GuestInv(Apply(s, a)) && ServerInv(Apply(s, a))
  {
  }

  lemma {:induction false} FoldKeeps(s: State)
    requires ChainInv(s) && AllHonest(s) && Enabled(s, FoldChain)
    ensures ChainInv(Apply(s, FoldChain)) && AllHonest(Apply(s, FoldChain))
  {
    var t := Apply(s, FoldChain);
    assert t.fulls[..|s.fulls|] == s.fulls;
    forall r | r in t.replies ensures Honest(r, t.fulls) {
      assert Honest(r, s.fulls);
      assert t.fulls[..r.cp] == s.fulls[..r.cp];
    }
  }

  /** Only FoldChain touches the chain. */
  lemma QuietChain(s: State, a: Action)
    requires ChainInv(s) && Enabled(s, a) && !a.FoldChain?
    ensures ChainInv(Apply(s, a)) && Apply(s, a).fulls == s.fulls
  {
  }

  /** The reply an action sends, if any. */
  lemma {:induction false} NewReply(s: State, a: Action, r: Reply)
    requires GuestInv(s) && ServerInv(s) && ChainInv(s) && AllHonest(s) && Enabled(s, a)
    requires r in Apply(s, a).replies && r !in s.replies
    ensures Honest(r, s.fulls)
  {
    assert s.fulls[..|s.fulls|] == s.fulls;
    assert r == StepReply(s.from, s.steps, s.cp, s.chain) || r == ChainReply(s.cp, s.chain);
  }

  lemma {:induction false} RecordKeepsRing(s: State)
    requires RingInv(s) && ChainInv(s) && s.guest.Recording? && s.fulls[s.cp] == s.guest.full
    ensures RingInv(Apply(s, RecordRow))
  {
    var t := Apply(s, RecordRow);
    forall k: nat | 1 <= k <= t.cp && t.cp < k + Reach(t) ensures Recorded(t, k) {
      assert Recorded(s, k);
      SlotsApart(k, s.cp + 1, RING_N);
    }
  }

  lemma {:induction false} PublishKeepsRing(s: State)
    requires RingInv(s) && s.guest.Publishing?
    ensures RingInv(Apply(s, PublishCp))
  {
    var t := Apply(s, PublishCp);
    forall k: nat | 1 <= k <= t.cp && t.cp < k + Reach(t) ensures Recorded(t, k) {
      assert Recorded(s, k);
    }
  }

  lemma {:induction false} FoldKeepsRing(s: State)
    requires RingInv(s) && s.guest.Folding?
    ensures RingInv(Apply(s, FoldChain))
  {
    var t := Apply(s, FoldChain);
    forall k: nat | 1 <= k <= t.cp && t.cp < k + Reach(t) ensures Recorded(t, k) {
      assert Recorded(s, k);
    }
  }

  /** Steps that touch neither the ring nor what it records. */
  lemma {:induction false} QuietRing(s: State, a: Action)
    requires RingInv(s) && Enabled(s, a) && !a.RecordRow? && !a.PublishCp? && !a.FoldChain?
    ensures RingInv(Apply(s, a))
  {
    var t := Apply(s, a);
    assert t.ring == s.ring && t.fulls == s.fulls && t.cp == s.cp && (t.guest.Publishing? ==> s.guest.Publishing?);
    assert s.guest.Publishing? ==> Recorded(s, s.cp + 1);
    forall k: nat | 1 <= k <= t.cp && t.cp < k + Reach(t) ensures Recorded(t, k) {
      assert Recorded(s, k);
    }
  }

  lemma {:induction false} StepKeeps(s: State, a: Action)
    requires Inv(s) && Enabled(s, a)
    ensures Inv(Apply(s, a))
  {
    ControlKeeps(s, a);
    match a {
      case RecordRow => RecordKeepsRing(s);
      case PublishCp => PublishKeepsRing(s);
      case FoldChain => FoldKeepsRing(s);
      case _ => QuietRing(s, a);
    }
    if a.FoldChain? {
      FoldKeeps(s);
    } else {
      QuietChain(s, a);
      forall r | r in Apply(s, a).replies ensures Honest(r, s.fulls) {
        if r !in s.replies { NewReply(s, a, r); }
      }
    }
  }

  // ---- all runs ----------------------------------------------------------------------

  ghost predicate Next(s: State, t: State) { exists a :: Enabled(s, a) && t == Apply(s, a) }

  ghost predicate StepAt(ss: seq<State>, i: nat) { i + 1 < |ss| && Next(ss[i], ss[i + 1]) }

  ghost predicate Behaviour(ss: seq<State>)
  {
    && |ss| > 0 && ss[0] == INITIAL
    && forall i: nat :: i + 1 < |ss| ==> StepAt(ss, i)
  }

  lemma {:induction false} AlwaysInv(ss: seq<State>, i: nat)
    requires Behaviour(ss) && i < |ss|
    ensures Inv(ss[i])
  {
    if i > 0 {
      AlwaysInv(ss, i - 1);
      assert StepAt(ss, i - 1);
      var a :| Enabled(ss[i - 1], a) && ss[i] == Apply(ss[i - 1], a);
      StepKeeps(ss[i - 1], a);
    }
  }

  /** In every interleaving, every reply to `step n` sent from a park at checkpoint k names exactly
      checkpoint k+n, and its chain is folded over exactly the first k+n checkpoints; every reply
      to `chain` pairs a checkpoint with its own chain. */
  lemma {:induction false} RepliesAreExact(ss: seq<State>, i: nat, r: Reply)
    requires Behaviour(ss) && i < |ss| && r in ss[i].replies
    ensures r.cp <= |ss[i].fulls| && r.chain == ChainOf(ss[i].fulls[..r.cp])
    ensures r.StepReply? ==> r.cp == r.from + r.n && r.n >= 1
  {
    AlwaysInv(ss, i);
    assert Honest(r, ss[i].fulls);
  }

  /** The guest never overshoots the target (beyond its unasked first checkpoint), and a guest that
      is parked with no command in progress does not move: no step of the guest changes s_cp, the
      chain or the ring. */
  lemma {:induction false} ParkedGuestStands(ss: seq<State>, i: nat)
    requires Behaviour(ss) && i + 1 < |ss|
    ensures ss[i].cp <= (if ss[i].target == 0 then 1 else ss[i].target)
    ensures ss[i].parked && !ss[i].server.StepWatch? ==>
              && ss[i].cp >= ss[i].target
              && ss[i + 1].cp == ss[i].cp && ss[i + 1].chain == ss[i].chain && ss[i + 1].ring == ss[i].ring
  {
    AlwaysInv(ss, i);
    assert StepAt(ss, i);
    var a :| Enabled(ss[i], a) && ss[i + 1] == Apply(ss[i], a);
  }

  /** The reporting ring: whenever the guest is parked, as the `window` command waits for, the rows of
      the last RING_N checkpoints are the ones those checkpoints recorded. */
  lemma {:induction false} WindowIsExact(ss: seq<State>, i: nat, k: nat)
    requires Behaviour(ss) && i < |ss| && ss[i].parked && 1 <= k <= ss[i].cp && ss[i].cp < k + RING_N
    ensures Recorded(ss[i], k)
  {
    AlwaysInv(ss, i);
  }

  // ---- commands complete -------------------------------------------------------------

  /** Checkpoints the guest still has to take before the command in progress can be answered. */
  function Owed(s: State): int
  {
    match s.server
    case StepWait(n) => if s.cp == 0 then n + 1 else n
    case StepAim(n) => n
    case StepRelease(target) => target - s.cp
    case StepWatch(target) => target - s.cp
    case ChainWait => if s.cp == 0 then 1 else 0
    case _ => 0
  }

  function GuestPlace(g: GuestPc): nat
  {
    match g
    case Parking => 7
    case Parked => 6
    case Leaving => 5
    case Running => 4
    case Folding(_) => 3
    case Recording(_) => 2
    case Publishing => 1
  }

  function ServerPlace(p: ServerPc): nat
  {
    match p
    case Ready => 0
    case StepWait(_) => 6
    case StepAim(_) => 5
    case StepRelease(_) => 4
    case StepWatch(_) => 3
    case StepReadCp => 2
    case StepReadChain(_) => 1
    case ChainWait => 3
    case ChainReadChain => 2
    case ChainReadCp(_) => 1
  }

  /** An upper bound on the steps both threads together can take before the server replies. */
  function Rank(s: State): int { 8 * Owed(s) + GuestPlace(s.guest) + ServerPlace(s.server) }

  /** Every step of either thread brings a command in progress closer to its reply. */
  lemma RankFalls(s: State, a: Action)
    requires GuestInv(s) && ServerInv(s) && Enabled(s, a) && !s.server.Ready?
    ensures Rank(s) > 0 && Rank(Apply(s, a)) < Rank(s)
  {
  }

  /** A step that serves the command in progress. */
  function Serving(s: State): Action
  {
    match s.server
    case StepAim(_) => Aim
    case StepRelease(_) => Release
    case StepReadCp => ReadCp
    case StepReadChain(_) => ReadChain
    case ChainReadChain => ReadChain
    case ChainReadCp(_) => ReadCp
    case StepWatch(target) => if s.cp >= target then SeeArrived else GuestStep(s.guest)
    case _ => if s.parked then SeeParked else GuestStep(s.guest)
  }

  function GuestStep(g: GuestPc): Action
  {
    match g
    case Running => Checkpoint(0)
    case Folding(_) => FoldChain
    case Recording(_) => RecordRow
    case Publishing => PublishCp
    case Parking => SetParked
    case Parked => SeeRoom
    case Leaving => ClearParked
  }

  lemma NeverStuck(s: State)
    requires GuestInv(s) && ServerInv(s) && !s.server.Ready?
    ensures Enabled(s, Serving(s))
  {
  }

  lemma {:induction false} RankFallsAt(ss: seq<State>, i: nat)
    requires Behaviour(ss) && i + 1 < |ss| && !ss[i].server.Ready?
    ensures Rank(ss[i + 1]) < Rank(ss[i])
  {
    AlwaysInv(ss, i);
    assert StepAt(ss, i);
    var a :| Enabled(ss[i], a) && ss[i + 1] == Apply(ss[i], a);
    RankFalls(ss[i], a);
  }

  /** Every command completes: in every run, while one is in progress some step that serves it is
      enabled, and however the two threads are scheduled fewer than Rank steps pass before its reply. */
  lemma {:induction false} CommandsComplete(ss: seq<State>, i: nat, j: nat)
    requires Behaviour(ss) && i <= j < |ss|
    requires forall k :: i <= k <= j ==> !ss[k].server.Ready?
    ensures Enabled(ss[j], Serving(ss[j]))
    ensures j - i < Rank(ss[i])
    ensures Rank(ss[j]) + (j - i) <= Rank(ss[i])
    decreases j
  {
    AlwaysInv(ss, j);
    NeverStuck(ss[j]);
    RankFalls(ss[j], Serving(ss[j]));
    if i < j {
      CommandsComplete(ss, i, j - 1);
      RankFallsAt(ss, j - 1);
    }
  }

  /** From a guest that has parked before, `step n` is answered within 8n + 13 steps of both threads. */
  lemma {:induction false} StepRank(ss: seq<State>, i: nat)
    requires Behaviour(ss) && i < |ss| && ss[i].server.StepWait? && ss[i].cp > 0
    ensures Rank(ss[i]) <= 8 * ss[i].server.n + 13
  {
    AlwaysInv(ss, i);
  }

  // ---- two guests --------------------------------------------------------------------

  /** Two guests whose chains differ at checkpoint k, and whose state hashes agree from there to
      checkpoint m: their replies at m carry different chains, in every pair of runs. */
  lemma {:induction false} SplitGuestsStaySplit(ss: seq<State>, i: nat, r: Reply, tt: seq<State>, j: nat, q: Reply, k: nat)
    requires Behaviour(ss) && i < |ss| && r in ss[i].replies
    requires Behaviour(tt) && j < |tt| && q in tt[j].replies
    requires k <= r.cp == q.cp && r.cp <= |ss[i].fulls| && q.cp <= |tt[j].fulls|
    requires ss[i].fulls[k..r.cp] == tt[j].fulls[k..r.cp]
    ensures r.chain == q.chain <==> ChainOf(ss[i].fulls[..k]) == ChainOf(tt[j].fulls[..k])
  {
    RepliesAreExact(ss, i, r);
    RepliesAreExact(tt, j, q);
    var f, g := ss[i].fulls, tt[j].fulls;
    assert f[..r.cp][..k] == f[..k] && g[..r.cp][..k] == g[..k];
    assert f[..r.cp][k..] == f[k..r.cp] && g[..r.cp][k..] == g[k..r.cp];
    ChainsMeetOnlyIfEqual(FNV_OFFSET, f[..r.cp], g[..r.cp], k);
  }

  /** Two guests whose state hashes part at checkpoint k+1, in one byte, and agree afterwards: every pair
      of their replies at a later checkpoint carries different chains. */
  lemma {:induction false} DivergenceShows(ss: seq<State>, i: nat, r: Reply, tt: seq<State>, j: nat, q: Reply, k: nat, b: nat)
    requires Behaviour(ss) && i < |ss| && r in ss[i].replies
    requires Behaviour(tt) && j < |tt| && q in tt[j].replies
    requires k < r.cp == q.cp && r.cp <= |ss[i].fulls| && q.cp <= |tt[j].fulls|
    requires ss[i].fulls[..k] == tt[j].fulls[..k] && ss[i].fulls[k + 1..r.cp] == tt[j].fulls[k + 1..r.cp]
    requires OneByteApart(ss[i].fulls[k], tt[j].fulls[k], b)
    ensures r.chain != q.chain
  {
    RepliesAreExact(ss, i, r);
    RepliesAreExact(tt, j, q);
    var f, g := ss[i].fulls[..r.cp], tt[j].fulls[..r.cp];
    assert f[..k] == ss[i].fulls[..k] && g[..k] == tt[j].fulls[..k];
    assert f[k + 1..] == ss[i].fulls[k + 1..r.cp] && g[k + 1..] == tt[j].fulls[k + 1..r.cp];
    ChainShowsState(FNV_OFFSET, f, g, k, b);
  }

  // ---- commands and checkpoints by the actions of a run ------------------------------

  ghost predicate TakenAt(ss: seq<State>, acts: seq<Action>, i: nat)
  {
    i < |acts| && i + 1 < |ss| && Enabled(ss[i], acts[i]) && ss[i + 1] == Apply(ss[i], acts[i])
  }

  /** A run with the action of each of its steps. */
  ghost predicate RunBy(ss: seq<State>, acts: seq<Action>)
  {
    && |ss| == |acts| + 1 && ss[0] == INITIAL
    && forall i: nat :: i < |acts| ==> TakenAt(ss, acts, i)
  }

  lemma {:induction false} RunIsBehaviour(ss: seq<State>, acts: seq<Action>)
    requires RunBy(ss, acts)
    ensures Behaviour(ss)
  {
    forall i: nat | i + 1 < |ss| ensures StepAt(ss, i) {
      assert TakenAt(ss, acts, i);
    }
  }

  /** The state hashes the guest took, in order. */
  function Taken(acts: seq<Action>): seq<u64>
  {
    if acts == [] then []
    else Taken(acts[..|acts| - 1]) + match acts[|acts| - 1] case Checkpoint(full) => [full] case _ => []
  }

  lemma TakenStep(s: State, a: Action, taken: seq<u64>)
    requires Enabled(s, a) && taken == s.fulls + (if s.guest.Folding? then [s.guest.full] else [])
    ensures var t := Apply(s, a);
            taken + (match a case Checkpoint(full) => [full] case _ => [])
            == t.fulls + (if t.guest.Folding? then [t.guest.full] else [])
  {
  }

  /** The history the replies speak of is what the guest's checkpoints hashed: all of it, in order, but
      for the one being folded. */
  lemma {:induction false} HistoryIsTaken(ss: seq<State>, acts: seq<Action>, i: nat)
    requires RunBy(ss, acts) && i < |ss|
    ensures Taken(acts[..i]) == ss[i].fulls + (if ss[i].guest.Folding? then [ss[i].guest.full] else [])
  {
    if i > 0 {
      HistoryIsTaken(ss, acts, i - 1);
      assert TakenAt(ss, acts, i - 1);
      assert acts[..i][..i - 1] == acts[..i - 1];
      TakenStep(ss[i - 1], acts[i - 1], Taken(acts[..i - 1]));
    }
  }

  /** The checkpoint at which the guest stands, or will stand for the first time, when a command comes. */
  function Base(s: State): nat { if s.cp == 0 then 1 else s.cp }

  /** A `step` of n from checkpoint `base` is in progress. */
  predicate Stepping(s: State, base: nat, n: nat)
  {
    match s.server
    case StepWait(m) => m == n && Base(s) == base
    case StepAim(m) => m == n && s.cp == base
    case StepRelease(target) => target == base + n && s.cp == base && s.from == base && s.steps == n
    case StepWatch(target) => target == base + n && s.from == base && s.steps == n
    case StepReadCp => s.cp == base + n && s.from == base && s.steps == n
    case StepReadChain(cp) => cp == s.cp == base + n && s.from == base && s.steps == n
    case _ => false
  }

  lemma SteppingKeeps(s: State, a: Action, base: nat, n: nat)
    requires GuestInv(s) && ServerInv(s) && Enabled(s, a) && Stepping(s, base, n)
    ensures var t := Apply(s, a);
            if t.server.Ready? then s.cp == base + n && t.replies == s.replies + [StepReply(base, n, base + n, s.chain)]
            else Stepping(t, base, n) && t.replies == s.replies
  {
  }

  predicate Chaining(s: State, base: nat)
  {
    match s.server
    case ChainWait => Base(s) == base
    case ChainReadChain => s.cp == base
    case ChainReadCp(chain) => s.cp == base && chain == s.chain
    case _ => false
  }

  lemma ChainingKeeps(s: State, a: Action, base: nat)
    requires GuestInv(s) && ServerInv(s) && Enabled(s, a) && Chaining(s, base)
    ensures var t := Apply(s, a);
            if t.server.Ready? then s.cp == base && t.replies == s.replies + [ChainReply(base, s.chain)]
            else Chaining(t, base) && t.replies == s.replies
  {
  }

  /** The invariant and the action of one step of a run. */
  lemma {:induction false} InvBefore(ss: seq<State>, acts: seq<Action>, j: nat)
    requires RunBy(ss, acts) && 0 < j < |ss|
    ensures TakenAt(ss, acts, j - 1) && GuestInv(ss[j - 1]) && ServerInv(ss[j - 1])
  {
    RunIsBehaviour(ss, acts);
    assert TakenAt(ss, acts, j - 1);
    AlwaysInv(ss, j - 1);
  }

  lemma {:induction false} SteppingGoesOn(ss: seq<State>, acts: seq<Action>, j: nat, base: nat, n: nat)
    requires RunBy(ss, acts) && 0 < j < |ss| && !ss[j].server.Ready? && Stepping(ss[j - 1], base, n)
    ensures Stepping(ss[j], base, n) && ss[j].replies == ss[j - 1].replies
  {
    InvBefore(ss, acts, j);
    SteppingKeeps(ss[j - 1], acts[j - 1], base, n);
  }

  lemma SteppingBegins(s: State, n: nat)
    requires Enabled(s, CommandStep(n))
    ensures var t := Apply(s, CommandStep(n)); Stepping(t, Base(s), if n < 1 then 1 else n) && t.replies == s.replies
  {
  }

  lemma {:induction false} SteppingAlong(ss: seq<State>, acts: seq<Action>, i: nat, j: nat, n: nat)
    requires RunBy(ss, acts) && i < j < |ss| && acts[i] == CommandStep(n)
    requires forall k :: i < k <= j ==> !ss[k].server.Ready?
    ensures Stepping(ss[j], Base(ss[i]), if n < 1 then 1 else n) && ss[j].replies == ss[i].replies
  {
    if j > i + 1 {
      SteppingAlong(ss, acts, i, j - 1, n);
      SteppingGoesOn(ss, acts, j, Base(ss[i]), if n < 1 then 1 else n);
    } else {
      assert TakenAt(ss, acts, i);
      SteppingBegins(ss[i], n);
    }
  }

  /** The answer to a `step n` command, from the number the command carried and the checkpoint at which
      the guest stood: the next reply names exactly the checkpoint n further on (one further when n is
      less than one), with the chain over exactly the checkpoints taken up to there. */
  lemma {:induction false} StepAnswered(ss: seq<State>, acts: seq<Action>, i: nat, j: nat, n: nat)
    requires RunBy(ss, acts) && i < j < |acts| && acts[i] == CommandStep(n)
    requires (forall k :: i < k <= j ==> !ss[k].server.Ready?) && ss[j + 1].server.Ready?
    ensures var m := if n < 1 then 1 else n;
            var at := (if ss[i].cp == 0 then 1 else ss[i].cp) + m;
            && at <= |Taken(acts[..j])| && ss[j].cp == at
            && ss[j + 1].replies == ss[i].replies + [StepReply(at - m, m, at, ChainOf(Taken(acts[..j])[..at]))]
  {
    SteppingAlong(ss, acts, i, j, n);
    LastStep(ss, acts, j, Base(ss[i]), if n < 1 then 1 else n);
  }

  lemma {:induction false} LastStep(ss: seq<State>, acts: seq<Action>, j: nat, base: nat, n: nat)
    requires RunBy(ss, acts) && j < |acts| && Stepping(ss[j], base, n) && ss[j + 1].server.Ready?
    ensures base + n <= |Taken(acts[..j])| && ss[j].cp == base + n
    ensures ss[j + 1].replies == ss[j].replies + [StepReply(base, n, base + n, ChainOf(Taken(acts[..j])[..base + n]))]
  {
    ReplyInPlace(ss, acts, j);
    StepReplies(ss[j], acts[j], ss[j + 1], base, n, Taken(acts[..j]));
  }

  lemma {:induction false} StepReplies(s: State, a: Action, t: State, base: nat, n: nat, taken: seq<u64>)
    requires GuestInv(s) && ServerInv(s) && Enabled(s, a) && t == Apply(s, a) && Stepping(s, base, n) && t.server.Ready?
    requires s.cp <= |taken| && s.chain == ChainOf(taken[..s.cp])
    ensures s.cp == base + n && t.replies == s.replies + [StepReply(base, n, base + n, ChainOf(taken[..base + n]))]
  {
    SteppingKeeps(s, a, base, n);
  }

  /** When the server sends a reply the guest stands, and the chain is over all it has taken. */
  lemma {:induction false} ReplyInPlace(ss: seq<State>, acts: seq<Action>, j: nat)
    requires RunBy(ss, acts) && j < |acts| && !ss[j].server.Ready? && ss[j + 1].server.Ready?
    ensures TakenAt(ss, acts, j) && GuestInv(ss[j]) && ServerInv(ss[j])
    ensures ss[j].cp <= |Taken(acts[..j])| && ss[j].chain == ChainOf(Taken(acts[..j])[..ss[j].cp])
  {
    RunIsBehaviour(ss, acts);
    AlwaysInv(ss, j);
    assert TakenAt(ss, acts, j);
    HistoryIsTaken(ss, acts, j);
    var s := ss[j];
    assert Looking(s.server);
    assert s.fulls[..s.cp] == s.fulls && Taken(acts[..j])[..s.cp] == s.fulls;
  }

  lemma {:induction false} ChainingGoesOn(ss: seq<State>, acts: seq<Action>, j: nat, base: nat)
    requires RunBy(ss, acts) && 0 < j < |ss| && !ss[j].server.Ready? && Chaining(ss[j - 1], base)
    ensures Chaining(ss[j], base) && ss[j].replies == ss[j - 1].replies
  {
    InvBefore(ss, acts, j);
    ChainingKeeps(ss[j - 1], acts[j - 1], base);
  }

  lemma ChainingBegins(s: State)
    requires Enabled(s, CommandChain)
    ensures var t := Apply(s, CommandChain); Chaining(t, Base(s)) && t.replies == s.replies
  {
  }

  lemma {:induction false} ChainingAlong(ss: seq<State>, acts: seq<Action>, i: nat, j: nat)
    requires RunBy(ss, acts) && i < j < |ss| && acts[i] == CommandChain
    requires forall k :: i < k <= j ==> !ss[k].server.Ready?
    ensures Chaining(ss[j], Base(ss[i])) && ss[j].replies == ss[i].replies
  {
    if j > i + 1 {
      ChainingAlong(ss, acts, i, j - 1);
      ChainingGoesOn(ss, acts, j, Base(ss[i]));
    } else {
      assert TakenAt(ss, acts, i);
      ChainingBegins(ss[i]);
    }
  }

  /** The answer to a `chain` command: the checkpoint at which the guest stood, with its chain. */
  lemma {:induction false} ChainAnswered(ss: seq<State>, acts: seq<Action>, i: nat, j: nat)
    requires RunBy(ss, acts) && i < j < |acts| && acts[i] == CommandChain
    requires (forall k :: i < k <= j ==> !ss[k].server.Ready?) && ss[j + 1].server.Ready?
    ensures var at := if ss[i].cp == 0 then 1 else ss[i].cp;
            && at <= |Taken(acts[..j])| && ss[j].cp == at
            && ss[j + 1].replies == ss[i].replies + [ChainReply(at, ChainOf(Taken(acts[..j])[..at]))]
  {
    ChainingAlong(ss, acts, i, j);
    LastChain(ss, acts, j, Base(ss[i]));
  }

  lemma {:induction false} LastChain(ss: seq<State>, acts: seq<Action>, j: nat, base: nat)
    requires RunBy(ss, acts) && j < |acts| && Chaining(ss[j], base) && ss[j + 1].server.Ready?
    ensures base <= |Taken(acts[..j])| && ss[j].cp == base
    ensures ss[j + 1].replies == ss[j].replies + [ChainReply(base, ChainOf(Taken(acts[..j])[..base]))]
  {
    ReplyInPlace(ss, acts, j);
    ChainingKeeps(ss[j], acts[j], base);
  }
}
