/** The framed and RAM-handler capsules of the interpreter floor (runner/m68k_interp.c) and the
    dispatch-miss handler that accepts or rolls back a framed run (runner/glue.c).

    The bus, decoding, instruction hooks, per-instruction accounting and every instruction other
    than the call and return family are a parameter (`Env`), so each theorem holds for all. */
module Capsule {
  import opened Bits
  import opened Cpu
  import Movem

  /** g_cpu and memory. `regs` is every register other than A7, PC and SR. */
  datatype State = State(regs: seq<u32>, a7: u32, pc: u32, sr: u16, mem: Memory)

  datatype Kind = Jsr | Bsr | Rts | Rtr | Rte | Other

  /** A decoded instruction: its kind, branch target and fall-through address. */
  datatype Instr = Instr(kind: Kind, target: u32, fall: u32)

  datatype Decoded = Undecodable | Decoded(ins: Instr)

  datatype Executed = Executed(st: State, next: u32) | Halted(st: State)

  datatype Env = Env(
    read16: (Memory, u32) -> u16,
    read32: (Memory, u32) -> u32,
    write32: (Memory, u32, u32) -> Memory,
    fetchable: u32 -> bool,
    hook: State -> (bool, State),        // did the game's hook handle the routine, and its effect
    decode: (State, u32) -> Decoded,     // the bus and registers after the hook, the address before it
    execOther: (State, Instr) -> Executed,
    account: State -> State)

  datatype CapsuleStatus = OK | HALT_UNIMPL | HALT_GUARD | HALT_BADADDR

  const GUARD: nat := 50_000_000

  function Address24(v: int): u32 { v % 0x100_0000 }

  function Push32(env: Env, st: State, v: u32): State
  {
    st.(a7 := Wrap(st.a7 - 4), mem := env.write32(st.mem, Wrap(st.a7 - 4), v))
  }

  function Peek(env: Env, st: State, offset: nat): u32 { Address24(env.read32(st.mem, Wrap(st.a7 + offset))) }

  function Pop(st: State, bytes: nat): State { st.(a7 := Wrap(st.a7 + bytes)) }

  /** RTR takes its low byte from the popped word, RTE the bits a status register has (0xA71F). */
  function WithCcr(sr: u16, word: u16): u16 { sr - sr % 256 + word % 256 }
  function ValidSr(word: u16): u16
  {
    AndBound(word, 0xA71F);
    BitAnd(word, 0xA71F)
  }

  function Status(env: Env, st: State): u16 { env.read16(st.mem, st.a7) }

  /** exec_one. RTR and RTE pop a status word below the return address. */
  function Execute(env: Env, st: State, ins: Instr): Executed
  {
    match ins.kind
    case Jsr => Executed(Push32(env, st, ins.fall), ins.target)
    case Bsr => Executed(Push32(env, st, ins.fall), ins.target)
    case Rts => Executed(Pop(st, 4), Peek(env, st, 0))
    case Rtr => Executed(Pop(st, 6).(sr := WithCcr(st.sr, Status(env, st))), Peek(env, st, 2))
    case Rte => Executed(Pop(st, 6).(sr := ValidSr(Status(env, st))), Peek(env, st, 2))
    case Other => env.execOther(st, ins)
  }

  predicate IsCall(k: Kind) { k == Jsr || k == Bsr }
  predicate IsReturn(k: Kind) { k == Rts || k == Rtr }

  // ---- reference semantics -----------------------------------------------------------

  /** Loop state: machine, net call depth, instructions retired. */
  datatype Config = Config(st: State, depth: nat, count: nat)

  datatype Outcome = Outcome(status: CapsuleStatus, exitPc: u32, st: State, rtePending: bool)

  datatype Next = Continue(c: Config) | Stop(o: Outcome)

  /** Executing a decoded instruction that is not the capsule's own return. */
  function Retire(env: Env, c: Config, st: State, ins: Instr): Next
    requires c.depth > 0 || !IsReturn(ins.kind)
  {
    match Execute(env, st, ins)
    case Halted(st') => Stop(Outcome(HALT_UNIMPL, 0, st', false))
    case Executed(st', next) =>
      var st'' := env.account(st'.(pc := Address24(next)));
      var depth' := if IsCall(ins.kind) then c.depth + 1 else if IsReturn(ins.kind) then c.depth - 1 else c.depth;
      if c.count + 1 > GUARD then Stop(Outcome(HALT_GUARD, 0, st'', false))
      else Continue(Config(st'', depth', c.count + 1))
  }

  /** One iteration. `ram` selects the RAM-handler capsule, which alone treats RTE as an exit. */
  function Iterate(env: Env, ram: bool, c: Config): Next
  {
    if !env.fetchable(Address24(c.st.pc)) then Stop(Outcome(HALT_BADADDR, 0, c.st, false))
    else
      var (handled, st) := env.hook(c.st);
      if handled then
        if c.depth == 0 then Stop(Outcome(OK, Peek(env, st, 0), st, false))
        else Continue(Config(Pop(st, 4).(pc := Peek(env, st, 0)), c.depth - 1, c.count))
      else match env.decode(st, Address24(c.st.pc))
        case Undecodable => Stop(Outcome(HALT_UNIMPL, 0, st, false))
        case Decoded(ins) =>
          if c.depth == 0 && IsReturn(ins.kind) then
            Stop(Outcome(OK, Peek(env, st, if ins.kind == Rtr then 2 else 0), st, false))
          else if ram && ins.kind == Rte then
            Stop(Outcome(OK, 0, env.account(st.(a7 := Wrap(st.a7 + 4 * c.depth))), true))
          else Retire(env, c, st, ins)
  }

  /** The whole run. Each iteration retires an instruction or leaves a call level. */
  function Run(env: Env, ram: bool, c: Config): Outcome
    requires c.count <= GUARD
    decreases GUARD - c.count, c.depth
  {
    match Iterate(env, ram, c)
    case Stop(o) => o
    case Continue(c') => Run(env, ram, c')
  }

  // ---- stack discipline --------------------------------------------------------------

  /** Hooks, accounting and every instruction outside the call and return family leave A7 alone. */
  ghost predicate OthersKeepA7(env: Env)
  {
    && (forall st :: env.hook(st).1.a7 == st.a7)
    && (forall st :: env.account(st).a7 == st.a7)
    && (forall st, ins :: env.execOther(st, ins).st.a7 == st.a7)
  }

  /** RTR is never decoded, nor RTE outside the RAM capsule, where it is an exit. */
  ghost predicate ReturnsAreRts(env: Env, ram: bool)
  {
    forall st, pc :: env.decode(st, pc).Decoded? ==>
      env.decode(st, pc).ins.kind != Rtr && (env.decode(st, pc).ins.kind == Rte ==> ram)
  }

  /** Status-word bytes an iteration pops beyond the four of a matching call: an RTR below the top
      level pops two more, and an RTE that is not an exit pops six against no call at all. */
  function StatusBytes(env: Env, ram: bool, c: Config): nat
  {
    var (handled, st) := env.hook(c.st);
    var d := env.decode(st, Address24(c.st.pc));
    if !env.fetchable(Address24(c.st.pc)) || handled || d.Undecodable? then 0
    else
      var k := d.ins.kind;
      if k == Rtr && c.depth > 0 then 2 else if k == Rte && !ram then 6 else 0
  }

  /** Over a whole run. */
  function StatusBytesPopped(env: Env, ram: bool, c: Config): (n: nat)
    requires c.count <= GUARD
    ensures n <= 6 * (GUARD + 1 - c.count)
    decreases GUARD - c.count, c.depth
  {
    StatusBytes(env, ram, c) + match Iterate(env, ram, c) case Stop(_) => 0 case Continue(c') => StatusBytesPopped(env, ram, c')
  }

  /** A7 plus four bytes per open call. */
  function Level(c: Config): u32 { Wrap(c.st.a7 + 4 * c.depth) }

  /** The level after moving A7 by k bytes and the depth from d to d'. */
  lemma {:induction false} WrapMoves(a7: u32, k: int, d: int, d': int)
    ensures Wrap(Wrap(a7 + k) + 4 * d') == Wrap(Wrap(a7 + 4 * d) + (k + 4 * d' - 4 * d))
    ensures k == 0 ==> Wrap(a7 + k) == a7
  {
    WrapShift(a7 + k, 4 * d');
    WrapShift(a7 + 4 * d, k + 4 * d' - 4 * d);
  }

  /** One iteration raises the level by exactly the status bytes it pops. */
  lemma {:induction false} IterationLevel(env: Env, ram: bool, c: Config)
    requires OthersKeepA7(env)
    ensures match Iterate(env, ram, c)
            case Continue(c') => Level(c') == Wrap(Level(c) + StatusBytes(env, ram, c))
            case Stop(o) => o.status == OK ==> o.st.a7 == Level(c) && StatusBytes(env, ram, c) == 0
  {
    var (handled, st) := env.hook(c.st);
    assert st.a7 == c.st.a7 by { assert env.hook(c.st).1.a7 == c.st.a7; }
    WrapShift(st.a7, 0);
    WrapShift(st.a7 + 4, 4 * (c.depth - 1));
    WrapShift(st.a7 + 4 * c.depth, 0);
    var d := env.decode(st, Address24(c.st.pc));
    if env.fetchable(Address24(c.st.pc)) && !handled && d.Decoded? {
      var ins := d.ins;
      if c.depth == 0 && IsReturn(ins.kind) {
      } else if ram && ins.kind == Rte {
        assert env.account(st.(a7 := Wrap(st.a7 + 4 * c.depth))).a7 == Wrap(st.a7 + 4 * c.depth);
      } else {
        RetireLevel(env, c, st, ins);
      }
    }
  }

  function DepthAfter(k: Kind, depth: nat): int
  {
    if IsCall(k) then depth + 1 else if IsReturn(k) then depth - 1 else depth
  }

  function StatusWord(k: Kind): nat { if k == Rtr then 2 else if k == Rte then 6 else 0 }

  lemma {:induction false} ExecuteLevel(env: Env, st: State, ins: Instr, depth: nat)
    requires OthersKeepA7(env)
    ensures Wrap(Execute(env, st, ins).st.a7 + 4 * DepthAfter(ins.kind, depth)) ==
            Wrap(Wrap(st.a7 + 4 * depth) + StatusWord(ins.kind))
  {
    var k := if IsCall(ins.kind) then -4 else if ins.kind == Rts then 4 else if ins.kind == Other then 0 else 6;
    WrapMoves(st.a7, k, depth, DepthAfter(ins.kind, depth));
    if ins.kind == Other { assert env.execOther(st, ins).st.a7 == st.a7; }
  }

  lemma {:induction false} RetireLevel(env: Env, c: Config, st: State, ins: Instr)
    requires OthersKeepA7(env) && st.a7 == c.st.a7 && (c.depth > 0 || !IsReturn(ins.kind))
    ensures match Retire(env, c, st, ins)
            case Continue(c') => Level(c') == Wrap(Level(c) + StatusWord(ins.kind))
            case Stop(o) => o.status != OK
  {
    var x := Execute(env, st, ins);
    ExecuteLevel(env, st, ins, c.depth);
    if x.Executed? {
      var st' := x.st.(pc := Address24(x.next));
      assert env.account(st').a7 == st'.a7;
    }
  }

  /** Where a run that ends with OK leaves A7. */
  ghost predicate ExitsAt(o: Outcome, level: u32, popped: nat)
  {
    o.status == OK ==> o.st.a7 == Wrap(level + popped)
  }

  lemma {:induction false} ExitLevel(env: Env, ram: bool, c: Config)
    requires OthersKeepA7(env) && c.count <= GUARD
    ensures ExitsAt(Run(env, ram, c), Level(c), StatusBytesPopped(env, ram, c))
    decreases GUARD - c.count, c.depth
  {
    match Iterate(env, ram, c)
    case Stop(o) => StopsAtLevel(env, ram, c, o);
    case Continue(c') =>
      ExitLevel(env, ram, c');
      GoesOnAtLevel(env, ram, c, c', Run(env, ram, c'), StatusBytesPopped(env, ram, c'));
  }

  lemma {:induction false} StopsAtLevel(env: Env, ram: bool, c: Config, o: Outcome)
    requires OthersKeepA7(env) && Iterate(env, ram, c) == Stop(o)
    ensures ExitsAt(o, Level(c), StatusBytes(env, ram, c))
  {
    IterationLevel(env, ram, c);
    WrapShift(Level(c), 0);
  }

  lemma {:induction false} GoesOnAtLevel(env: Env, ram: bool, c: Config, c': Config, o: Outcome, n: nat)
    requires OthersKeepA7(env) && Iterate(env, ram, c) == Continue(c') && ExitsAt(o, Level(c'), n)
    ensures ExitsAt(o, Level(c), StatusBytes(env, ram, c) + n)
  {
    IterationLevel(env, ram, c);
    ExitChain(Level(c), Level(c'), StatusBytes(env, ram, c), n, o);
  }

  lemma {:induction false} ExitChain(x: u32, y: u32, k: nat, n: nat, o: Outcome)
    requires y == Wrap(x + k) && ExitsAt(o, y, n)
    ensures ExitsAt(o, x, k + n)
  {
    LevelChain(x, y, k, n);
  }

  lemma {:induction false} LevelChain(x: u32, y: u32, k: nat, n: nat)
    requires y == Wrap(x + k)
    ensures Wrap(y + n) == Wrap(x + (k + n))
  {
    WrapShift(x + k, n);
  }

  /** A capsule entered at depth zero that ends with OK (a depth-0 return, or in the RAM capsule
      RTE at any depth) hands back A7 untouched exactly when it popped no status word. */
  lemma {:induction false} CapsuleIsStackNeutral(env: Env, ram: bool, st: State)
    requires OthersKeepA7(env)
    ensures var c := Config(st, 0, 0);
            Run(env, ram, c).status == OK ==> (Run(env, ram, c).st.a7 == st.a7 <==> StatusBytesPopped(env, ram, c) == 0)
  {
    var c := Config(st, 0, 0);
    ExitLevel(env, ram, c);
    WrapShift(st.a7, 0);
    UnwrapOnce(st.a7, StatusBytesPopped(env, ram, c));
  }

  lemma UnwrapOnce(a: u32, n: nat)
    requires n < TWO32
    ensures Wrap(a + n) == a <==> n == 0
  {
  }

  // ---- what each step does to PC and the stack ---------------------------------------

  /** The loop body gets as far as executing `ins`, with the machine as the hook left it. */
  ghost predicate Reaches(env: Env, c: Config, st: State, ins: Instr)
  {
    && env.fetchable(c.st.pc % 0x100_0000) && env.hook(c.st) == (false, st)
    && env.decode(st, c.st.pc % 0x100_0000) == Decoded(ins)
  }

  /** What was written is read back, and accounting touches neither PC, A7, SR nor memory. */
  ghost predicate RealMemory(env: Env)
  {
    && (forall m, a, v :: env.read32(env.write32(m, a, v), a) == v)
    && (forall st :: env.account(st) == st.(regs := env.account(st).regs))
  }

  /** The configuration after an instruction that does not end the run. */
  ghost predicate Lands(n: Config, c: Config, kind: Kind, pc: u32, a7: u32, sr: u16, mem: Memory)
  {
    && n.st.pc == pc && n.st.a7 == a7 && n.st.sr == sr && n.st.mem == mem
    && n.depth == DepthAfter(kind, c.depth) && n.count == c.count + 1
  }

  lemma {:induction false} RetireStep(env: Env, ram: bool, c: Config, st: State, ins: Instr, after: State, next: u32) returns (n: Config)
    requires RealMemory(env) && Reaches(env, c, st, ins) && c.count < GUARD
    requires !(c.depth == 0 && IsReturn(ins.kind)) && !(ram && ins.kind == Rte)
    requires Execute(env, st, ins) == Executed(after, next)
    ensures Iterate(env, ram, c) == Continue(n)
    ensures Lands(n, c, ins.kind, next % 0x100_0000, after.a7, after.sr, after.mem)
  {
    Accounted(env, after.(pc := Address24(next)));
    assert Iterate(env, ram, c) == Retire(env, c, st, ins);
    n := Iterate(env, ram, c).c;
  }

  lemma Twice(v: u32)
    ensures Address24(v) % 0x100_0000 == v % 0x100_0000
  {
  }

  lemma {:induction false} Accounted(env: Env, st: State)
    requires RealMemory(env)
    ensures var r := env.account(st); r.pc == st.pc && r.a7 == st.a7 && r.sr == st.sr && r.mem == st.mem
  {
    assert env.account(st) == st.(regs := env.account(st).regs);
  }

  /** JSR and BSR: control goes to the target, and the long at the new A7 is the address after the
      call. */
  lemma {:induction false} CallStep(env: Env, ram: bool, c: Config, st: State, ins: Instr) returns (n: Config)
    requires RealMemory(env) && Reaches(env, c, st, ins) && (ins.kind == Jsr || ins.kind == Bsr) && c.count < GUARD
    ensures Iterate(env, ram, c) == Continue(n) && n.depth == c.depth + 1
    ensures var sp := (st.a7 - 4) % TWO32;
            && Lands(n, c, ins.kind, ins.target % 0x100_0000, sp, st.sr, env.write32(st.mem, sp, ins.fall))
            && env.read32(n.st.mem, n.st.a7) == ins.fall
  {
    var sp := Wrap(st.a7 - 4);
    n := RetireStep(env, ram, c, st, ins, st.(a7 := sp, mem := env.write32(st.mem, sp, ins.fall)), ins.target);
  }

  /** RTS below the top level: control goes where the long at A7 says. */
  lemma {:induction false} RtsStep(env: Env, ram: bool, c: Config, st: State, ins: Instr) returns (n: Config)
    requires RealMemory(env) && Reaches(env, c, st, ins) && ins.kind == Rts && c.depth > 0 && c.count < GUARD
    ensures Iterate(env, ram, c) == Continue(n) && n.depth == c.depth - 1
    ensures Lands(n, c, Rts, env.read32(st.mem, st.a7) % 0x100_0000, (st.a7 + 4) % TWO32, st.sr, st.mem)
  {
    WrapShift(st.a7, 0);
    Twice(env.read32(st.mem, st.a7));
    n := RetireStep(env, ram, c, st, ins, Pop(st, 4), Address24(env.read32(st.mem, st.a7)));
  }

  /** RTE keeps the bits of the popped word that a status register has. */
  lemma {:induction false} ValidSrBits(word: u16, i: nat)
    ensures Bit(ValidSr(word), i) == (Bit(word, i) && Bit(0xA71F, i))
  {
    AndBits(word, 0xA71F, i);
  }

  /** RTR takes only the condition-code byte. */
  lemma WithCcrBytes(sr: u16, word: u16)
    ensures WithCcr(sr, word) / 256 == sr / 256 && WithCcr(sr, word) % 256 == word % 256
  {
  }

  /** RTR below the top level: the CCR byte of the word at A7 goes into the status register, the long
      above it into PC. */
  lemma {:induction false} RtrReturns(env: Env, ram: bool, c: Config, st: State, ins: Instr) returns (n: Config)
    requires RealMemory(env) && Reaches(env, c, st, ins) && ins.kind == Rtr && c.depth > 0 && c.count < GUARD
    ensures Iterate(env, ram, c) == Continue(n) && n.depth == c.depth - 1
    ensures Lands(n, c, Rtr, env.read32(st.mem, Wrap(st.a7 + 2)) % 0x100_0000, Wrap(st.a7 + 6),
                  WithCcr(st.sr, env.read16(st.mem, st.a7)), st.mem)
  {
    var after, ret := Pop(st, 6).(sr := WithCcr(st.sr, env.read16(st.mem, st.a7))), env.read32(st.mem, Wrap(st.a7 + 2));
    Twice(ret);
    n := RetireStep(env, ram, c, st, ins, after, Address24(ret));
  }

  /** RTE in the framed capsule: the word at A7 is the status register, the long above it PC; no call
      is closed. */
  lemma {:induction false} RteReturns(env: Env, c: Config, st: State, ins: Instr) returns (n: Config)
    requires RealMemory(env) && Reaches(env, c, st, ins) && ins.kind == Rte && c.count < GUARD
    ensures Iterate(env, false, c) == Continue(n) && n.depth == c.depth
    ensures Lands(n, c, Rte, env.read32(st.mem, Wrap(st.a7 + 2)) % 0x100_0000, Wrap(st.a7 + 6),
                  ValidSr(env.read16(st.mem, st.a7)), st.mem)
  {
    var after, ret := Pop(st, 6).(sr := ValidSr(env.read16(st.mem, st.a7))), env.read32(st.mem, Wrap(st.a7 + 2));
    Twice(ret);
    n := RetireStep(env, false, c, st, ins, after, Address24(ret));
  }

  /** A routine the hook handled, below the top level: an implicit RTS that retires no instruction. */
  lemma {:induction false} HookStep(env: Env, ram: bool, c: Config, st: State)
    requires env.fetchable(c.st.pc % 0x100_0000) && env.hook(c.st) == (true, st) && c.depth > 0
    ensures Iterate(env, ram, c)
            == Continue(Config(st.(a7 := (st.a7 + 4) % TWO32, pc := env.read32(st.mem, st.a7) % 0x100_0000),
                               c.depth - 1, c.count))
  {
    WrapShift(st.a7, 0);
  }

  /** Every other instruction: its own effect, then PC and accounting. */
  lemma OtherStep(env: Env, ram: bool, c: Config, st: State, ins: Instr)
    requires Reaches(env, c, st, ins) && ins.kind == Other
    ensures match env.execOther(st, ins)
            case Executed(after, next) =>
              var done := env.account(after.(pc := next % 0x100_0000));
              Iterate(env, ram, c) == if c.count < GUARD then Continue(Config(done, c.depth, c.count + 1))
                                      else Stop(Outcome(HALT_GUARD, 0, done, false))
            case Halted(after) => Iterate(env, ram, c) == Stop(Outcome(HALT_UNIMPL, 0, after, false))
  {
  }

  /** The ways a run is stopped: an address that cannot be fetched, an instruction that cannot be
      decoded, and the guard. */
  lemma RefusedSteps(env: Env, ram: bool, c: Config)
    ensures !env.fetchable(c.st.pc % 0x100_0000) ==> Iterate(env, ram, c) == Stop(Outcome(HALT_BADADDR, 0, c.st, false))
    ensures var (handled, st) := env.hook(c.st);
            env.fetchable(c.st.pc % 0x100_0000) && !handled && env.decode(st, c.st.pc % 0x100_0000).Undecodable? ==>
              Iterate(env, ram, c) == Stop(Outcome(HALT_UNIMPL, 0, st, false))
    ensures c.count >= GUARD && Iterate(env, ram, c).Continue? ==> env.hook(c.st).0
  {
  }

  /** The exit address of an iteration that ends the run with OK: the long at A7, or above the CCR word
      when the instruction is RTR; an RTE exit reports none and leaves the pending flag. */
  lemma {:induction false} ExitReports(env: Env, ram: bool, c: Config, o: Outcome)
    requires Iterate(env, ram, c) == Stop(o) && o.status == OK
    ensures var (handled, st) := env.hook(c.st);
            var d := env.decode(st, c.st.pc % 0x100_0000);
            if o.rtePending then ram && !handled && d.Decoded? && d.ins.kind == Rte && o.exitPc == 0
            else
              && o.st == st && c.depth == 0
              && o.exitPc == env.read32(st.mem, (st.a7 + if !handled && d.Decoded? && d.ins.kind == Rtr then 2 else 0) % TWO32) % 0x100_0000
              && (handled || (d.Decoded? && (d.ins.kind == Rts || d.ins.kind == Rtr)))
  {
    WrapShift(env.hook(c.st).1.a7, 0);
  }

  /** Over a whole run of a program that returns with RTS: an OK exit reports the long at the exit A7,
      or is the RAM capsule's RTE. */
  lemma {:induction false} RunReports(env: Env, ram: bool, c: Config)
    requires ReturnsAreRts(env, ram) && c.count <= GUARD
    ensures var o := Run(env, ram, c);
            o.status == OK ==>
              if o.rtePending then ram && o.exitPc == 0
              else o.exitPc == env.read32(o.st.mem, o.st.a7) % 0x100_0000
    decreases GUARD - c.count, c.depth
  {
    match Iterate(env, ram, c)
    case Stop(o) =>
      if o.status == OK { ExitReports(env, ram, c, o); WrapShift(o.st.a7, 0); }
    case Continue(c') => RunReports(env, ram, c');
  }

  /** A call and the RTS that closes it, anywhere in a run: while nothing has written the pushed slot,
      control comes back to the address after the call, with A7 and depth as before it. */
  lemma {:induction false} CallReturns(env: Env, ram: bool, cs: seq<Config>, i: nat, j: nat, si: State, call: Instr, sj: State, ret: Instr)
    requires OthersKeepA7(env) && ReturnsAreRts(env, ram) && RealMemory(env) && Trace(env, ram, cs) && i < j < |cs| - 1
    requires Reaches(env, cs[i], si, call) && (call.kind == Jsr || call.kind == Bsr)
    requires Reaches(env, cs[j], sj, ret) && ret.kind == Rts && cs[j].depth == cs[i].depth + 1
    requires env.read32(sj.mem, cs[i + 1].st.a7) == env.read32(cs[i + 1].st.mem, cs[i + 1].st.a7)
    ensures cs[j + 1].st.pc == call.fall % 0x100_0000
    ensures cs[j + 1].st.a7 == cs[i].st.a7 && cs[j + 1].depth == cs[i].depth
  {
    CountBelowGuard(env, ram, cs, i);
    CountBelowGuard(env, ram, cs, j);
    var called := CallStep(env, ram, cs[i], si, call);
    var back := RtsStep(env, ram, cs[j], sj, ret);
    SlotsAgree(env, ram, cs, i, j, si, sj);
    assert StepAt(env, ram, cs, i) && StepAt(env, ram, cs, j);
  }

  /** An instruction that did not end the run left room under the guard. */
  lemma {:induction false} CountBelowGuard(env: Env, ram: bool, cs: seq<Config>, i: nat)
    requires Trace(env, ram, cs) && i + 1 < |cs| && !env.hook(cs[i].st).0
    ensures cs[i].count < GUARD
  {
    assert StepAt(env, ram, cs, i);
  }

  lemma {:induction false} SlotsAgree(env: Env, ram: bool, cs: seq<Config>, i: nat, j: nat, si: State, sj: State)
    requires OthersKeepA7(env) && ReturnsAreRts(env, ram) && Trace(env, ram, cs) && i < |cs| && j < |cs|
    requires env.hook(cs[i].st) == (false, si) && env.hook(cs[j].st) == (false, sj) && cs[j].depth == cs[i].depth + 1
    ensures si.a7 == cs[i].st.a7 && sj.a7 == (si.a7 - 4) % TWO32 && (sj.a7 + 4) % TWO32 == cs[i].st.a7
  {
    EveryStepAtLevel(env, ram, cs, i);
    EveryStepAtLevel(env, ram, cs, j);
    assert env.hook(cs[i].st).1.a7 == cs[i].st.a7 && env.hook(cs[j].st).1.a7 == cs[j].st.a7;
    OneLower(cs[0].st.a7, cs[i].depth, cs[i].st.a7, cs[j].st.a7);
  }

  lemma {:induction false} OneLower(base: u32, d: nat, x: u32, y: u32)
    requires x == Wrap(base - 4 * d) && y == Wrap(base - 4 * (d + 1))
    ensures y == (x - 4) % TWO32 && (y + 4) % TWO32 == x
  {
    WrapShift(base - 4 * d, -4);
    WrapShift(base - 4 * (d + 1), 4);
  }

  // ---- a run that does not hand A7 back ----------------------------------------------

  /** Memory is real, hooks do nothing, and the program is JSR $200 at $100, RTR at $200 and RTS at
      $40000, which is where the RTR lands. */
  function UnevenEnv(): Env
  {
    Env((m, a) => Movem.Read16(m, a), (m, a) => Movem.Fetch(m, a, true), (m, a, v) => Movem.Store(m, a, v, true),
        _ => true, st => (false, st),
        (st, pc) => if pc == 0x100 then Decoded(Instr(Jsr, 0x200, 0x104))
                    else if pc == 0x200 then Decoded(Instr(Rtr, 0, 0x202))
                    else if pc == 0x4_0000 then Decoded(Instr(Rts, 0, 0x4_0002))
                    else Undecodable,
        (st: State, ins: Instr) => Executed(st, ins.fall), st => st)
  }

  function UnevenStart(): State { State([], 0x1000, 0x100, 0, map[]) }

  /** The JSR's return address is on the stack. */
  function UnevenCalled(): State
  {
    State([], 0xFFC, 0x200, 0, Movem.Store(map[], 0xFFC, 0x104, true))
  }

  /** What RTR finds above the pushed address: the CCR word is its high half, the return address its
      low half and the caller's first word. */
  lemma {:induction false} UnevenReads()
    ensures Movem.Read16(UnevenCalled().mem, 0xFFC) == 0
    ensures Movem.Fetch(UnevenCalled().mem, 0xFFE, true) == 0x0104_0000
  {
    Movem.FetchStored(map[], 0xFFC, 0x104, true);
  }

  function UnevenLanded(): State { UnevenCalled().(a7 := 0x1002, pc := 0x4_0000) }

  lemma {:induction false} UnevenCall()
    ensures Iterate(UnevenEnv(), false, Config(UnevenStart(), 0, 0)) == Continue(Config(UnevenCalled(), 1, 1))
  {
    var e, st := UnevenEnv(), UnevenStart();
    var ins := Instr(Jsr, 0x200, 0x104);
    assert Execute(e, st, ins) == Executed(UnevenCalled().(pc := 0x100), 0x200);
    assert Retire(e, Config(st, 0, 0), st, ins) == Continue(Config(UnevenCalled(), 1, 1));
  }

  /** An RTR below the top level, in an environment whose hooks and accounting do nothing. */
  lemma RtrStep(env: Env, st: State, ins: Instr, ret: u32)
    requires env.fetchable(Address24(st.pc)) && env.hook(st) == (false, st) && ins.kind == Rtr
    requires env.decode(st, Address24(st.pc)) == Decoded(ins) && forall s :: env.account(s) == s
    requires Peek(env, st, 2) == ret == Address24(ret)
    ensures Iterate(env, false, Config(st, 1, 1))
            == Continue(Config(Pop(st, 6).(sr := WithCcr(st.sr, Status(env, st)), pc := ret), 0, 2))
  {
  }

  lemma {:induction false} UnevenReturn()
    ensures Iterate(UnevenEnv(), false, Config(UnevenCalled(), 1, 1)) == Continue(Config(UnevenLanded(), 0, 2))
  {
    UnevenReads();
    UnevenPeek(UnevenCalled().mem);
    RtrStep(UnevenEnv(), UnevenCalled(), Instr(Rtr, 0, 0x202), 0x4_0000);
  }

  lemma UnevenPeek(m: Memory)
    requires Movem.Read16(m, 0xFFC) == 0 && Movem.Fetch(m, 0xFFE, true) == 0x0104_0000
    ensures Peek(UnevenEnv(), State([], 0xFFC, 0x200, 0, m), 2) == 0x4_0000
    ensures Status(UnevenEnv(), State([], 0xFFC, 0x200, 0, m)) == 0
  {
  }

  lemma UnevenExit()
    ensures var n := Iterate(UnevenEnv(), false, Config(UnevenLanded(), 0, 2));
            n.Stop? && n.o.status == OK && n.o.st == UnevenLanded()
  {
  }

  /** A call answered by RTR: the run ends OK two bytes above the A7 it was entered with. */
  lemma {:induction false} RtrLosesTheStack()
    ensures OthersKeepA7(UnevenEnv())
    ensures var o := Run(UnevenEnv(), false, Config(UnevenStart(), 0, 0));
            o.status == OK && o.st.a7 == UnevenStart().a7 + 2
  {
    UnevenCall();
    UnevenReturn();
    UnevenExit();
    var e := UnevenEnv();
    RunStep(e, Config(UnevenStart(), 0, 0), Config(UnevenCalled(), 1, 1));
    RunStep(e, Config(UnevenCalled(), 1, 1), Config(UnevenLanded(), 0, 2));
  }

  lemma RunStep(env: Env, c: Config, c': Config)
    requires c.count < GUARD && Iterate(env, false, c) == Continue(c') && c'.count == c.count + 1
    ensures Run(env, false, c) == Run(env, false, c')
  {
  }

  lemma {:induction false} RtsPopsNoStatus(env: Env, ram: bool, c: Config)
    requires ReturnsAreRts(env, ram) && c.count <= GUARD
    ensures StatusBytesPopped(env, ram, c) == 0
    decreases GUARD - c.count, c.depth
  {
    var d := env.decode(env.hook(c.st).1, Address24(c.st.pc));
    assert d.Decoded? ==> d.ins.kind != Rtr && (d.ins.kind == Rte ==> ram);
    if Iterate(env, ram, c).Continue? { RtsPopsNoStatus(env, ram, Iterate(env, ram, c).c); }
  }

  ghost predicate StepAt(env: Env, ram: bool, cs: seq<Config>, i: nat)
  {
    i + 1 < |cs| && Iterate(env, ram, cs[i]) == Continue(cs[i + 1])
  }

  /** The configurations a run passes through. */
  ghost predicate Trace(env: Env, ram: bool, cs: seq<Config>)
  {
    && |cs| > 0 && cs[0].depth == 0 && cs[0].count == 0
    && forall i: nat :: i + 1 < |cs| ==> StepAt(env, ram, cs, i)
  }

  /** When calls are answered by RTS, at every step A7 is the entry A7 minus four per open call. */
  lemma {:induction false} EveryStepAtLevel(env: Env, ram: bool, cs: seq<Config>, i: nat)
    requires OthersKeepA7(env) && ReturnsAreRts(env, ram) && Trace(env, ram, cs) && i < |cs|
    ensures cs[i].st.a7 == Wrap(cs[0].st.a7 - 4 * cs[i].depth)
  {
    LevelAlong(env, ram, cs, i);
    WrapShift(cs[i].st.a7, 0);
    WrapShift(cs[i].st.a7 + 4 * cs[i].depth, -4 * cs[i].depth);
  }

  lemma {:induction false} LevelAlong(env: Env, ram: bool, cs: seq<Config>, i: nat)
    requires OthersKeepA7(env) && ReturnsAreRts(env, ram) && Trace(env, ram, cs) && i < |cs|
    ensures Level(cs[i]) == cs[0].st.a7
  {
    if i > 0 {
      LevelAlong(env, ram, cs, i - 1);
      IterationLevel(env, ram, cs[i - 1]);
      WrapShift(cs[i - 1].st.a7 + 4 * cs[i - 1].depth, 0);
      assert StepAt(env, ram, cs, i - 1);
    }
  }

  /** Whatever the program, the loop body runs at most twice per instruction allowed. */
  lemma {:induction false} IterationsBounded(env: Env, ram: bool, cs: seq<Config>, i: nat)
    requires Trace(env, ram, cs) && i < |cs|
    ensures i + cs[i].depth <= 2 * cs[i].count && cs[i].count <= GUARD
  {
    if i > 0 {
      IterationsBounded(env, ram, cs, i - 1);
      assert StepAt(env, ram, cs, i - 1);
    }
  }

  // ---- the loop ----------------------------------------------------------------------

  class Machine {
    var st: State
    var insnCount: nat
    var rtePending: bool

    constructor (st: State)
      ensures this.st == st && insnCount == 0 && !rtePending
    {
      this.st := st;
      insnCount := 0;
      rtePending := false;
    }

    /** The body of the capsule loop; `more` is false when the loop returns. */
    method StepCapsule(env: Env, ram: bool, depth: nat)
      returns (more: bool, depth': nat, status: CapsuleStatus, exitPc: u32)
      requires insnCount <= GUARD
      modifies this
      ensures match Iterate(env, ram, Config(old(st), depth, old(insnCount)))
              case Continue(c) => more && c == Config(st, depth', insnCount) && rtePending == old(rtePending)
              case Stop(o) => (
                && !more && status == o.status && exitPc == o.exitPc && st == o.st
                && rtePending == (old(rtePending) || o.rtePending) && insnCount <= GUARD + 1)
    {
      more, depth', status, exitPc := false, depth, OK, 0;
      var pc := Address24(st.pc);
      if !env.fetchable(pc) {
        status := HALT_BADADDR;
        return;
      }
      var (handled, afterHook) := env.hook(st);
      st := afterHook;
      if handled {
        if depth == 0 {
          exitPc := Peek(env, st, 0);
          return;
        }
        st := Pop(st, 4).(pc := Peek(env, st, 0));
        depth' := depth - 1;
        more := true;
        return;
      }
      var decoded := env.decode(st, pc);
      if decoded.Undecodable? {
        status := HALT_UNIMPL;
        return;
      }
      var ins := decoded.ins;
      if depth == 0 && (ins.kind == Rts || ins.kind == Rtr) {
        exitPc := Peek(env, st, if ins.kind == Rtr then 2 else 0);
        return;
      }
      if ram && ins.kind == Rte {
        st := env.account(st.(a7 := Wrap(st.a7 + 4 * depth)));
        rtePending := true;
        return;
      }
      match Execute(env, st, ins) {
        case Halted(stopped) =>
          st := stopped;
          status := HALT_UNIMPL;
          return;
        case Executed(after, next) =>
          st := env.account(after.(pc := Address24(next)));
      }
      if ins.kind == Jsr || ins.kind == Bsr {
        depth' := depth + 1;
      } else if ins.kind == Rts || ins.kind == Rtr {
        depth' := depth - 1;
      }
      insnCount := insnCount + 1;
      if insnCount > GUARD {
        status := HALT_GUARD;
      } else {
        more := true;
      }
    }

    /** m68k_interp_run_framed (`ram` false) and m68k_interp_run_ram_handler (`ram` true). */
    method RunCapsule(env: Env, ram: bool, entry: u32) returns (status: CapsuleStatus, exitPc: u32)
      modifies this
      ensures var o := Run(env, ram, Config(old(st).(pc := Address24(entry)), 0, 0));
              && status == o.status && exitPc == o.exitPc && st == o.st
              && rtePending == (old(rtePending) || o.rtePending)
      ensures insnCount <= GUARD + 1
    {
      st := st.(pc := Address24(entry));
      insnCount := 0;
      status, exitPc := OK, 0;
      var depth: nat := 0;
      var more := true;
      ghost var result := Run(env, ram, Config(st, 0, 0));
      while more
        invariant more ==> insnCount <= GUARD && rtePending == old(rtePending)
                           && result == Run(env, ram, Config(st, depth, insnCount))
        invariant !more ==> insnCount <= GUARD + 1 && status == result.status && exitPc == result.exitPc
                            && st == result.st && rtePending == (old(rtePending) || result.rtePending)
        decreases more, GUARD - insnCount, depth
      {
        more, depth, status, exitPc := StepCapsule(env, ram, depth);
      }
    }
  }

  // ---- dispatch misses ---------------------------------------------------------------

  const RAM_BASE: nat := 0xFF0000

  const BLACKLIST_MAX: nat := 2048

  predicate Runnable(pc: nat, romLimit: nat) { pc != 0 && pc % 2 == 0 && (pc < romLimit || pc >= RAM_BASE) }

  class Floor {
    const machine: Machine
    var inFloor: bool
    var blacklist: seq<u32>
    var covered: set<u32>

    constructor (m: Machine)
      ensures machine == m && !inFloor && blacklist == [] && covered == {}
    {
      machine := m;
      inFloor := false;
      blacklist := [];
      covered := {};
    }

    /** Where a miss is run: a RAM target follows its trampolines (`resolve`) when they lead somewhere
        that can be run. */
    function Target(addr: u32, romLimit: nat, resolve: u32 -> u32): u32
    {
      var resolved := Address24(resolve(addr));
      if addr >= RAM_BASE && (resolved < romLimit || resolved >= RAM_BASE) && resolved % 2 == 0 then resolved else addr
    }

    /** Whether the floor tries to run a miss at all. */
    predicate Tries(addr: u32, runAt: u32, romLimit: nat, enabled: bool)
      reads this
    {
      && enabled && !inFloor && addr !in blacklist
      && runAt != 0 && runAt % 2 == 0 && (runAt < romLimit || runAt >= RAM_BASE)
    }

    /** The floor part of genesis_log_dispatch_miss. A miss is handled exactly when it is tried and runs
        to its own depth-0 return, at the address the native caller is about to pop; a tried miss that
        is not handled gives back all CPU registers and is remembered while the list has room; one that
        is not tried changes nothing. */
    method HandleMiss(env: Env, addr: u32, romLimit: nat, resolve: u32 -> u32, enabled: bool)
      returns (handled: bool)
      modifies this, machine
      ensures inFloor == old(inFloor)
      ensures var runAt := Target(addr, romLimit, resolve);
              var o := Run(env, false, Config(old(machine.st).(pc := Address24(runAt)), 0, 0));
              var expected := env.read32(old(machine.st).mem, old(machine.st).a7) % 0x100_0000;
              var tried := old(Tries(addr, runAt, romLimit, enabled));
              && handled == (tried && o.status == OK && o.exitPc == expected && Runnable(o.exitPc, romLimit))
              && machine.st == (if handled then o.st
                                else if tried then old(machine.st).(mem := o.st.mem)
                                else old(machine.st))
              && blacklist == (if tried && !handled && |old(blacklist)| < 2048 then old(blacklist) + [addr]
                               else old(blacklist))
      ensures handled && OthersKeepA7(env) && ReturnsAreRts(env, false) ==> machine.st.a7 == old(machine.st.a7)
      ensures covered == old(covered) + (if handled then {addr} else {})
    {
      handled := false;
      if enabled && !inFloor && addr !in blacklist {
        var expected := Peek(env, machine.st, 0);
        WrapShift(machine.st.a7, 0);
        var at := addr;
        if at >= RAM_BASE {
          var resolved := Address24(resolve(at));
          if (resolved < romLimit || resolved >= RAM_BASE) && resolved % 2 == 0 {
            at := resolved;
          }
        }
        if at != 0 && (at < romLimit || at >= RAM_BASE) && at % 2 == 0 {
          handled := Attempt(env, at, romLimit, expected);
          if handled {
            covered := covered + {addr};
          } else {
            if |blacklist| < BLACKLIST_MAX { blacklist := blacklist + [addr]; }
          }
        }
      }
    }

    /** Run the capsule, keep it or roll the registers back. */
    method Attempt(env: Env, at: u32, romLimit: nat, expected: u32) returns (kept: bool)
      requires !inFloor
      modifies this`inFloor, machine
      ensures !inFloor
      ensures var o := Run(env, false, Config(old(machine.st).(pc := Address24(at)), 0, 0));
              && kept == (o.status == OK && o.exitPc == expected && Runnable(o.exitPc, romLimit))
              && machine.st == if kept then o.st else old(machine.st).(mem := o.st.mem)
      ensures kept && OthersKeepA7(env) && ReturnsAreRts(env, false) ==> machine.st.a7 == old(machine.st.a7)
    {
      var checkpoint := machine.st;
      ghost var entered := Config(machine.st.(pc := Address24(at)), 0, 0);
      inFloor := true;
      var status, exitPc := machine.RunCapsule(env, false, at);
      inFloor := false;
      if OthersKeepA7(env) && ReturnsAreRts(env, false) {
        CapsuleIsStackNeutral(env, false, entered.st);
        RtsPopsNoStatus(env, false, entered);
      }
      var plausible := exitPc != 0 && exitPc % 2 == 0 && (exitPc < romLimit || exitPc >= RAM_BASE);
      kept := status == OK && plausible && exitPc == expected;
      if !kept {
        machine.st := checkpoint.(mem := machine.st.mem);
      }
    }
  }
}
