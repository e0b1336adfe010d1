// A model of the trap-driven lifecycle of instr/interrupt/int.c on a RISC-V
// hart: the state machine the trap handler drives, the system-call handler,
// `exit`, `init_interrupts` and the polling loop of `main`.
//
// The control and status registers `mie`, `mepc` and `mcause` are fields; the
// registers a7 and a0 that the system-call handler reads are parameters of the
// handler. The UART is the sequence of events written to it: a clear (the
// write to its clear register that starts every `uart_puts`) and characters.
// A trap is an event that happens between two iterations of the foreground
// loop; the hardware delivers a timer or an external interrupt only while its
// enable bit in `mie` is set.

module Interrupt {

  const WORD_MODULUS: int := 0x1_0000_0000

  /** A `uint32_t`. */
  type Word = x: int | 0 <= x < 0x1_0000_0000

  /** `mcause` codes (section 3.1.15 of the RISC-V Privileged Architecture):
      machine timer interrupt, machine external interrupt, environment call
      from M-mode. */
  const CAUSE_TIMER_INTERRUPT: Word := 0x8000_0007
  const CAUSE_EXTERNAL_INTERRUPT: Word := 0x8000_000B
  const CAUSE_ECALL: Word := 11

  /** The `exit` system call number of the Linux RISC-V convention. */
  const SYS_EXIT: Word := 93

  /** Bit 7 (MTIE) and bit 11 (MEIE) of `mie`. */
  const TIMER_ENABLE: bv32 := 0x80
  const EXTERNAL_ENABLE: bv32 := 0x800
  const INITIAL_MIE: bv32 := TIMER_ENABLE | EXTERNAL_ENABLE

  /** The tick count at which the foreground asks to exit. */
  const WORK_LIMIT: Word := 6

  /** The width of the `ecall` instruction that `mepc` is moved past. */
  const ECALL_LENGTH: Word := 4

  datatype SystemState = Running | Paused | Shutdown

  /** What is written to the UART. */
  datatype UartEvent = Clear | Char(c: char)

  predicate TimerEnabled(mie: bv32) { mie & TIMER_ENABLE != 0 }
  predicate ExternalEnabled(mie: bv32) { mie & EXTERNAL_ENABLE != 0 }

  /** The bits of `mie` other than the timer enable. */
  function OtherBits(mie: bv32): bv32 { mie & !TIMER_ENABLE }

  /** Whether the external interrupt is enabled depends only on the bits
      other than the timer enable. */
  lemma ExternalInOtherBits(mie: bv32)
    ensures ExternalEnabled(mie) == (OtherBits(mie) & EXTERNAL_ENABLE != 0)
  {
  }

  /** `clear_csr(CSR_MIE, 1 << 7)`: the timer interrupt disabled, every other
      bit kept. */
  function DisableTimer(mie: bv32): (r: bv32)
    ensures !TimerEnabled(r)
    ensures OtherBits(r) == OtherBits(mie)
  {
    mie & !TIMER_ENABLE
  }

  /** `set_csr(CSR_MIE, 1 << 7)`: the timer interrupt enabled, every other bit
      kept. */
  function EnableTimer(mie: bv32): (r: bv32)
    ensures TimerEnabled(r)
    ensures OtherBits(r) == OtherBits(mie)
  {
    mie | TIMER_ENABLE
  }

  /** The characters of a string, written one by one. */
  function Chars(s: string): (r: seq<UartEvent>)
    ensures |r| == |s| && forall k | 0 <= k < |s| :: r[k] == Char(s[k])
  {
    seq(|s|, k requires 0 <= k < |s| => Char(s[k]))
  }

  /** What `uart_puts` writes: a clear, then the characters. */
  function Puts(s: string): seq<UartEvent> {
    [Clear] + Chars(s)
  }

  /** The character `v + '0'` that the source passes to `uart_putchar`: the
      sum is a `uint32_t`, and the conversion to `char` keeps its low eight
      bits. A digit only for values up to nine. */
  function DigitChar(v: Word): (c: char)
    ensures c as int < 256
    ensures v <= 9 ==> c == "0123456789"[v]
  {
    ((v + '0' as int) % WORD_MODULUS % 256) as char
  }

  /** The state a trap can change: the two globals, three CSRs and the UART. */
  datatype Machine = Machine(state: SystemState, workTimer: Word, mie: bv32,
                             mepc: Word, mcause: Word, out: seq<UartEvent>)

  // ---------------------------------------------------------------------
  // The trap handler

  /** handle_syscall, for the call number `a7` and argument `a0`. */
  function Syscall(m: Machine, a7: Word, a0: Word): (r: Machine)
    ensures m.out <= r.out
    ensures r.workTimer == m.workTimer && r.mie == m.mie && r.mepc == m.mepc && r.mcause == m.mcause
    ensures r.state == m.state || r.state == Shutdown
  {
    if a7 == SYS_EXIT then
      m.(out := m.out + Puts("OFF ") + [Char(DigitChar(a0))], state := Shutdown)
    else
      m.(out := m.out + Puts("UNKWN SYS"))
  }

  /** interrupt_handler, dispatching on `mcause`. */
  function Handle(m: Machine, a7: Word, a0: Word): (r: Machine)
    ensures m.out <= r.out
    ensures m.state == Shutdown ==> r.state == Shutdown
    ensures r.workTimer != m.workTimer ==> m.mcause == CAUSE_TIMER_INTERRUPT
    ensures r.mepc != m.mepc ==> m.mcause == CAUSE_ECALL
    ensures OtherBits(r.mie) == OtherBits(m.mie)
    ensures r.mcause == m.mcause
  {
    if m.mcause == CAUSE_TIMER_INTERRUPT then
      m.(workTimer := (m.workTimer + 1) % WORD_MODULUS)
    else if m.mcause == CAUSE_EXTERNAL_INTERRUPT then
      if m.state == Running then
        m.(state := Paused, out := m.out + Puts("PAUSE"), mie := DisableTimer(m.mie))
      else if m.state == Paused then
        m.(state := Running, out := m.out + Puts("JOB ") + [Char(DigitChar(m.workTimer))],
           mie := EnableTimer(m.mie))
      else
        m
    else if m.mcause == CAUSE_ECALL then
      var s := Syscall(m, a7, a0);
      s.(mepc := (s.mepc + ECALL_LENGTH) % WORD_MODULUS)
    else
      m
  }

  /** The hardware records the cause of a trap in `mcause` and runs the
      handler. */
  function Trap(m: Machine, cause: Word, a7: Word, a0: Word): (r: Machine)
    ensures r.mcause == cause
    ensures m.out <= r.out
  {
    Handle(m.(mcause := cause), a7, a0)
  }

  /** exit: an environment call with a7 = 93 and a0 = `status` as a
      `uint32_t`. */
  function ExitCall(m: Machine, status: int): (r: Machine)
    ensures r.state == Shutdown
    ensures r.out == m.out + Puts("OFF ") + [Char(DigitChar(status % WORD_MODULUS))]
    ensures r.mepc == (m.mepc + ECALL_LENGTH) % WORD_MODULUS && r.mcause == CAUSE_ECALL
    ensures r.workTimer == m.workTimer && r.mie == m.mie
  {
    Trap(m, CAUSE_ECALL, SYS_EXIT, status % WORD_MODULUS)
  }

  // The trap handler, case by case.

  /** A timer interrupt only counts a tick; it does not look at the state. */
  lemma TimerPath(m: Machine, a7: Word, a0: Word)
    requires m.mcause == CAUSE_TIMER_INTERRUPT
    ensures Handle(m, a7, a0) == m.(workTimer := (m.workTimer + 1) % WORD_MODULUS)
  {
  }

  /** An external interrupt pauses a running system, reports it and disables
      the timer interrupt, keeping every other bit of `mie`. */
  lemma ExternalWhileRunning(m: Machine, a7: Word, a0: Word)
    requires m.mcause == CAUSE_EXTERNAL_INTERRUPT && m.state == Running
    ensures Handle(m, a7, a0).state == Paused
    ensures Handle(m, a7, a0).out == m.out + [Clear] + Chars("PAUSE")
    ensures !TimerEnabled(Handle(m, a7, a0).mie)
    ensures OtherBits(Handle(m, a7, a0).mie) == OtherBits(m.mie)
    ensures Handle(m, a7, a0).workTimer == m.workTimer && Handle(m, a7, a0).mepc == m.mepc
  {
  }

  /** An external interrupt resumes a paused system, reports the tick count
      and enables the timer interrupt, keeping every other bit of `mie`. */
  lemma ExternalWhilePaused(m: Machine, a7: Word, a0: Word)
    requires m.mcause == CAUSE_EXTERNAL_INTERRUPT && m.state == Paused
    ensures Handle(m, a7, a0).state == Running
    ensures Handle(m, a7, a0).out == m.out + [Clear] + Chars("JOB ") + [Char(DigitChar(m.workTimer))]
    ensures TimerEnabled(Handle(m, a7, a0).mie)
    ensures OtherBits(Handle(m, a7, a0).mie) == OtherBits(m.mie)
    ensures Handle(m, a7, a0).workTimer == m.workTimer && Handle(m, a7, a0).mepc == m.mepc
  {
  }

  /** An external interrupt after shutdown, and every cause the handler does
      not know, change nothing and write nothing. */
  lemma NoOpCases(m: Machine, a7: Word, a0: Word)
    requires (m.mcause == CAUSE_EXTERNAL_INTERRUPT && m.state == Shutdown) ||
      (m.mcause != CAUSE_TIMER_INTERRUPT && m.mcause != CAUSE_EXTERNAL_INTERRUPT && m.mcause != CAUSE_ECALL)
    ensures Handle(m, a7, a0) == m
  {
  }

  /** The exit system call reports its status and shuts the system down. */
  lemma SyscallExit(m: Machine, a0: Word)
    requires m.mcause == CAUSE_ECALL
    ensures Handle(m, SYS_EXIT, a0).state == Shutdown
    ensures Handle(m, SYS_EXIT, a0).out == m.out + [Clear] + Chars("OFF ") + [Char(DigitChar(a0))]
  {
  }

  /** Any other system call reports that it is unknown and changes no state. */
  lemma SyscallOther(m: Machine, a7: Word, a0: Word)
    requires m.mcause == CAUSE_ECALL && a7 != SYS_EXIT
    ensures Handle(m, a7, a0).state == m.state
    ensures Handle(m, a7, a0).out == m.out + [Clear] + Chars("UNKWN SYS")
  {
  }

  /** Every environment call returns past the `ecall` instruction. */
  lemma MepcAdvance(m: Machine, a7: Word, a0: Word)
    requires m.mcause == CAUSE_ECALL
    ensures Handle(m, a7, a0).mepc == (m.mepc + ECALL_LENGTH) % WORD_MODULUS
    ensures Handle(m, a7, a0).workTimer == m.workTimer && Handle(m, a7, a0).mie == m.mie
  {
  }

  /** While the system is up, the timer interrupt is enabled exactly when it
      is running, and the external interrupt is always enabled. */
  predicate EnableInvariant(m: Machine) {
    m.state != Shutdown ==> (TimerEnabled(m.mie) <==> m.state == Running) && ExternalEnabled(m.mie)
  }

  /** Every trap keeps the enable-bit invariant. */
  lemma HandleKeepsEnable(m: Machine, a7: Word, a0: Word)
    requires EnableInvariant(m)
    ensures EnableInvariant(Handle(m, a7, a0))
  {
    var r := Handle(m, a7, a0);
    if m.mcause == CAUSE_EXTERNAL_INTERRUPT && m.state != Shutdown {
      ExternalInOtherBits(m.mie);
      ExternalInOtherBits(r.mie);
    } else {
      assert r.mie == m.mie;
    }
  }

  // ---------------------------------------------------------------------
  // The program: init_interrupts, the greeting, and the polling loop

  /** The foreground's view: the machine, `last_work_time`, and whether the
      loop has ended. */
  datatype Config = Config(m: Machine, last: Word, exited: bool)

  /** What the schedule offers between two iterations of the loop: an
      interrupt request, or the next iteration. */
  datatype Event = Request(cause: Word) | Iteration

  /** The hardware takes a timer or external interrupt only while it is
      enabled in `mie`; no other interrupt is enabled. */
  predicate Deliverable(mie: bv32, cause: Word) {
    (cause == CAUSE_TIMER_INTERRUPT && TimerEnabled(mie)) ||
    (cause == CAUSE_EXTERNAL_INTERRUPT && ExternalEnabled(mie))
  }

  /** One iteration of the `while (1)` loop of main. */
  function Poll(m: Machine, last: Word): (c: Config)
    ensures m.out <= c.m.out
    ensures c.exited <==> m.state == Shutdown
    ensures m.state != Running ==> c == Config(m, last, m.state == Shutdown)
    ensures m.state == Running ==> c.last == m.workTimer
    ensures m.state == Running && m.workTimer == last ==> m.out == c.m.out || m.workTimer >= WORK_LIMIT
    ensures m.state == Running ==> (c.m.state == Shutdown <==> m.workTimer >= WORK_LIMIT)
    ensures c.m.workTimer == m.workTimer && c.m.mie == m.mie
  {
    match m.state
    case Shutdown => Config(m, last, true)
    case Paused => Config(m, last, false)
    case Running =>
      var reported :=
        if m.workTimer != last then m.(out := m.out + Puts("JOB ") + [Char(DigitChar(m.workTimer))]) else m;
      var after := if m.workTimer >= WORK_LIMIT then ExitCall(reported, 0) else reported;
      Config(after, m.workTimer, false)
  }

  /** A running iteration below the limit reports a changed counter and
      nothing else. */
  lemma PollReports(m: Machine, last: Word)
    requires m.state == Running && m.workTimer != last && m.workTimer < WORK_LIMIT
    ensures Poll(m, last) ==
      Config(m.(out := m.out + Puts("JOB ") + [Char(DigitChar(m.workTimer))]), m.workTimer, false)
  {
  }

  /** A running iteration below the limit with an unchanged counter does
      nothing. */
  lemma PollIdle(m: Machine, last: Word)
    requires m.state == Running && m.workTimer == last && m.workTimer < WORK_LIMIT
    ensures Poll(m, last) == Config(m, last, false)
  {
  }

  /** A running iteration at the limit reports a changed counter, then exits
      with status 0: "OFF 0" is written, the system shuts down and `mepc`
      moves past the `ecall`; the loop ends at the next iteration. */
  lemma PollExits(m: Machine, last: Word)
    requires m.state == Running && m.workTimer >= WORK_LIMIT
    ensures var c := Poll(m, last);
      c.m.state == Shutdown && c.last == m.workTimer && !c.exited &&
      c.m.workTimer == m.workTimer && c.m.mie == m.mie &&
      c.m.mepc == (m.mepc + ECALL_LENGTH) % WORD_MODULUS && c.m.mcause == CAUSE_ECALL &&
      c.m.out == m.out + (if m.workTimer != last then Puts("JOB ") + [Char(DigitChar(m.workTimer))] else []) +
        Puts("OFF ") + [Char('0')]
  {
    assert DigitChar(0) == '0';
  }

  /** The program after one event; nothing happens once the loop has ended. */
  function Step(c: Config, e: Event): Config {
    if c.exited then c
    else match e
      case Request(cause) =>
        // a7 and a0 are not read on the interrupt paths
        if Deliverable(c.m.mie, cause) then c.(m := Trap(c.m, cause, 0, 0)) else c
      case Iteration => Poll(c.m, c.last)
  }

  /** The program after a schedule of events. */
  function Run(c: Config, schedule: seq<Event>): Config
    decreases |schedule|
  {
    if schedule == [] then c else Run(Step(c, schedule[0]), schedule[1..])
  }

  /** The program once main has run init_interrupts and greeted. */
  function Boot(m: Machine): Config {
    Config(m.(mie := INITIAL_MIE, out := m.out + Puts("HELLO")), 0, false)
  }

  /** The globals as the source initializes them. */
  const INITIAL_MACHINE: Machine := Machine(Running, 0, 0, 0, 0, [])

  /** What the program keeps: the enable-bit invariant, and the loop ends only
      after shutdown. */
  predicate ProgramInvariant(c: Config) {
    EnableInvariant(c.m) && (c.exited ==> c.m.state == Shutdown)
  }

  lemma BootInvariant()
    ensures ProgramInvariant(Boot(INITIAL_MACHINE))
  {
  }

  /** Every event keeps the program invariant. */
  lemma StepKeepsInvariant(c: Config, e: Event)
    requires ProgramInvariant(c)
    ensures ProgramInvariant(Step(c, e))
  {
    if !c.exited {
      match e
      case Request(cause) =>
        if Deliverable(c.m.mie, cause) {
          HandleKeepsEnable(c.m.(mcause := cause), 0, 0);
        }
      case Iteration =>
    }
  }

  /** Every schedule keeps the program invariant. */
  lemma {:induction false} RunKeepsInvariant(c: Config, schedule: seq<Event>)
    requires ProgramInvariant(c)
    ensures ProgramInvariant(Run(c, schedule))
    decreases |schedule|
  {
    if schedule != [] {
      StepKeepsInvariant(c, schedule[0]);
      RunKeepsInvariant(Step(c, schedule[0]), schedule[1..]);
    }
  }

  /** No schedule leaves shutdown. */
  lemma {:induction false} RunShutdownTerminal(c: Config, schedule: seq<Event>)
    requires c.m.state == Shutdown
    ensures Run(c, schedule).m.state == Shutdown
    decreases |schedule|
  {
    if schedule != [] {
      RunShutdownTerminal(Step(c, schedule[0]), schedule[1..]);
    }
  }

  /** Across any schedule the UART output only grows. */
  lemma {:induction false} RunOutputGrows(c: Config, schedule: seq<Event>)
    ensures c.m.out <= Run(c, schedule).m.out
    decreases |schedule|
  {
    if schedule != [] {
      RunOutputGrows(Step(c, schedule[0]), schedule[1..]);
    }
  }

  /** While paused, no event changes the tick count: the timer interrupt is
      disabled, so it cannot be delivered. */
  lemma PausedTimerFrozen(c: Config, e: Event)
    requires ProgramInvariant(c) && c.m.state == Paused
    ensures Step(c, e).m.workTimer == c.m.workTimer
  {
  }

  /** Running one more event. */
  lemma {:induction false} RunSnoc(c: Config, schedule: seq<Event>, e: Event)
    ensures Run(c, schedule + [e]) == Step(Run(c, schedule), e)
    decreases |schedule|
  {
    if schedule == [] {
      assert [] + [e] == [e];
    } else {
      assert (schedule + [e])[1..] == schedule[1..] + [e];
      RunSnoc(Step(c, schedule[0]), schedule[1..], e);
    }
  }

  /** A schedule of the program: a tick is reported; an external interrupt
      pauses, and a timer interrupt is then not delivered; a second one resumes;
      five more ticks reach the limit, and the program reports, exits with
      status 0 and ends its loop. */
  const EXAMPLE_SCHEDULE: seq<Event> :=
    [Request(CAUSE_TIMER_INTERRUPT), Iteration,
     Request(CAUSE_EXTERNAL_INTERRUPT), Request(CAUSE_TIMER_INTERRUPT), Iteration,
     Request(CAUSE_EXTERNAL_INTERRUPT),
     Request(CAUSE_TIMER_INTERRUPT), Request(CAUSE_TIMER_INTERRUPT), Request(CAUSE_TIMER_INTERRUPT),
     Request(CAUSE_TIMER_INTERRUPT), Request(CAUSE_TIMER_INTERRUPT),
     Iteration, Iteration]

  /** Running two schedules one after the other. */
  lemma {:induction false} RunAppend(c: Config, first: seq<Event>, second: seq<Event>)
    ensures Run(c, first + second) == Run(Run(c, first), second)
    decreases |first|
  {
    if first == [] {
      assert [] + second == second;
    } else {
      assert (first + second)[1..] == first[1..] + second;
      RunAppend(Step(c, first[0]), first[1..], second);
    }
  }

  /** The UART output of the example schedule up to its resumption. */
  function ExampleOutput(): seq<UartEvent> {
    Puts("HELLO") + Puts("JOB ") + [Char('1')] + Puts("PAUSE") + Puts("JOB ") + [Char('1')]
  }

  /** The example schedule up to the second external interrupt: one tick is
      reported, a timer interrupt during the pause is not delivered, and the
      system resumes. */
  lemma ExamplePauseResume()
    ensures Run(Boot(INITIAL_MACHINE), EXAMPLE_SCHEDULE[..6]) ==
      Config(Machine(Running, 1, INITIAL_MIE, 0, CAUSE_EXTERNAL_INTERRUPT, ExampleOutput()), 1, false)
  {
    var t, x := Request(CAUSE_TIMER_INTERRUPT), Request(CAUSE_EXTERNAL_INTERRUPT);
    var c0 := Boot(INITIAL_MACHINE);
    var o0 := Puts("HELLO");
    var o1 := o0 + Puts("JOB ") + [Char('1')];
    var o2 := o1 + Puts("PAUSE");
    assert DigitChar(1) == '1';
    assert DisableTimer(INITIAL_MIE) == EXTERNAL_ENABLE && EnableTimer(EXTERNAL_ENABLE) == INITIAL_MIE;
    var p1 := [] + [t];
    RunSnoc(c0, [], t);
    assert Run(c0, p1) == Config(Machine(Running, 1, INITIAL_MIE, 0, CAUSE_TIMER_INTERRUPT, o0), 0, false);
    var p2 := p1 + [Iteration];
    RunSnoc(c0, p1, Iteration);
    assert Run(c0, p2) == Config(Machine(Running, 1, INITIAL_MIE, 0, CAUSE_TIMER_INTERRUPT, o1), 1, false);
    var paused := Config(Machine(Paused, 1, EXTERNAL_ENABLE, 0, CAUSE_EXTERNAL_INTERRUPT, o2), 1, false);
    var p3 := p2 + [x];
    RunSnoc(c0, p2, x);
    assert Run(c0, p3) == paused;
    var p4 := p3 + [t];
    RunSnoc(c0, p3, t);
    assert Run(c0, p4) == paused;
    var p5 := p4 + [Iteration];
    RunSnoc(c0, p4, Iteration);
    assert Run(c0, p5) == paused;
    var p6 := p5 + [x];
    RunSnoc(c0, p5, x);
    assert p6 == EXAMPLE_SCHEDULE[..6];
  }

  /** The rest of the example schedule: five ticks reach the limit; the
      program reports the count, exits with status 0, and ends its loop. */
  lemma ExampleFinish()
    ensures Run(Config(Machine(Running, 1, INITIAL_MIE, 0, CAUSE_EXTERNAL_INTERRUPT, ExampleOutput()), 1, false),
                EXAMPLE_SCHEDULE[6..]) ==
      Config(Machine(Shutdown, 6, INITIAL_MIE, ECALL_LENGTH, CAUSE_ECALL,
                     ExampleOutput() + Puts("JOB ") + [Char('6')] + Puts("OFF ") + [Char('0')]), 6, true)
  {
    var t := Request(CAUSE_TIMER_INTERRUPT);
    var o := ExampleOutput();
    var c := Config(Machine(Running, 1, INITIAL_MIE, 0, CAUSE_EXTERNAL_INTERRUPT, o), 1, false);
    assert DigitChar(6) == '6' && DigitChar(0) == '0';
    var p1 := [] + [t];
    RunSnoc(c, [], t);
    assert Run(c, p1) == Config(Machine(Running, 2, INITIAL_MIE, 0, CAUSE_TIMER_INTERRUPT, o), 1, false);
    var p2 := p1 + [t];
    RunSnoc(c, p1, t);
    assert Run(c, p2) == Config(Machine(Running, 3, INITIAL_MIE, 0, CAUSE_TIMER_INTERRUPT, o), 1, false);
    var p3 := p2 + [t];
    RunSnoc(c, p2, t);
    assert Run(c, p3) == Config(Machine(Running, 4, INITIAL_MIE, 0, CAUSE_TIMER_INTERRUPT, o), 1, false);
    var p4 := p3 + [t];
    RunSnoc(c, p3, t);
    assert Run(c, p4) == Config(Machine(Running, 5, INITIAL_MIE, 0, CAUSE_TIMER_INTERRUPT, o), 1, false);
    var p5 := p4 + [t];
    RunSnoc(c, p4, t);
    assert Run(c, p5) == Config(Machine(Running, 6, INITIAL_MIE, 0, CAUSE_TIMER_INTERRUPT, o), 1, false);
    var shutdown := Machine(Shutdown, 6, INITIAL_MIE, ECALL_LENGTH, CAUSE_ECALL,
                            o + Puts("JOB ") + [Char('6')] + Puts("OFF ") + [Char('0')]);
    var p6 := p5 + [Iteration];
    RunSnoc(c, p5, Iteration);
    assert Run(c, p6) == Config(shutdown, 6, false);
    var p7 := p6 + [Iteration];
    RunSnoc(c, p6, Iteration);
    assert p7 == EXAMPLE_SCHEDULE[6..];
  }

  /** The whole example schedule, from boot. */
  lemma ExampleRun()
    ensures Run(Boot(INITIAL_MACHINE), EXAMPLE_SCHEDULE) ==
      Config(Machine(Shutdown, 6, INITIAL_MIE, ECALL_LENGTH, CAUSE_ECALL,
                     Puts("HELLO") + Puts("JOB ") + [Char('1')] + Puts("PAUSE") + Puts("JOB ") + [Char('1')] +
                     Puts("JOB ") + [Char('6')] + Puts("OFF ") + [Char('0')]),
             6, true)
  {
    ExamplePauseResume();
    ExampleFinish();
    RunAppend(Boot(INITIAL_MACHINE), EXAMPLE_SCHEDULE[..6], EXAMPLE_SCHEDULE[6..]);
    assert EXAMPLE_SCHEDULE[..6] + EXAMPLE_SCHEDULE[6..] == EXAMPLE_SCHEDULE;
  }

  // ---------------------------------------------------------------------
  // The hart, updated in place

  class Hart {
    var currentState: SystemState
    var workTimer: Word
    var mie: bv32
    var mepc: Word
    var mcause: Word
    var out: seq<UartEvent>

    ghost function View(): Machine
      reads this
    {
      Machine(currentState, workTimer, mie, mepc, mcause, out)
    }

    /** The globals as the source initializes them; the CSRs start at zero. */
    constructor ()
      ensures View() == INITIAL_MACHINE
    {
      currentState := Running;
      workTimer := 0;
      mie := 0;
      mepc := 0;
      mcause := 0;
      out := [];
    }

    /** uart_putchar: writes one character. */
    method UartPutchar(c: char)
      modifies this
      ensures View() == old(View()).(out := old(out) + [Char(c)])
    {
      out := out + [Char(c)];
    }

    /** uart_puts: a clear, then the characters one by one. */
    method UartPuts(str: string)
      modifies this
      ensures View() == old(View()).(out := old(out) + Puts(str))
    {
      out := out + [Clear];
      var p := 0;
      while p < |str|
        invariant 0 <= p <= |str|
        invariant View() == old(View()).(out := old(out) + [Clear] + Chars(str[..p]))
      {
        UartPutchar(str[p]);
        assert Chars(str[..p + 1]) == Chars(str[..p]) + [Char(str[p])];
        p := p + 1;
      }
      assert str[..p] == str;
    }

    /** handle_syscall, with a7 and a0 as parameters. */
    method HandleSyscall(a7: Word, a0: Word)
      modifies this
      ensures View() == Syscall(old(View()), a7, a0)
    {
      if a7 == SYS_EXIT {
        UartPuts("OFF ");
        UartPutchar(DigitChar(a0));
        currentState := Shutdown;
      } else {
        UartPuts("UNKWN SYS");
      }
    }

    /** interrupt_handler: dispatches on `mcause`. */
    method InterruptHandler(a7: Word, a0: Word)
      modifies this
      ensures View() == Handle(old(View()), a7, a0)
    {
      var cause := mcause;
      if cause == CAUSE_TIMER_INTERRUPT {
        workTimer := (workTimer + 1) % WORD_MODULUS;
      } else if cause == CAUSE_EXTERNAL_INTERRUPT {
        if currentState == Running {
          currentState := Paused;
          UartPuts("PAUSE");
          mie := DisableTimer(mie);
        } else if currentState == Paused {
          currentState := Running;
          UartPuts("JOB ");
          UartPutchar(DigitChar(workTimer));
          mie := EnableTimer(mie);
        }
      } else if cause == CAUSE_ECALL {
        HandleSyscall(a7, a0);
        var pc := mepc;
        mepc := (pc + ECALL_LENGTH) % WORD_MODULUS;
      }
    }

    /** A trap: the hardware records its cause and runs the handler. */
    method TakeTrap(cause: Word, a7: Word, a0: Word)
      modifies this
      ensures View() == Trap(old(View()), cause, a7, a0)
    {
      mcause := cause;
      InterruptHandler(a7, a0);
    }

    /** exit: an environment call with the exit call number and `status`. */
    method Exit(status: int)
      modifies this
      ensures View() == ExitCall(old(View()), status)
    {
      TakeTrap(CAUSE_ECALL, SYS_EXIT, status % WORD_MODULUS);
    }

    /** init_interrupts: enables the timer and external interrupts. */
    method InitInterrupts()
      modifies this
      ensures View() == old(View()).(mie := INITIAL_MIE)
    {
      mie := INITIAL_MIE;
    }

    /** One iteration of main's loop: returns the new `last_work_time` and
        whether the loop ends. */
    method ForegroundIteration(last: Word) returns (newLast: Word, stop: bool)
      modifies this
      ensures Config(View(), newLast, stop) == Poll(old(View()), last)
    {
      if currentState == Running {
        if workTimer != last {
          UartPuts("JOB ");
          UartPutchar(DigitChar(workTimer));
        }
        newLast := workTimer;
        if workTimer >= WORK_LIMIT {
          Exit(0);
        }
        stop := false;
      } else if currentState == Paused {
        newLast, stop := last, false;
      } else {
        newLast, stop := last, true;
      }
    }

    /** main, with the interrupts it sees given as a schedule: the loop runs
        until it ends or the schedule does. */
    method RunProgram(schedule: seq<Event>) returns (exited: bool)
      modifies this
      ensures View() == Run(Boot(old(View())), schedule).m
      ensures exited == Run(Boot(old(View())), schedule).exited
    {
      InitInterrupts();
      var last: Word := 0;
      UartPuts("HELLO");
      exited := false;
      var k := 0;
      while k < |schedule|
        invariant 0 <= k <= |schedule|
        invariant !exited
        invariant Run(Config(View(), last, false), schedule[k..]) == Run(Boot(old(View())), schedule)
        decreases |schedule| - k
      {
        ghost var before := Config(View(), last, false);
        assert schedule[k..][1..] == schedule[k + 1..];
        match schedule[k] {
          case Request(cause) =>
            if Deliverable(mie, cause) {
              TakeTrap(cause, 0, 0);
            }
          case Iteration =>
            last, exited := ForegroundIteration(last);
            if exited {
              RunExited(Config(View(), last, true), schedule[k + 1..]);
              return;
            }
        }
        k := k + 1;
      }
    }
  }

  /** Nothing happens after the loop has ended. */
  lemma {:induction false} RunExited(c: Config, schedule: seq<Event>)
    requires c.exited
    ensures Run(c, schedule) == c
    decreases |schedule|
  {
    if schedule != [] {
      RunExited(Step(c, schedule[0]), schedule[1..]);
    }
  }
}
