/** Berkeley signal masks on top of signal(): sigser, sigblock and sigsetmask in
    compat/signals.c, against the semantics they stand in for. */
module Signals {

  /** What signal() takes and returns: the two standard dispositions, a handler of the
      program, the stub sigser, and BADSIG for a signal that cannot be caught. */
  datatype Handler = Default | Ignored | User(id: nat) | Stub | Bad

  // ---------------------------------------------------------------- the semantics to provide

  /** A process with a real signal mask: blocked signals, those that arrived meanwhile, the
      handlers, and every delivery made so far. */
  datatype Process = Process(mask: set<nat>, pending: set<nat>, handlers: seq<Handler>, log: seq<(nat, Handler)>)

  function Arrive(p: Process, sig: nat): Process
    requires sig < |p.handlers|
  {
    if sig in p.mask then p.(pending := p.pending + {sig})
    else p.(log := p.log + [(sig, p.handlers[sig])])
  }

  /** The signals of a mask: the loops run from 1 to n - 1. */
  function Signals(mask: set<nat>, n: nat): set<nat> {
    set s | s in mask && 1 <= s < n
  }

  function Block(p: Process, mask: set<nat>): Process {
    p.(mask := p.mask + Signals(mask, |p.handlers|))
  }

  /** What becomes deliverable under the new mask, lowest signal first. */
  function Released(p: Process, mask: set<nat>, k: nat): seq<(nat, Handler)>
    requires k <= |p.handlers|
  {
    if k == 0 then []
    else
      Released(p, mask, k - 1)
      + if k - 1 in p.pending && k - 1 !in mask then [(k - 1, p.handlers[k - 1])] else []
  }

  function SetMask(p: Process, mask: set<nat>): Process {
    Process(Signals(mask, |p.handlers|), p.pending * mask, p.handlers,
            p.log + Released(p, mask, |p.handlers|))
  }

  // ---------------------------------------------------------------- the emulation

  class Emulation {
    const nsig: nat
    const catchable: set<nat>      // the signals signal() accepts
    var blocked: set<nat>
    var pending: set<nat>
    const handler: array<Handler>  // saved while blocked
    const table: array<Handler>    // what the system has installed
    var log: seq<(nat, Handler)>   // deliveries to the program's own handlers
    ghost var process: Process     // what all this stands for

    ghost predicate Valid()
      reads this, handler, table
    {
      && handler.Length == nsig && table.Length == nsig && handler != table && |process.handlers| == nsig
      && process.mask == blocked && process.pending == pending && process.log == log
      && (forall s :: s in blocked ==> 1 <= s < nsig)
      && (forall s :: s in pending ==> s in blocked && s in catchable)
      && (forall s {:trigger process.handlers[s]} :: 0 <= s < nsig ==>
            Kept(process.handlers[s], s in blocked, s in catchable, table[s], handler[s]))
    }

    /** A process with no signal blocked and the given dispositions. */
    constructor (catchable: set<nat>, dispositions: seq<Handler>)
      requires forall s :: 0 <= s < |dispositions| ==> dispositions[s] != Stub && dispositions[s] != Bad
      requires forall s :: 0 <= s < |dispositions| && s !in catchable ==> dispositions[s] == Default
      ensures Valid() && fresh(handler) && fresh(table) && this.catchable == catchable
      ensures process == Process({}, {}, dispositions, [])
    {
      this.catchable := catchable;
      nsig := |dispositions|;
      blocked, pending, log := {}, {}, [];
      handler := new Handler[|dispositions|](_ => Default);
      table := new Handler[|dispositions|](k requires 0 <= k < |dispositions| => dispositions[k]);
      process := Process({}, {}, dispositions, []);
    }

    /** signal(). */
    method Signal(s: nat, h: Handler) returns (was: Handler)
      requires s < table.Length && handler != table
      modifies table
      ensures forall k :: 0 <= k < table.Length && k != s ==> table[k] == old(table[k])
      ensures if s in catchable then was == old(table[s]) && table[s] == h else was == Bad && table[s] == old(table[s])
    {
      if s !in catchable {
        return Bad;
      }
      was := table[s];
      table[s] := h;
    }

    /** A signal that can be caught arrives: sigser notes it, or a handler of the program
        gets it. */
    method Deliver(s: nat)
      requires Valid() && s < nsig && s in catchable
      modifies this`pending, this`log, this`process, table
      ensures Valid() && process == Arrive(old(process), s)
    {
      assert Kept(process.handlers[s], s in blocked, s in catchable, table[s], handler[s]);
      process := Arrive(process, s);
      if table[s] == Stub {
        var was := Signal(s, Stub);
        pending := pending + {s};
      } else {
        log := log + [(s, table[s])];
      }
    }

    /** The body of both loops for a signal to block. */
    method BlockOne(sig: nat)
      requires Valid() && 1 <= sig < nsig && sig !in blocked
      modifies this`blocked, this`pending, this`process, handler, table
      ensures Valid() && process == old(process).(mask := old(process).mask + {sig})
    {
      assert Kept(process.handlers[sig], false, sig in catchable, table[sig], handler[sig]);
      assert pending - {sig} == pending;
      pending := pending - {sig};
      var was := Signal(sig, Stub);
      handler[sig] := was;
      blocked := blocked + {sig};
      process := process.(mask := process.mask + {sig});
    }

    /** The body of sigsetmask's loop for a signal to unblock. */
    method UnblockOne(sig: nat)
      requires Valid() && sig in blocked
      modifies this`blocked, this`pending, this`process, this`log, table
      ensures Valid() && process == Unblocked(old(process), sig)
    {
      assert Kept(process.handlers[sig], true, sig in catchable, table[sig], handler[sig]);
      blocked := blocked - {sig};
      var was := Signal(sig, if handler[sig] != Bad then handler[sig] else Default);
      if sig in pending {
        pending := pending - {sig};
        process := process.(mask := blocked, pending := pending);
        Deliver(sig);
      } else {
        assert pending - {sig} == pending;
        process := process.(mask := blocked);
      }
      assert process.log == Unblocked(old(process), sig).log;
    }

    /** sigblock. */
    method SigBlock(mask: set<nat>) returns (omask: set<nat>)
      requires Valid()
      modifies this`blocked, this`pending, this`process, handler, table
      ensures Valid() && omask == old(process).mask && process == Block(old(process), mask)
    {
      omask := blocked;
      if mask == {} {
        assert process.mask + Signals(mask, nsig) == process.mask;
        return;
      }
      var sig := 1;
      assert process.mask + Signals(mask, 1) == process.mask;
      while sig < nsig
        invariant Valid() && 1 <= sig && (sig <= nsig || sig == 1)
        invariant process == old(process).(mask := old(process).mask + Signals(mask, sig))
      {
        BlockStep(old(process).mask, mask, sig);
        if sig in mask && sig !in blocked {
          BlockOne(sig);
        }
        sig := sig + 1;
      }
      assert nsig == 0 ==> Signals(mask, 0) == Signals(mask, 1);
    }

    /** sigsetmask. */
    method SigSetMask(mask: set<nat>) returns (omask: set<nat>)
      requires Valid()
      modifies this`blocked, this`pending, this`process, this`log, handler, table
      ensures Valid() && omask == old(process).mask && process == SetMask(old(process), mask)
    {
      omask := blocked;
      var sig := 1;
      MidStart(process, mask);
      while sig < nsig
        invariant Valid() && 1 <= sig && (sig <= nsig || sig == 1)
        invariant process == Mid(old(process), mask, sig)
      {
        MidStep(old(process), mask, sig);
        if sig in mask {
          if sig !in blocked {
            BlockOne(sig);
          }
        } else if sig in blocked {
          UnblockOne(sig);
        }
        sig := sig + 1;
      }
      MidEnd(old(process), mask, sig);
    }
  }

  function Unblocked(p: Process, sig: nat): Process
    requires sig < |p.handlers|
  {
    Process(p.mask - {sig}, p.pending - {sig}, p.handlers,
            p.log + if sig in p.pending then [(sig, p.handlers[sig])] else [])
  }

  lemma BlockStep(was: set<nat>, mask: set<nat>, sig: nat)
    requires sig >= 1
    ensures was + Signals(mask, sig + 1) == was + Signals(mask, sig) + (if sig in mask then {sig} else {})
  {
  }

  /** Masks and pending signals of a process are signals; pending ones are blocked. */
  ghost predicate Proper(p: Process) {
    && (forall s :: s in p.mask ==> 1 <= s < |p.handlers|)
    && (forall s :: s in p.pending ==> s in p.mask)
  }

  /** sigsetmask half way: the signals below k follow the new mask. */
  function Mid(p: Process, mask: set<nat>, k: nat): Process {
    Process((set s | s in p.mask && s >= k) + Signals(mask, k),
            (set s | s in p.pending && (s in mask || s >= k)),
            p.handlers, p.log + Released(p, mask, if k <= |p.handlers| then k else |p.handlers|))
  }

  lemma MidStart(p: Process, mask: set<nat>)
    requires Proper(p)
    ensures Mid(p, mask, 1) == p
  {
    assert (set s | s in p.mask && s >= 1) + Signals(mask, 1) == p.mask;
    assert (set s | s in p.pending && (s in mask || s >= 1)) == p.pending;
    assert Released(p, mask, 0) == [];
    assert p.log + [] == p.log;
  }

  lemma MidStep(p: Process, mask: set<nat>, k: nat)
    requires Proper(p) && 1 <= k < |p.handlers|
    ensures var q := Mid(p, mask, k);
            Mid(p, mask, k + 1) == if k in mask then q.(mask := q.mask + {k})
                                   else if k in q.mask then Unblocked(q, k) else q
    ensures k in mask && k in Mid(p, mask, k).mask ==> Mid(p, mask, k + 1) == Mid(p, mask, k)
  {
    var q, r := Mid(p, mask, k), Mid(p, mask, k + 1);
    if k in mask {
      assert r.mask == q.mask + {k} && r.pending == q.pending;
      assert r.log == q.log;
    } else {
      assert r.mask == q.mask - {k} && r.pending == q.pending - {k};
      assert r.log == q.log + if k in p.pending then [(k, p.handlers[k])] else [];
    }
  }

  lemma MidEnd(p: Process, mask: set<nat>, k: nat)
    requires Proper(p) && k >= |p.handlers| && (k == |p.handlers| || k == 1)
    ensures Mid(p, mask, k) == SetMask(p, mask)
  {
    assert (set s | s in p.mask && s >= k) + Signals(mask, k) == Signals(mask, |p.handlers|);
    assert (set s | s in p.pending && (s in mask || s >= k)) == p.pending * mask;
  }

  /** What the tables hold for a signal: the stub is installed exactly while it is blocked
      and can be caught, and the program's own handler is saved meanwhile. */
  predicate Kept(own: Handler, blocked: bool, catchable: bool, installed: Handler, saved: Handler) {
    && own != Stub && own != Bad
    && (if blocked && catchable then installed == Stub && saved == own else installed == own)
    && (!catchable ==> own == Default && (blocked ==> saved == Bad))
  }

  // ---------------------------------------------------------------- nested brackets

  /** Programs of nested brackets with signals arriving anywhere between the calls: a
      bracket blocks a mask, runs its body and sets the mask it was given back. */
  datatype Program = Done | Arrival(sig: nat, rest: Program) | Bracket(mask: set<nat>, body: Program, rest: Program)

  predicate Within(prog: Program, n: nat) {
    match prog
    case Done => true
    case Arrival(sig, rest) => sig < n && Within(rest, n)
    case Bracket(_, body, rest) => Within(body, n) && Within(rest, n)
  }

  function Run(p: Process, prog: Program): (r: Process)
    requires Within(prog, |p.handlers|)
    ensures |r.handlers| == |p.handlers|
    decreases prog
  {
    match prog
    case Done => p
    case Arrival(sig, rest) => Run(Arrive(p, sig), rest)
    case Bracket(mask, body, rest) => Run(SetMask(Run(Block(p, mask), body), p.mask), rest)
  }

  predicate Catchable(prog: Program, catchable: set<nat>) {
    match prog
    case Done => true
    case Arrival(sig, rest) => sig in catchable && Catchable(rest, catchable)
    case Bracket(_, body, rest) => Catchable(body, catchable) && Catchable(rest, catchable)
  }

  /** Every program of nested brackets does on the emulation what it does on a process
      with a real mask. */
  method Execute(e: Emulation, prog: Program)
    requires e.Valid() && Within(prog, e.nsig) && Catchable(prog, e.catchable)
    modifies e, e.handler, e.table
    ensures e.Valid() && e.process == Run(old(e.process), prog)
    decreases prog
  {
    match prog {
      case Done =>
      case Arrival(sig, rest) =>
        e.Deliver(sig);
        Execute(e, rest);
      case Bracket(mask, body, rest) =>
        var omask := e.SigBlock(mask);
        Execute(e, body);
        var was := e.SigSetMask(omask);
        Execute(e, rest);
    }
  }

  /** Nothing inside a bracket changes the mask or the handlers in the end, nor lets a
      blocked signal go. */
  lemma {:induction false} BracketsRestore(p: Process, prog: Program)
    requires Proper(p) && Within(prog, |p.handlers|)
    ensures var r := Run(p, prog);
            Proper(r) && r.mask == p.mask && r.handlers == p.handlers && p.pending <= r.pending && p.log <= r.log
    decreases prog
  {
    match prog {
      case Done =>
      case Arrival(sig, rest) =>
        BracketsRestore(Arrive(p, sig), rest);
      case Bracket(mask, body, rest) =>
        var q := Block(p, mask);
        BracketsRestore(q, body);
        var r := Run(q, body);
        var t := SetMask(r, p.mask);
        assert Signals(p.mask, |p.handlers|) == p.mask;
        BracketsRestore(t, rest);
    }
  }

  function Count(s: nat, log: seq<(nat, Handler)>): nat {
    if log == [] then 0 else Count(s, log[..|log| - 1]) + if log[|log| - 1].0 == s then 1 else 0
  }

  predicate Arrives(s: nat, prog: Program) {
    match prog
    case Done => false
    case Arrival(sig, rest) => sig == s || Arrives(s, rest)
    case Bracket(_, body, rest) => Arrives(s, body) || Arrives(s, rest)
  }

  /** How often an unblocked signal must be delivered: at every arrival outside brackets
      that block it, and once for each such bracket it arrived in. */
  function Due(s: nat, prog: Program): nat {
    match prog
    case Done => 0
    case Arrival(sig, rest) => (if sig == s then 1 else 0) + Due(s, rest)
    case Bracket(mask, body, rest) =>
      (if s in mask then if Arrives(s, body) then 1 else 0 else Due(s, body)) + Due(s, rest)
  }

  lemma {:induction false} CountConcat(s: nat, a: seq<(nat, Handler)>, b: seq<(nat, Handler)>)
    ensures Count(s, a + b) == Count(s, a) + Count(s, b)
  {
    if b == [] {
      assert a + b == a;
    } else {
      var n := |b| - 1;
      CountConcat(s, a, b[..n]);
      assert (a + b)[..|a + b| - 1] == a + b[..n];
    }
  }

  lemma {:induction false} CountReleased(s: nat, p: Process, mask: set<nat>, k: nat)
    requires k <= |p.handlers|
    ensures Count(s, Released(p, mask, k)) == if s < k && s in p.pending && s !in mask then 1 else 0
  {
    if k > 0 {
      CountReleased(s, p, mask, k - 1);
      var last := if k - 1 in p.pending && k - 1 !in mask then [(k - 1, p.handlers[k - 1])] else [];
      CountConcat(s, Released(p, mask, k - 1), last);
      assert last != [] ==> last[..0] == [];
    }
  }

  lemma ArriveFacts(s: nat, p: Process, sig: nat)
    requires Proper(p) && sig < |p.handlers|
    ensures var q := Arrive(p, sig);
            && Proper(q) && q.mask == p.mask && |q.handlers| == |p.handlers|
            && Count(s, q.log) == Count(s, p.log) + (if sig == s && s !in p.mask then 1 else 0)
            && (s in q.pending <==> s in p.pending || (sig == s && s in p.mask))
  {
    if sig !in p.mask {
      CountConcat(s, p.log, [(sig, p.handlers[sig])]);
      assert [(sig, p.handlers[sig])][..0] == [];
    }
  }

  /** A bracket opened at p and closed at r, where nothing inside it changed the mask. */
  lemma BracketFacts(s: nat, p: Process, mask: set<nat>, body: Program)
    requires Proper(p) && Within(body, |p.handlers|) && s < |p.handlers|
    ensures var q := Block(p, mask);
            var r := Run(q, body);
            var t := SetMask(r, p.mask);
            && Proper(q) && q.pending == p.pending && q.log == p.log && |q.handlers| == |p.handlers|
            && (s in q.mask <==> s in p.mask || (s in mask && s >= 1))
            && Proper(t) && t.mask == p.mask && |t.handlers| == |p.handlers|
            && Count(s, t.log) == Count(s, r.log) + (if s in r.pending && s !in p.mask then 1 else 0)
            && (s in t.pending <==> s in r.pending && s in p.mask)
  {
    var q := Block(p, mask);
    BracketsRestore(q, body);
    var r := Run(q, body);
    CountReleased(s, r, p.mask, |r.handlers|);
    CountConcat(s, r.log, Released(r, p.mask, |r.handlers|));
    assert Signals(p.mask, |p.handlers|) == p.mask;
  }

  /** A blocked signal is never delivered, and is pending afterwards exactly if it was or
      if it arrived. */
  lemma {:induction false} BlockedHeld(s: nat, p: Process, prog: Program)
    requires Proper(p) && Within(prog, |p.handlers|) && s in p.mask
    ensures var r := Run(p, prog);
            Count(s, r.log) == Count(s, p.log) && (s in r.pending <==> s in p.pending || Arrives(s, prog))
    decreases prog
  {
    hide Arrive, Block, SetMask, Count;
    match prog {
      case Done =>
      case Arrival(sig, rest) =>
        ArriveFacts(s, p, sig);
        BlockedHeld(s, Arrive(p, sig), rest);
      case Bracket(mask, body, rest) =>
        BracketFacts(s, p, mask, body);
        BlockedHeld(s, Block(p, mask), body);
        BlockedHeld(s, SetMask(Run(Block(p, mask), body), p.mask), rest);
    }
  }

  /** A signal the outer mask lets through is delivered exactly as often as is due, and
      nothing of it is left behind. */
  lemma {:induction false} DeliveredAsDue(s: nat, p: Process, prog: Program)
    requires Proper(p) && Within(prog, |p.handlers|) && 1 <= s < |p.handlers| && s !in p.mask
    ensures var r := Run(p, prog); Count(s, r.log) == Count(s, p.log) + Due(s, prog) && s !in r.pending
    decreases prog
  {
    hide Arrive, Block, SetMask, Count;
    match prog {
      case Done =>
      case Arrival(sig, rest) =>
        ArriveFacts(s, p, sig);
        DeliveredAsDue(s, Arrive(p, sig), rest);
      case Bracket(mask, body, rest) =>
        BracketFacts(s, p, mask, body);
        if s in mask {
          BlockedHeld(s, Block(p, mask), body);
        } else {
          DeliveredAsDue(s, Block(p, mask), body);
        }
        DeliveredAsDue(s, SetMask(Run(Block(p, mask), body), p.mask), rest);
    }
  }

  // ---------------------------------------------------------------- calls in any order

  /** One call of the program, or one arrival. */
  datatype Call = Blocking(mask: set<nat>) | Masking(mask: set<nat>) | Arriving(sig: nat)

  function Perform(p: Process, calls: seq<Call>): (r: Process)
    requires forall c :: c in calls && c.Arriving? ==> c.sig < |p.handlers|
    ensures r.handlers == p.handlers
  {
    if calls == [] then p
    else
      var q := Perform(p, calls[..|calls| - 1]);
      match calls[|calls| - 1]
      case Blocking(mask) => Block(q, mask)
      case Masking(mask) => SetMask(q, mask)
      case Arriving(sig) => Arrive(q, sig)
  }

  /** The emulation under any calls at all. */
  method PerformAll(e: Emulation, calls: seq<Call>)
    requires e.Valid() && forall c :: c in calls && c.Arriving? ==> c.sig < e.nsig && c.sig in e.catchable
    modifies e, e.handler, e.table
    ensures e.Valid() && |old(e.process).handlers| == e.nsig && e.process == Perform(old(e.process), calls)
  {
    for k := 0 to |calls|
      invariant e.Valid() && forall c :: c in calls[..k] ==> c in calls
      invariant e.process == Perform(old(e.process), calls[..k])
    {
      assert calls[..k + 1][..k] == calls[..k];
      match calls[k] {
        case Blocking(mask) => var was := e.SigBlock(mask);
        case Masking(mask) => var was := e.SigSetMask(mask);
        case Arriving(sig) => e.Deliver(sig);
      }
    }
    assert calls[..|calls|] == calls;
  }

  /** Told by the calls alone: a signal is blocked if the last sigsetmask names it or a
      sigblock after that does. */
  predicate BlockedBy(s: nat, calls: seq<Call>) {
    calls != []
    && match calls[|calls| - 1]
       case Blocking(mask) => s in mask || BlockedBy(s, calls[..|calls| - 1])
       case Masking(mask) => s in mask
       case Arriving(_) => BlockedBy(s, calls[..|calls| - 1])
  }

  /** It waits if it arrived while it was blocked, and is blocked ever since. */
  predicate WaitsAfter(s: nat, calls: seq<Call>) {
    calls != []
    && var front := calls[..|calls| - 1];
       match calls[|calls| - 1]
       case Blocking(_) => WaitsAfter(s, front)
       case Masking(mask) => s in mask && WaitsAfter(s, front)
       case Arriving(sig) => WaitsAfter(s, front) || (sig == s && BlockedBy(s, front))
  }

  /** It is delivered at every arrival while it is not blocked, and once when a sigsetmask lets
      it go after it waited. */
  function DeliveredBy(s: nat, calls: seq<Call>): nat {
    if calls == [] then 0
    else
      var front := calls[..|calls| - 1];
      DeliveredBy(s, front)
      + match calls[|calls| - 1]
        case Blocking(_) => 0
        case Masking(mask) => if s !in mask && WaitsAfter(s, front) then 1 else 0
        case Arriving(sig) => if sig == s && !BlockedBy(s, front) then 1 else 0
  }

  /** For every order of sigblock, sigsetmask and arrivals, and every signal: it is blocked,
      waits, and has been delivered as the calls say. */
  lemma {:induction false} CallsDecide(s: nat, handlers: seq<Handler>, calls: seq<Call>)
    requires forall c :: c in calls && c.Arriving? ==> c.sig < |handlers|
    requires 1 <= s < |handlers|
    ensures var r := Perform(Process({}, {}, handlers, []), calls);
            && (s in r.mask <==> BlockedBy(s, calls)) && (s in r.pending <==> WaitsAfter(s, calls))
            && Count(s, r.log) == DeliveredBy(s, calls)
  {
    if calls != [] {
      var n := |calls| - 1;
      assert forall c :: c in calls[..n] ==> c in calls;
      CallsDecide(s, handlers, calls[..n]);
      assert calls[n] in calls;
      var q := Perform(Process({}, {}, handlers, []), calls[..n]);
      match calls[n] {
        case Blocking(mask) =>
        case Masking(mask) =>
          CountReleased(s, q, mask, |handlers|);
          CountConcat(s, q.log, Released(q, mask, |handlers|));
        case Arriving(sig) =>
          if sig !in q.mask {
            CountConcat(s, q.log, [(sig, handlers[sig])]);
            assert [(sig, handlers[sig])][..0] == [];
          }
      }
    }
  }

  /** Every delivery is to the program's handler for the signal. */
  predicate ToOwners(log: seq<(nat, Handler)>, handlers: seq<Handler>) {
    forall i :: 0 <= i < |log| ==> log[i].0 < |handlers| && log[i].1 == handlers[log[i].0]
  }

  /** What one sigsetmask lets go comes lowest signal first, each to its own handler. */
  lemma {:induction false} ReleasedInOrder(p: Process, mask: set<nat>, k: nat)
    requires k <= |p.handlers|
    ensures var l := Released(p, mask, k);
            ToOwners(l, p.handlers) && (forall i :: 0 <= i < |l| ==> l[i].0 < k)
            && forall i, j :: 0 <= i < j < |l| ==> l[i].0 < l[j].0
  {
    if k > 0 {
      ReleasedInOrder(p, mask, k - 1);
    }
  }

  /** So no call and no arrival ever runs another signal's handler. */
  lemma {:induction false} OwnersServed(handlers: seq<Handler>, calls: seq<Call>)
    requires forall c :: c in calls && c.Arriving? ==> c.sig < |handlers|
    ensures ToOwners(Perform(Process({}, {}, handlers, []), calls).log, handlers)
  {
    if calls != [] {
      var n := |calls| - 1;
      assert forall c :: c in calls[..n] ==> c in calls;
      OwnersServed(handlers, calls[..n]);
      assert calls[n] in calls;
      if calls[n].Masking? {
        ReleasedInOrder(Perform(Process({}, {}, handlers, []), calls[..n]), calls[n].mask, |handlers|);
      }
    }
  }
}
