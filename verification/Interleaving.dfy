/** Only the order of events within one register matters to replay. */
module Interleaving {
  import opened Bytes
  import opened BootTypes
  import opened EventReplay

  /** The events of `es` with register index `r`, in order. */
  function OfRegister(es: seq<Event>, r: nat): seq<Event> {
    if es == [] then []
    else
      var front := OfRegister(es[..|es| - 1], r);
      if es[|es| - 1].register == r then front + [es[|es| - 1]] else front
  }

  /** The part of the state that events with register index `r` read and write. */
  ghost predicate AgreeOn(k: Bank, r: nat, st: State, tt: State) {
    && StateOk(k, st) && StateOk(k, tt)
    && (0 <= k.Index(r) < k.Count() ==> st.registers[k.Index(r)] == tt.registers[k.Index(r)])
    && (k.kind == Tpm2 && r == 0 ==> st.pcr0Extended == tt.pcr0Extended && st.localitySeen == tt.localitySeen)
  }

  /** An event acts the same on states that agree on its register, and leaves the rest alone. */
  lemma StepLocal(k: Bank, st: State, tt: State, e: Event)
    requires k.InRange(e) && AgreeOn(k, e.register, st, tt)
    ensures Step(k, st, e).Ok? <==> Step(k, tt, e).Ok?
    ensures Step(k, st, e).Ok? ==> AgreeOn(k, e.register, Step(k, st, e).value, Step(k, tt, e).value)
  {
    hide Bank.Hash, AllAre;
  }

  lemma StepFrame(k: Bank, st: State, e: Event, r: nat)
    requires k.InRange(e) && StateOk(k, st) && r != e.register && Step(k, st, e).Ok?
    ensures AgreeOn(k, r, st, Step(k, st, e).value)
  {
    hide Bank.Hash, AllAre;
  }

  lemma RunLast(k: Bank, es: seq<Event>, e: Event)
    requires InRange(k, es) && k.InRange(e)
    ensures InRange(k, es + [e])
    ensures Run(k, es + [e]) == if Run(k, es).Ok? then Step(k, Run(k, es).value, e) else Run(k, es)
  {
    hide Step;
    assert (es + [e])[..|es|] == es;
  }

  lemma {:induction false} OfRegisterInRange(k: Bank, es: seq<Event>, r: nat)
    requires InRange(k, es)
    ensures InRange(k, OfRegister(es, r))
    decreases |es|
  {
    if es != [] {
      OfRegisterInRange(k, es[..|es| - 1], r);
    }
  }

  /** A log that replays also replays when cut down to one register, and that register ends the same. */
  lemma {:induction false} RunProjects(k: Bank, es: seq<Event>, r: nat)
    requires InRange(k, es) && Run(k, es).Ok?
    ensures InRange(k, OfRegister(es, r)) && Run(k, OfRegister(es, r)).Ok?
    ensures AgreeOn(k, r, Run(k, es).value, Run(k, OfRegister(es, r)).value)
    decreases |es|
  {
    hide Step;
    if es != [] {
      var front, e := es[..|es| - 1], es[|es| - 1];
      RunProjects(k, front, r);
      if e.register == r {
        StepLocal(k, Run(k, front).value, Run(k, OfRegister(front, r)).value, e);
        RunLast(k, OfRegister(front, r), e);
      } else {
        StepFrame(k, Run(k, front).value, e, r);
      }
    }
  }

  ghost predicate EachRegisterReplays(k: Bank, es: seq<Event>)
    requires InRange(k, es)
  {
    forall r: nat :: InRange(k, OfRegister(es, r)) && Run(k, OfRegister(es, r)).Ok?
  }

  /** A log replays as soon as each register's own events do. */
  lemma {:induction false} RunAssembles(k: Bank, es: seq<Event>)
    requires InRange(k, es) && EachRegisterReplays(k, es)
    ensures Run(k, es).Ok?
    decreases |es|
  {
    hide Step;
    if es != [] {
      var front, e := es[..|es| - 1], es[|es| - 1];
      forall r: nat
        ensures InRange(k, OfRegister(front, r)) && Run(k, OfRegister(front, r)).Ok?
      {
        OfRegisterInRange(k, front, r);
        assert Run(k, OfRegister(es, r)).Ok?;
        if e.register == r {
          RunLast(k, OfRegister(front, r), e);
        }
      }
      RunAssembles(k, front);
      RunProjects(k, front, e.register);
      RunLast(k, OfRegister(front, e.register), e);
      assert Run(k, OfRegister(es, e.register)).Ok?;
      StepLocal(k, Run(k, front).value, Run(k, OfRegister(front, e.register)).value, e);
    }
  }

  ghost predicate SameProjections(es: seq<Event>, fs: seq<Event>) {
    forall r: nat :: OfRegister(es, r) == OfRegister(fs, r)
  }

  lemma RegisterTransfers(k: Bank, es: seq<Event>, fs: seq<Event>, i: nat)
    requires InRange(k, es) && InRange(k, fs) && Run(k, es).Ok? && Run(k, fs).Ok? && i < k.Count()
    requires SameProjections(es, fs)
    ensures Run(k, es).value.registers[i] == Run(k, fs).value.registers[i]
  {
    hide Run, OfRegister, InRange;
    var r := if k.kind == TdxCcel then i + 1 else i;
    RunProjects(k, es, r);
    RunProjects(k, fs, r);
    assert OfRegister(es, r) == OfRegister(fs, r);
  }

  lemma ReplayTransfers(k: Bank, es: seq<Event>, fs: seq<Event>)
    requires InRange(k, es) && InRange(k, fs) && SameProjections(es, fs) && Run(k, es).Ok?
    ensures Run(k, fs).Ok? && Run(k, es).value.registers == Run(k, fs).value.registers
  {
    hide Run, OfRegister, InRange, AgreeOn;
    forall r: nat
      ensures InRange(k, OfRegister(fs, r)) && Run(k, OfRegister(fs, r)).Ok?
    {
      RunProjects(k, es, r);
      assert OfRegister(es, r) == OfRegister(fs, r);
    }
    RunAssembles(k, fs);
    forall i | 0 <= i < k.Count()
      ensures Run(k, es).value.registers[i] == Run(k, fs).value.registers[i]
    {
      RegisterTransfers(k, es, fs, i);
    }
  }

  /** Logs that agree register by register replay to the same registers, or are both refused. */
  lemma OnlyRegisterOrderMatters(k: Bank, es: seq<Event>, fs: seq<Event>)
    requires InRange(k, es) && InRange(k, fs) && SameProjections(es, fs)
    ensures Run(k, es).Ok? <==> Run(k, fs).Ok?
    ensures Run(k, es).Ok? ==> Run(k, es).value.registers == Run(k, fs).value.registers
  {
    hide Run, OfRegister;
    if Run(k, es).Ok? {
      ReplayTransfers(k, es, fs);
    }
    if Run(k, fs).Ok? {
      assert SameProjections(fs, es);
      ReplayTransfers(k, fs, es);
    }
  }

  lemma {:induction false} OfRegisterConcat(es: seq<Event>, fs: seq<Event>, r: nat)
    ensures OfRegister(es + fs, r) == OfRegister(es, r) + OfRegister(fs, r)
    decreases |fs|
  {
    if fs == [] {
      assert es + fs == es;
    } else {
      var front := fs[..|fs| - 1];
      OfRegisterConcat(es, front, r);
      assert (es + fs)[..|es + fs| - 1] == es + front;
    }
  }

  /** Swapping neighbouring events of different registers changes no replayed register and no verdict. */
  lemma SwapNeighbours(k: Bank, before: seq<Event>, x: Event, y: Event, after: seq<Event>)
    requires x.register != y.register
    requires InRange(k, before + [x, y] + after) && InRange(k, before + [y, x] + after)
    ensures var one, two := Run(k, before + [x, y] + after), Run(k, before + [y, x] + after);
            && (one.Ok? <==> two.Ok?)
            && (one.Ok? ==> one.value.registers == two.value.registers)
  {
    hide Run;
    var es, fs := before + [x, y] + after, before + [y, x] + after;
    forall r: nat
      ensures OfRegister(es, r) == OfRegister(fs, r)
    {
      OfRegisterConcat(before + [x, y], after, r);
      OfRegisterConcat(before, [x, y], r);
      OfRegisterConcat(before + [y, x], after, r);
      OfRegisterConcat(before, [y, x], r);
      PairProjection(x, y, r);
      PairProjection(y, x, r);
    }
    OnlyRegisterOrderMatters(k, es, fs);
  }

  lemma PairProjection(x: Event, y: Event, r: nat)
    ensures OfRegister([x, y], r) == (if x.register == r then [x] else []) + (if y.register == r then [y] else [])
  {
    assert OfRegister([x], r) == if x.register == r then [x] else [] by {
      assert [x][..0] == [];
    }
    assert [x, y][..1] == [x];
  }

  /** The same for whole logs: the verdict and the replayed registers ignore how registers are interleaved. */
  lemma ReplayIgnoresInterleaving(h: Sha2, a: EventLog, b: EventLog, algorithm: nat)
    requires LogShape(a) && LogShape(b) && a.kind == b.kind && a.algorithms == b.algorithms
    requires SameProjections(a.events, b.events)
    ensures Replay(h, a, algorithm).Ok? <==> Replay(h, b, algorithm).Ok?
    ensures Replay(h, a, algorithm).Ok? ==> Replay(h, a, algorithm) == Replay(h, b, algorithm)
  {
    hide Run, LogShape, SameProjections;
    if Replayable(a, algorithm) {
      ReplayRuns(h, a, algorithm);
      ReplayRuns(h, b, algorithm);
      OnlyRegisterOrderMatters(BankOf(h, a, algorithm), a.events, b.events);
    }
  }
}
