/** Writing the ledger to its file while records keep landing. Flush takes the store's lock, the
    ledger's lock and no lock in turn, so each of those three parts is one step of its own. */
module FlushProtocol {
  import opened Prelude
  import opened LedgerModel
  import opened LedgerFile

  /** Where a running Flush is: the dirty flag is taken down, or an encoded snapshot is in hand. */
  datatype Stage = Begun | Holding(file: File, version: nat)

  /** `past` lists every value the ledger has had, the current one last. `fileVersion` is the one last
      written to the file and `newest` the latest one ever written; both are bookkeeping. */
  datatype System = System(
    ledger: LedgerState,
    dirty: bool,
    file: File,
    flushes: map<nat, Stage>,
    past: seq<LedgerState>,
    fileVersion: nat,
    newest: nat)

  datatype Action =
    | Record(event: Event)
    | Begin(flush: nat)
    | Take(flush: nat)
    | Write(flush: nat)
    | FailWrite(flush: nat)
    | CrashAndReopen

  function Opened(file: File): System {
    System(Load(file), false, file, map[], [Load(file)], 0, 0)
  }

  /** One step; an action that cannot happen changes nothing. With `single`, a Flush does not begin
      while another is running. */
  function Step(codec: Codec, single: bool, s: System, a: Action): System {
    match a
    case Record(event) =>
      var l := Apply(s.ledger, event);
      s.(ledger := l, past := s.past + [l], dirty := true)
    case Begin(t) =>
      if t in s.flushes || !s.dirty || (single && s.flushes != map[]) then s
      else s.(dirty := false, flushes := s.flushes[t := Begun])
    case Take(t) =>
      if t !in s.flushes || !s.flushes[t].Begun? || s.past == [] then s
      else (match Encode(codec, s.ledger)
            case None => s.(dirty := true, flushes := s.flushes - {t})
            case Some(file) => s.(flushes := s.flushes[t := Holding(file, |s.past| - 1)]))
    case Write(t) =>
      if t !in s.flushes || s.flushes[t].Begun? then s
      else
        var v := s.flushes[t].version;
        s.(file := s.flushes[t].file, fileVersion := v, newest := if v > s.newest then v else s.newest,
           flushes := s.flushes - {t})
    case FailWrite(t) =>
      if t !in s.flushes || s.flushes[t].Begun? then s
      else s.(dirty := true, flushes := s.flushes - {t})
    case CrashAndReopen =>
      Opened(s.file).(past := s.past + [Load(s.file)], fileVersion := |s.past|, newest := |s.past|)
  }

  function Run(codec: Codec, single: bool, s: System, actions: seq<Action>): System {
    if actions == [] then s
    else Step(codec, single, Run(codec, single, s, actions[..|actions| - 1]), actions[|actions| - 1])
  }

  /** The file is what writing, or reading back, `l` gives. */
  ghost predicate Holds(codec: Codec, file: File, l: LedgerState) {
    Encode(codec, l) == Some(file) || Load(file) == l
  }

  /** A ledger that comes back from its own file. */
  ghost predicate Readable(codec: Codec, l: LedgerState) {
    && Encode(codec, l).Some?
    && (l == EMPTY || (0 < Encode(codec, l).value.size <= MAX_STATE && ManifestsCompact(codec, l)))
  }

  ghost predicate History(codec: Codec, s: System) {
    && s.past != [] && s.past[|s.past| - 1] == s.ledger
    && (forall i :: 0 <= i < |s.past| ==> Capped(s.past[i]))
    && s.fileVersion <= s.newest < |s.past|
    && Holds(codec, s.file, s.past[s.fileVersion])
    && forall t :: t in s.flushes && s.flushes[t].Holding? ==>
         && s.flushes[t].version < |s.past|
         && Encode(codec, s.past[s.flushes[t].version]) == Some(s.flushes[t].file)
  }

  /** Flush `t` will write the current ledger, if it does not fail. */
  ghost predicate Current(s: System, t: nat) {
    t in s.flushes && (s.flushes[t].Begun? || s.flushes[t].version == |s.past| - 1)
  }

  ghost predicate Covered(s: System) {
    s.dirty || s.newest == |s.past| - 1 || exists t :: Current(s, t)
  }

  ghost predicate InOrder(s: System) {
    && s.fileVersion == s.newest
    && (forall t, u :: t in s.flushes && u in s.flushes ==> t == u)
    && (forall t :: t in s.flushes && s.flushes[t].Holding? ==> s.newest <= s.flushes[t].version)
  }

  lemma LoadIsCapped(file: File)
    ensures Capped(Load(file))
  {
  }

  lemma ApplyIsCapped(l: LedgerState, e: Event)
    requires Capped(l)
    ensures Capped(Apply(l, e))
  {
  }

  lemma PushKeepsHistory(codec: Codec, s: System, l: LedgerState)
    requires History(codec, s) && Capped(l)
    ensures History(codec, s.(ledger := l, past := s.past + [l]))
  {
    var past := s.past + [l];
    assert forall i :: 0 <= i < |s.past| ==> past[i] == s.past[i];
  }

  lemma StepKeepsHistory(codec: Codec, single: bool, s: System, a: Action)
    requires History(codec, s)
    ensures History(codec, Step(codec, single, s, a))
  {
    match a
    case Record(event) =>
      ApplyIsCapped(s.ledger, event);
      PushKeepsHistory(codec, s, Apply(s.ledger, event));
    case CrashAndReopen =>
      LoadIsCapped(s.file);
      PushKeepsHistory(codec, s, Load(s.file));
    case _ =>
      FlushKeepsHistory(codec, single, s, a);
  }

  lemma FlushKeepsHistory(codec: Codec, single: bool, s: System, a: Action)
    requires History(codec, s) && !a.Record? && !a.CrashAndReopen?
    ensures History(codec, Step(codec, single, s, a))
  {
    var s' := Step(codec, single, s, a);
    assert s'.past == s.past;
    assert Holds(codec, s'.file, s'.past[s'.fileVersion]);
  }

  lemma StepKeepsCovered(codec: Codec, single: bool, s: System, a: Action)
    requires History(codec, s) && Covered(s)
    ensures Covered(Step(codec, single, s, a))
  {
    var s' := Step(codec, single, s, a);
    if !s.dirty && !s'.dirty && s.newest < |s.past| - 1 {
      var t :| Current(s, t);
      if a.Write? && a.flush == t {
        assert s'.newest == |s'.past| - 1 || s' == s;
      } else if !a.CrashAndReopen? {
        assert Current(s', t);
      }
    }
    if a.Begin? && s' != s {
      assert Current(s', a.flush);
    }
  }

  lemma StepKeepsOrder(codec: Codec, s: System, a: Action)
    requires History(codec, s) && InOrder(s)
    ensures InOrder(Step(codec, true, s, a))
  {
  }

  lemma {:induction false} RunInvariant(codec: Codec, single: bool, file: File, actions: seq<Action>)
    ensures var s := Run(codec, single, Opened(file), actions);
            History(codec, s) && Covered(s) && (single ==> InOrder(s))
  {
    if actions == [] {
      LoadIsCapped(file);
    } else {
      var before, a := actions[..|actions| - 1], actions[|actions| - 1];
      RunInvariant(codec, single, file, before);
      var s := Run(codec, single, Opened(file), before);
      StepKeepsHistory(codec, single, s, a);
      StepKeepsCovered(codec, single, s, a);
      if single {
        StepKeepsOrder(codec, s, a);
      }
    }
  }

  /** At every moment, however many flushes run and whatever fails or crashes, the file opens as some
      value the ledger really had, unless it holds one that its encoding does not preserve. */
  lemma FileIsAlwaysAPastLedger(codec: Codec, single: bool, file: File, actions: seq<Action>)
    ensures var s := Run(codec, single, Opened(file), actions);
            exists i :: 0 <= i < |s.past| &&
              (Load(s.file) == s.past[i] || (Encode(codec, s.past[i]) == Some(s.file) && !Readable(codec, s.past[i])))
  {
    RunInvariant(codec, single, file, actions);
    var s := Run(codec, single, Opened(file), actions);
    var l := s.past[s.fileVersion];
    if Encode(codec, l) == Some(s.file) {
      RoundTrip(codec, l);
    }
  }

  /** When nothing is dirty and no Flush is running, the current ledger has been written, however
      many flushes ran at once: a failed one never leaves the flag down. */
  lemma CleanMeansWritten(codec: Codec, single: bool, file: File, actions: seq<Action>)
    ensures var s := Run(codec, single, Opened(file), actions);
            !s.dirty && s.flushes == map[] ==> s.newest == |s.past| - 1
  {
    RunInvariant(codec, single, file, actions);
  }

  /** With one Flush at a time it is also what the file still holds: opening the file then gives the
      ledger in memory, if and only if that ledger survives its encoding. */
  lemma CleanFileIsTheLedger(codec: Codec, file: File, actions: seq<Action>)
    ensures var s := Run(codec, true, Opened(file), actions);
            !s.dirty && s.flushes == map[] ==>
              && Holds(codec, s.file, s.ledger)
              && (Encode(codec, s.ledger) == Some(s.file) ==> (Load(s.file) == s.ledger <==> Readable(codec, s.ledger)))
  {
    RunInvariant(codec, true, file, actions);
    var s := Run(codec, true, Opened(file), actions);
    if Encode(codec, s.ledger) == Some(s.file) {
      RoundTrip(codec, s.ledger);
    }
  }

  /** A Flush that nothing comes in between starts whenever the ledger is dirty and none is running. It
      writes what the ledger encodes to and leaves nothing dirty, or fails and leaves all as it was. */
  lemma LoneFlush(codec: Codec, single: bool, s: System, t: nat, writable: bool)
    requires s.flushes == map[] && s.past != []
    ensures var s' := Run(codec, single, s, [Begin(t), Take(t), if writable then Write(t) else FailWrite(t)]);
            && s'.ledger == s.ledger && s'.flushes == map[]
            && if !s.dirty then s' == s
               else if Encode(codec, s.ledger).Some? && writable then
                 !s'.dirty && s'.file == Encode(codec, s.ledger).value
               else s'.dirty && s'.file == s.file
  {
    var begun := Step(codec, single, s, Begin(t));
    var last := if writable then Write(t) else FailWrite(t);
    assert [Begin(t), Take(t), last][..2] == [Begin(t), Take(t)] && [Begin(t), Take(t)][..1] == [Begin(t)];
    assert [Begin(t)][..0] == [];
    assert Run(codec, single, s, [Begin(t)]) == begun;
    var taken := Step(codec, single, begun, Take(t));
    assert Run(codec, single, s, [Begin(t), Take(t)]) == taken;
    assert map[t := Begun] - {t} == map[];
  }

  /** The records of a run, in order. */
  function Records(actions: seq<Action>): seq<Event> {
    if actions == [] then []
    else
      var a := actions[|actions| - 1];
      Records(actions[..|actions| - 1]) + if a.Record? then [a.event] else []
  }

  function ApplyAll(l: LedgerState, events: seq<Event>): LedgerState {
    if events == [] then l else Apply(ApplyAll(l, events[..|events| - 1]), events[|events| - 1])
  }

  /** Until the next crash the ledger in memory is what the records make of it; flushes never change it. */
  lemma {:induction false} MemoryFollowsRecords(codec: Codec, single: bool, s: System, actions: seq<Action>)
    requires CrashAndReopen !in actions
    ensures Run(codec, single, s, actions).ledger == ApplyAll(s.ledger, Records(actions))
  {
    if actions != [] {
      var before, a := actions[..|actions| - 1], actions[|actions| - 1];
      assert a in actions;
      MemoryFollowsRecords(codec, single, s, before);
      if a.Record? {
        assert Records(actions)[..|Records(before)|] == Records(before);
      } else {
        assert Records(actions) == Records(before);
      }
    }
  }

  /** After a crash the ledger goes on from what was on disk, and nothing is dirty until the next record. */
  lemma RestartResumes(codec: Codec, single: bool, s: System, since: seq<Action>)
    requires CrashAndReopen !in since
    ensures var s' := Run(codec, single, Step(codec, single, s, CrashAndReopen), since);
            && s'.ledger == ApplyAll(Load(s.file), Records(since))
            && (Records(since) == [] ==> !s'.dirty && s'.file == s.file)
  {
    var reopened := Step(codec, single, s, CrashAndReopen);
    MemoryFollowsRecords(codec, single, reopened, since);
    IdleStaysClean(codec, single, reopened, since);
  }

  lemma {:induction false} IdleStaysClean(codec: Codec, single: bool, s: System, actions: seq<Action>)
    requires CrashAndReopen !in actions && !s.dirty && s.flushes == map[]
    ensures Records(actions) == [] ==>
              var s' := Run(codec, single, s, actions); !s'.dirty && s'.flushes == map[] && s'.file == s.file
  {
    if actions != [] && Records(actions) == [] {
      assert actions[|actions| - 1] in actions;
      IdleStaysClean(codec, single, s, actions[..|actions| - 1]);
    }
  }

  lemma RunSnoc(codec: Codec, single: bool, s: System, actions: seq<Action>, a: Action)
    ensures Run(codec, single, s, actions + [a]) == Step(codec, single, Run(codec, single, s, actions), a)
  {
    assert (actions + [a])[..|actions|] == actions;
  }

  lemma Then(codec: Codec, s: System, actions: seq<Action>, a: Action, reached: System) returns (longer: seq<Action>)
    requires Run(codec, false, s, actions) == reached
    ensures longer == actions + [a] && Run(codec, false, s, longer) == Step(codec, false, reached, a)
  {
    longer := actions + [a];
    RunSnoc(codec, false, s, actions, a);
  }

  /** One flush has its snapshot in hand when a second event lands. */
  function Overtaken(one: LedgerState, two: LedgerState, first: File): System {
    System(two, true, Absent, map[0 := Holding(first, 1)], [EMPTY, one, two], 0, 0)
  }

  lemma OvertakenIsReached(codec: Codec, e1: Event, e2: Event) returns (actions: seq<Action>)
    requires Encode(codec, Apply(EMPTY, e1)).Some?
    ensures actions == [Record(e1), Begin(0), Take(0), Record(e2)]
    ensures var one := Apply(EMPTY, e1);
            Run(codec, false, Opened(Absent), actions) == Overtaken(one, Apply(one, e2), Encode(codec, one).value)
  {
    var s0 := Opened(Absent);
    var one := Apply(EMPTY, e1);
    var s1 := System(one, true, Absent, map[], [EMPTY, one], 0, 0);
    actions := Then(codec, s0, [], Record(e1), s0);
    actions := Then(codec, s0, actions, Begin(0), s1);
    actions := Then(codec, s0, actions, Take(0), s1.(dirty := false, flushes := map[0 := Begun]));
    actions := Then(codec, s0, actions, Record(e2),
                    s1.(dirty := false, flushes := map[0 := Holding(Encode(codec, one).value, 1)]));
  }

  /** Two flushes at once can leave an older ledger on the file with nothing dirty: the second one
      begins after the first took its snapshot and writes before it. */
  lemma ConcurrentFlushesCanGoBack(codec: Codec, e1: Event, e2: Event) returns (actions: seq<Action>)
    requires Readable(codec, Apply(EMPTY, e1)) && Encode(codec, Apply(Apply(EMPTY, e1), e2)).Some?
    ensures actions == [Record(e1), Begin(0), Take(0), Record(e2), Begin(1), Take(1), Write(1), Write(0)]
    ensures var s := Run(codec, false, Opened(Absent), actions);
            && !s.dirty && s.flushes == map[]
            && s.ledger == Apply(Apply(EMPTY, e1), e2) && Load(s.file) == Apply(EMPTY, e1)
  {
    var s0, one := Opened(Absent), Apply(EMPTY, e1);
    var two := Apply(one, e2);
    var held := BothHolding(one, two, Encode(codec, one).value, Encode(codec, two).value);
    actions := BothHoldingIsReached(codec, e1, e2);
    actions := Then(codec, s0, actions, Write(1), held);
    actions := Then(codec, s0, actions, Write(0), Step(codec, false, held, Write(1)));
    RoundTrip(codec, one);
  }

  /** Both flushes have a snapshot in hand, the first an older one. */
  function BothHolding(one: LedgerState, two: LedgerState, first: File, second: File): System {
    Overtaken(one, two, first).(dirty := false, flushes := map[0 := Holding(first, 1), 1 := Holding(second, 2)])
  }

  lemma BothHoldingIsReached(codec: Codec, e1: Event, e2: Event) returns (actions: seq<Action>)
    requires Encode(codec, Apply(EMPTY, e1)).Some? && Encode(codec, Apply(Apply(EMPTY, e1), e2)).Some?
    ensures actions == [Record(e1), Begin(0), Take(0), Record(e2), Begin(1), Take(1)]
    ensures var one, two := Apply(EMPTY, e1), Apply(Apply(EMPTY, e1), e2);
            Run(codec, false, Opened(Absent), actions)
            == BothHolding(one, two, Encode(codec, one).value, Encode(codec, two).value)
  {
    var s0, one, two := Opened(Absent), Apply(EMPTY, e1), Apply(Apply(EMPTY, e1), e2);
    var s4 := Overtaken(one, two, Encode(codec, one).value);
    actions := OvertakenIsReached(codec, e1, e2);
    actions := Then(codec, s0, actions, Begin(1), s4);
    actions := Then(codec, s0, actions, Take(1), s4.(dirty := false, flushes := s4.flushes[1 := Begun]));
  }

  /** Such a run exists. */
  lemma ConcurrentFlushesDoGoBack()
    ensures exists codec, actions ::
              var s := Run(codec, false, Opened(Absent), actions);
              !s.dirty && s.flushes == map[] && Load(s.file) != s.ledger
  {
    var codec := Codec(_ => 1, m => Some(m));
    var e := RecordRejected("", 1);
    var one := Apply(EMPTY, e);
    RoundTrip(codec, one);
    var actions := ConcurrentFlushesCanGoBack(codec, e, e);
    assert Apply(one, e).rejectedTotal == 2;
  }
}
