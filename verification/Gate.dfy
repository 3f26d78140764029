/**
  The start gate between a trusted parent and the resident init of a sandbox:
  the parent authorises a start only after it has seen readiness, and observes
  one terminal status. All interleavings of both parties are runs of one state
  machine; deadlines, cancellation and peer loss are steps that can always occur.
  */
module Gate {
  import opened Wrappers
  import opened Completion

  /** The parent's typestates; a finished gate has dropped its socket. */
  datatype Parent = Waiting | Ready | Started | Returned(raw: bv32) | Stopped

  /** The child's: endpoint, readiness sent, past the gate, status sent, or gone. */
  datatype Child = Fresh | Announced | Passed | Reported | Lost

  datatype Event =
    | ReadyReceived
    | StartSent
    | GatePassed
    | StatusReported(raw: bv32)
    | StatusReturned(raw: bv32)

  /** Both parties, the packets under way in either direction, and what happened so far. */
  datatype System = System(parent: Parent, child: Child, toParent: seq<Packet>, toChild: seq<Packet>, log: seq<Event>) {
    /** A parent that is done has shut the channel down. */
    predicate ParentOpen() {
      parent.Waiting? || parent.Ready? || parent.Started?
    }

    predicate ChildOpen() {
      child != Lost
    }
  }

  const INITIAL := System(Waiting, Fresh, [], [], [])

  datatype Action =
    | ReceiveReady
    | SendStart
    | ReceiveStatus
    | ParentFails
    | SendReady
    | ReceiveStart
    | Report(raw: bv32)
    | Stray(packet: Packet)
    | ChildFails

  /** One step, where it is possible; a receiver acts on the oldest packet. */
  function Next(s: System, action: Action): Option<System> {
    match action
    case ReceiveReady =>
      if s.parent != Waiting || s.toParent == [] then None
      else if s.toParent[0] == Signal(READY) then
        Some(s.(parent := Ready, toParent := s.toParent[1..], log := s.log + [ReadyReceived]))
      else Some(s.(parent := Stopped, toParent := s.toParent[1..]))
    case SendStart =>
      if s.parent != Ready then None
      else if !s.ChildOpen() then Some(s.(parent := Stopped))
      else Some(s.(parent := Started, toChild := s.toChild + [Signal(START)], log := s.log + [StartSent]))
    case ReceiveStatus =>
      if s.parent != Started || s.toParent == [] then None
      else (match StatusOf(s.toParent[0])
        case Some(raw) => Some(s.(parent := Returned(raw), toParent := s.toParent[1..], log := s.log + [StatusReturned(raw)]))
        case None => Some(s.(parent := Stopped, toParent := s.toParent[1..])))
    case ParentFails =>
      if !s.ParentOpen() then None else Some(s.(parent := Stopped))
    case SendReady =>
      if s.child != Fresh then None
      else if !s.ParentOpen() then Some(s.(child := Lost))
      else Some(s.(child := Announced, toParent := s.toParent + [Signal(READY)]))
    case ReceiveStart =>
      if s.child != Announced || s.toChild == [] then None
      else if s.toChild[0] == Signal(START) then
        Some(s.(child := Passed, toChild := s.toChild[1..], log := s.log + [GatePassed]))
      else Some(s.(child := Lost, toChild := s.toChild[1..]))
    case Report(raw) =>
      if s.child != Passed then None
      else if StatusPacket(raw) == None || !s.ParentOpen() then Some(s.(child := Lost))
      else Some(s.(child := Reported, toParent := s.toParent + [StatusPacket(raw).value],
                   log := s.log + [StatusReported(raw)]))
    case Stray(packet) =>
      if !s.ChildOpen() || !s.ParentOpen() || StatusOf(packet).Some? then None
      else Some(s.(toParent := s.toParent + [packet]))
    case ChildFails =>
      if !s.ChildOpen() then None else Some(s.(child := Lost))
  }

  /** A run of steps; impossible steps end it. */
  function Run(s: System, actions: seq<Action>): Option<System>
    decreases |actions|
  {
    if actions == [] then Some(s)
    else
      var next :- Next(s, actions[0]);
      Run(next, actions[1..])
  }

  // ---- Safety ----

  /** Each event was preceded by what authorises it. */
  ghost predicate Justified(log: seq<Event>) {
    forall i | 0 <= i < |log| :: Allowed(log[..i], log[i])
  }

  ghost predicate Allowed(before: seq<Event>, event: Event) {
    match event
    case ReadyReceived => true
    case StartSent => ReadyReceived in before
    case GatePassed => StartSent in before
    case StatusReported(raw) => GatePassed in before && Valid(raw)
    case StatusReturned(raw) => StatusReported(raw) in before
  }

  predicate SameKind(a: Event, b: Event) {
    (a.StatusReported? && b.StatusReported?) || (a.StatusReturned? && b.StatusReturned?) || a == b
  }

  /** No kind of event happens twice. */
  ghost predicate Once(log: seq<Event>) {
    forall i, j | 0 <= i < j < |log| :: !SameKind(log[i], log[j])
  }

  ghost predicate Logged(log: seq<Event>, event: Event) {
    exists i | 0 <= i < |log| :: SameKind(log[i], event)
  }

  const ANY: bv32 := 0

  /** How both typestates and the packets under way relate to what happened. */
  ghost predicate Consistent(s: System) {
    && Justified(s.log) && Once(s.log)
    && (s.parent.Waiting? ==> !Logged(s.log, ReadyReceived))
    && (s.parent.Waiting? || s.parent.Ready? ==> !Logged(s.log, StartSent))
    && (s.parent.Ready? ==> ReadyReceived in s.log)
    && (s.parent.Started? ==> StartSent in s.log)
    && (!s.parent.Returned? ==> !Logged(s.log, StatusReturned(ANY)))
    && (s.parent.Returned? ==> StatusReturned(s.parent.raw) in s.log)
    && (s.child.Fresh? || s.child.Announced? ==> !Logged(s.log, GatePassed))
    && (s.child.Passed? || s.child.Reported? ==> GatePassed in s.log)
    && (s.child.Fresh? || s.child.Announced? || s.child.Passed? ==> !Logged(s.log, StatusReported(ANY)))
    && (forall p <- s.toChild :: p == Signal(START) && StartSent in s.log)
    && (forall p <- s.toParent | StatusOf(p).Some? :: StatusReported(StatusOf(p).value) in s.log)
  }

  /** Logging one more authorised event of a new kind. */
  lemma LogMore(log: seq<Event>, event: Event)
    requires Justified(log) && Once(log) && Allowed(log, event) && !Logged(log, event)
    ensures Justified(log + [event]) && Once(log + [event])
    ensures forall other :: other in log + [event] <==> other in log || other == event
    ensures forall other :: Logged(log + [event], other) <==> Logged(log, other) || SameKind(event, other)
  {
    var more := log + [event];
    forall i | 0 <= i < |more|
      ensures Allowed(more[..i], more[i])
    {
      assert more[..i] == if i < |log| then log[..i] else log;
    }
    forall other
      ensures Logged(more, other) <==> Logged(log, other) || SameKind(event, other)
    {
      assert more[|log|] == event;
      if Logged(log, other) {
        var i :| 0 <= i < |log| && SameKind(log[i], other);
        assert more[i] == log[i];
      }
    }
  }

  lemma ReadyKeeps(s: System)
    requires Consistent(s) && Next(s, ReceiveReady).Some?
    ensures Consistent(Next(s, ReceiveReady).value)
  {
    hide Justified, Once, Logged, Valid, BigEndian, FromBigEndian, StatusOf, StatusPacket;
    assert forall p <- s.toParent[1..] :: p in s.toParent;
    if s.toParent[0] == Signal(READY) {
      LogMore(s.log, ReadyReceived);
    }
  }

  lemma StartKeeps(s: System)
    requires Consistent(s) && Next(s, SendStart).Some?
    ensures Consistent(Next(s, SendStart).value)
  {
    hide Justified, Once, Logged, Valid, BigEndian, FromBigEndian, StatusOf, StatusPacket;
    if s.ChildOpen() {
      LogMore(s.log, StartSent);
    }
  }

  lemma StatusKeeps(s: System)
    requires Consistent(s) && Next(s, ReceiveStatus).Some?
    ensures Consistent(Next(s, ReceiveStatus).value)
  {
    hide Justified, Once, Logged, Valid, BigEndian, FromBigEndian, StatusOf, StatusPacket;
    assert s.toParent[0] in s.toParent && forall p <- s.toParent[1..] :: p in s.toParent;
    if StatusOf(s.toParent[0]).Some? {
      var raw := StatusOf(s.toParent[0]).value;
      SameKindLogged(s.log, StatusReturned(raw), StatusReturned(ANY));
      LogMore(s.log, StatusReturned(raw));
    }
  }

  lemma PassKeeps(s: System)
    requires Consistent(s) && Next(s, ReceiveStart).Some?
    ensures Consistent(Next(s, ReceiveStart).value)
  {
    hide Justified, Once, Logged, Valid, BigEndian, FromBigEndian, StatusOf, StatusPacket;
    assert s.toChild[0] in s.toChild && forall p <- s.toChild[1..] :: p in s.toChild;
    if s.toChild[0] == Signal(START) {
      LogMore(s.log, GatePassed);
    }
  }

  lemma ReportKeeps(s: System, raw: bv32)
    requires Consistent(s) && Next(s, Report(raw)).Some?
    ensures Consistent(Next(s, Report(raw)).value)
  {
    hide Justified, Once, Logged, Valid, BigEndian, FromBigEndian, StatusOf, StatusPacket;
    StatusRoundTrip(raw);
    if StatusPacket(raw).Some? && s.ParentOpen() {
      SameKindLogged(s.log, StatusReported(raw), StatusReported(ANY));
      LogMore(s.log, StatusReported(raw));
    }
  }

  lemma SignalCarriesNoStatus(opcode: bv8)
    ensures StatusOf(Signal(opcode)) == None
  {
  }

  lemma OtherKeeps(s: System, action: Action)
    requires Consistent(s) && Next(s, action).Some?
    requires action.ParentFails? || action.SendReady? || action.Stray? || action.ChildFails?
    ensures Consistent(Next(s, action).value)
  {
    SignalCarriesNoStatus(READY);
    hide Justified, Once, Logged, Valid, BigEndian, FromBigEndian, StatusOf, StatusPacket;
  }

  /** Every step of either party keeps the system consistent. */
  lemma StepKeeps(s: System, action: Action)
    requires Consistent(s) && Next(s, action).Some?
    ensures Consistent(Next(s, action).value)
  {
    hide Consistent, Next;
    match action
    case ReceiveReady => ReadyKeeps(s);
    case SendStart => StartKeeps(s);
    case ReceiveStatus => StatusKeeps(s);
    case ReceiveStart => PassKeeps(s);
    case Report(raw) => ReportKeeps(s, raw);
    case _ => OtherKeeps(s, action);
  }

  lemma SameKindLogged(log: seq<Event>, a: Event, b: Event)
    requires SameKind(a, b)
    ensures Logged(log, a) <==> Logged(log, b)
  {
  }

  lemma {:induction false} RunKeeps(s: System, actions: seq<Action>)
    requires Consistent(s) && Run(s, actions).Some?
    ensures Consistent(Run(s, actions).value)
    decreases |actions|
  {
    hide Consistent, Next;
    if actions != [] {
      StepKeeps(s, actions[0]);
      RunKeeps(Next(s, actions[0]).value, actions[1..]);
    }
  }

  lemma Earlier(log: seq<Event>, event: Event)
    requires Justified(log) && event in log
    ensures event.GatePassed? ==> StartSent in log
    ensures event.StatusReturned? ==> StatusReported(event.raw) in log
  {
    var i :| 0 <= i < |log| && log[i] == event;
    assert Allowed(log[..i], log[i]);
  }

  lemma InitialConsistent()
    ensures Consistent(INITIAL)
  {
  }

  /**
    In every interleaving, with stray packets, expiry and peer loss: the child is
    past the gate only after the parent received readiness and then sent start, no
    step of the protocol happens twice, and a status the parent returns is the
    terminal status that the child reported after passing.
    */
  lemma GateIsSafe(actions: seq<Action>)
    requires Run(INITIAL, actions).Some?
    ensures var end := Run(INITIAL, actions).value;
      && Justified(end.log) && Once(end.log)
      && (end.child.Passed? || end.child.Reported? ==> GatePassed in end.log)
      && (end.parent.Returned? ==> StatusReturned(end.parent.raw) in end.log && StatusReported(end.parent.raw) in end.log)
  {
    hide Run;
    InitialConsistent();
    RunKeeps(INITIAL, actions);
    var end := Run(INITIAL, actions).value;
    if end.parent.Returned? {
      Earlier(end.log, StatusReturned(end.parent.raw));
    }
  }

  // ---- A start that failed or was dropped never releases ----

  /** The parent has given up before authorising. */
  ghost predicate Refused(s: System) {
    s.parent.Stopped? && StartSent !in s.log && Consistent(s)
  }

  lemma {:induction false} RefusedForever(s: System, actions: seq<Action>)
    requires Refused(s) && Run(s, actions).Some?
    ensures Refused(Run(s, actions).value)
    decreases |actions|
  {
    hide Consistent;
    if actions != [] {
      StepKeeps(s, actions[0]);
      RefusedForever(Next(s, actions[0]).value, actions[1..]);
    }
  }

  /** Whatever happens after the parent gave up without a start, the child never passes. */
  lemma FailedStartNeverReleases(before: seq<Action>, after: seq<Action>)
    requires Run(INITIAL, before).Some? && Run(Run(INITIAL, before).value, after).Some?
    requires Run(INITIAL, before).value.parent.Stopped? && StartSent !in Run(INITIAL, before).value.log
    ensures var end := Run(Run(INITIAL, before).value, after).value;
      && GatePassed !in end.log && !end.child.Passed? && !end.child.Reported?
  {
    hide Run, Once;
    InitialConsistent();
    RunKeeps(INITIAL, before);
    RefusedForever(Run(INITIAL, before).value, after);
    var end := Run(Run(INITIAL, before).value, after).value;
    if GatePassed in end.log {
      Earlier(end.log, GatePassed);
    }
  }

  /** And the gate does open: both parties following the protocol reach a returned status. */
  lemma GateOpens(raw: bv32)
    requires Valid(raw)
    ensures var end := Run(INITIAL, [SendReady, ReceiveReady, SendStart, ReceiveStart, Report(raw), ReceiveStatus]);
      end.Some? && end.value.parent == Returned(raw) && end.value.child == Reported
  {
    hide Valid, BigEndian, FromBigEndian, StatusOf, StatusPacket;
    StatusRoundTrip(raw);
    var packet := StatusPacket(raw).value;
    var s1 := Next(INITIAL, SendReady).value;
    var s2 := Next(s1, ReceiveReady).value;
    var s3 := Next(s2, SendStart).value;
    var s4 := Next(s3, ReceiveStart).value;
    var s5 := Next(s4, Report(raw)).value;
    var s6 := Next(s5, ReceiveStatus).value;
    RunOne(s5, ReceiveStatus, []);
    RunOne(s4, Report(raw), [ReceiveStatus]);
    RunOne(s3, ReceiveStart, [Report(raw), ReceiveStatus]);
    RunOne(s2, SendStart, [ReceiveStart, Report(raw), ReceiveStatus]);
    RunOne(s1, ReceiveReady, [SendStart, ReceiveStart, Report(raw), ReceiveStatus]);
    RunOne(INITIAL, SendReady, [ReceiveReady, SendStart, ReceiveStart, Report(raw), ReceiveStatus]);
  }

  lemma RunOne(s: System, action: Action, rest: seq<Action>)
    requires Next(s, action).Some?
    ensures Run(s, [action] + rest) == Run(Next(s, action).value, rest)
    ensures Run(s, []) == Some(s)
  {
    hide Next;
    assert ([action] + rest)[1..] == rest;
  }
}
