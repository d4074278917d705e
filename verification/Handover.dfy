/** The receive loop of tools/common/modem.c, which hands the messages over from its own
    start handler to the handler of the application. */
module Handover {
  import opened Bytes

  const EAGAIN := 11
  const EACCES := 13
  const ENODEV := 19

  const MODEM_STATE_LPM := 1
  const MODEM_STATE_NORMAL := 2
  const MODEM_STATE_SIM_OK := 4

  const IPC_GROUP_PWR := 0x01
  const IPC_GROUP_SEC := 0x05
  const IPC_PWR_PHONE_PWR_UP := 0x0101
  const IPC_PWR_PHONE_STATE := 0x0107
  const IPC_SEC_PIN_STATUS := 0x0501
  const IPC_SEC_SIM_ICC_TYPE := 0x0507
  const PIN_STATUS_LOCK_SC: byte := 0x03
  const PIN_STATUS_CARD_NOT_PRESENT: byte := 0x80
  const PIN_STATUS_INIT_COMPLETE: byte := 0x82
  const SIM_CARD_TYPE_UNKNOWN: byte := 0x00

  /** A received message with the payload fields that the handlers read: the first byte,
      and the first four as a C `int`. */
  datatype Message = Message(command: nat, first: byte, word: int)

  /** What the loop meets in one turn; `appResult` is what the application's handler
      returns if it is asked. */
  datatype Event =
    | PollFailed
    | RecvFailed(rc: int)
    | Received(message: Message, appResult: int)

  datatype Handler = Start | App

  /** The two static variables. */
  datatype State = State(current: int, callback: Handler)

  datatype Dispatch = Dispatch(handler: Handler, message: Message)

  // ---------------------------------------------------------------- specification

  /** The start handler: the new value of the modem state and the result. */
  function StartHandle(current: int, m: Message, wanted: int): (int, int) {
    if m.command == IPC_PWR_PHONE_PWR_UP then (MODEM_STATE_LPM, -EAGAIN)
    else if m.command == IPC_PWR_PHONE_STATE then (m.word, -EAGAIN)
    else if m.command == IPC_SEC_PIN_STATUS then
      if m.first == PIN_STATUS_CARD_NOT_PRESENT then
        (current, if wanted == MODEM_STATE_SIM_OK then -ENODEV else 0)
      else if m.first == PIN_STATUS_LOCK_SC && wanted == MODEM_STATE_SIM_OK then
        (current, -EACCES)
      else if m.first == PIN_STATUS_INIT_COMPLETE && current == MODEM_STATE_NORMAL then
        (MODEM_STATE_SIM_OK, 0)
      else (current, -EAGAIN)
    else if m.command == IPC_SEC_SIM_ICC_TYPE && m.first == SIM_CARD_TYPE_UNKNOWN
            && wanted == MODEM_STATE_SIM_OK then (current, -ENODEV)
    else (current, -EAGAIN)
  }

  /** Who handles a message in a state. */
  function Chosen(s: State, wanted: int): Handler {
    if s.current == wanted then App else s.callback
  }

  function Handle(s: State, m: Message, wanted: int, appResult: int): (State, int) {
    if Chosen(s, wanted).App? then (State(s.current, App), appResult)
    else
      var (current, rc) := StartHandle(s.current, m, wanted);
      (State(current, Start), rc)
  }

  /** A run of the loop: the statics at its end, what it dispatched, and its result, if it
      has returned by then. */
  datatype Outcome = Outcome(state: State, log: seq<Dispatch>, rc: Option<int>)

  function Run(s: State, events: seq<Event>, wanted: int): Outcome
    decreases |events|
  {
    if events == [] then Outcome(s, [], None)
    else
      match events[0]
      case PollFailed => Run(s, events[1..], wanted)
      case RecvFailed(rc) =>
        if rc < 0 then Outcome(s, [], Some(rc)) else Run(s, events[1..], wanted)
      case Received(m, appResult) =>
        var d := Dispatch(Chosen(s, wanted), m);
        var (t, rc) := Handle(s, m, wanted, appResult);
        if rc == 0 then Outcome(State(t.current, App), [d], Some(0))
        else if rc < 0 && rc != -EAGAIN then Outcome(t, [d], Some(rc))
        else
          var rest := Run(t, events[1..], wanted);
          rest.(log := [d] + rest.log)
  }

  // ---------------------------------------------------------------- the loop itself

  class ModemLoop {
    var current: int
    var callback: Handler
    ghost var log: seq<Dispatch>

    constructor ()
      ensures current == MODEM_STATE_LPM && callback == Start && log == []
    {
      current, callback, log := MODEM_STATE_LPM, Start, [];
    }

    ghost function Statics(): State
      reads this
    {
      State(current, callback)
    }

    /** `modem_response_sec`. */
    method ResponseSec(m: Message, wanted: int) returns (rc: int)
      requires m.command / 256 == IPC_GROUP_SEC
      modifies `current
      ensures (current, rc) == StartHandle(old(current), m, wanted)
    {
      if m.command == IPC_SEC_PIN_STATUS {
        if m.first == PIN_STATUS_CARD_NOT_PRESENT {
          if wanted == MODEM_STATE_SIM_OK {
            return -ENODEV;
          } else {
            return 0;
          }
        } else if m.first == PIN_STATUS_LOCK_SC {
          if wanted == MODEM_STATE_SIM_OK {
            return -EACCES;
          }
        } else if m.first == PIN_STATUS_INIT_COMPLETE {
          if current == MODEM_STATE_NORMAL {
            current := MODEM_STATE_SIM_OK;
            return 0;
          }
        }
      } else if m.command == IPC_SEC_SIM_ICC_TYPE {
        if m.first == SIM_CARD_TYPE_UNKNOWN {
          if wanted == MODEM_STATE_SIM_OK {
            return -ENODEV;
          }
        }
      }
      return -EAGAIN;
    }

    /** `modem_response_pwr`. */
    method ResponsePwr(m: Message) returns (rc: int)
      requires m.command / 256 == IPC_GROUP_PWR
      modifies `current
      ensures rc == 0
      ensures forall wanted :: (current, -EAGAIN) == StartHandle(old(current), m, wanted)
    {
      if m.command == IPC_PWR_PHONE_PWR_UP {
        current := MODEM_STATE_LPM;
      } else if m.command == IPC_PWR_PHONE_STATE {
        current := m.word;
      }
      return 0;
    }

    /** `modem_start_response_handle`. */
    method StartResponseHandle(m: Message, wanted: int) returns (rc: int)
      modifies `current
      ensures (current, rc) == StartHandle(old(current), m, wanted)
    {
      if m.command / 256 == IPC_GROUP_PWR {
        rc := ResponsePwr(m);
        if rc == 0 {
          return -EAGAIN;
        }
      } else if m.command / 256 == IPC_GROUP_SEC {
        rc := ResponseSec(m, wanted);
      } else {
        return -EAGAIN;
      }
    }

    /** `modem_response_handle`. */
    method ResponseHandle(m: Message, wanted: int, appResult: int) returns (rc: int)
      modifies this
      ensures (Statics(), rc) == Handle(old(Statics()), m, wanted, appResult)
      ensures log == old(log) + [Dispatch(Chosen(old(Statics()), wanted), m)]
    {
      if current == wanted {
        callback := App;
      }
      log := log + [Dispatch(callback, m)];
      if callback == Start {
        rc := StartResponseHandle(m, wanted);
      } else {
        rc := appResult;
      }
    }

    /** `modem_read_loop` over the given turns; `None` means that it is still running. */
    method ReadLoop(events: seq<Event>, wanted: int) returns (rc: Option<int>)
      modifies this
      ensures Outcome(Statics(), log, rc)
              == var r := Run(old(Statics()), events, wanted); r.(log := old(log) + r.log)
    {
      ghost var all := Run(Statics(), events, wanted);
      var i := 0;
      assert events[0..] == events;
      while i < |events|
        invariant i <= |events|
        invariant var rest := Run(Statics(), events[i..], wanted);
                  rest.(log := log + rest.log) == all.(log := old(log) + all.log)
      {
        var e := events[i];
        assert events[i..][0] == e && events[i..][1..] == events[i + 1..];
        i := i + 1;
        match e {
          case PollFailed =>
          case RecvFailed(failure) =>
            if failure < 0 {
              return Some(failure);
            }
          case Received(m, appResult) =>
            var result := ResponseHandle(m, wanted, appResult);
            if result == -EAGAIN {
            } else if result < 0 {
              return Some(result);
            } else if result == 0 {
              if callback == Start {
                callback := App;
              }
              return Some(0);
            }
        }
      }
      return None;
    }
  }

  // ---------------------------------------------------------------- properties of every run

  ghost predicate AllBy(h: Handler, log: seq<Dispatch>) {
    forall i | 0 <= i < |log| :: log[i].handler == h
  }

  /** After the handover: everything goes to the application, the callback never returns
      and the modem state is frozen, whatever arrives. */
  lemma {:induction false} AfterHandover(s: State, events: seq<Event>, wanted: int)
    requires s.callback == App || s.current == wanted
    ensures var r := Run(s, events, wanted);
            && r.state.current == s.current && AllBy(App, r.log)
            && (s.callback == App ==> r.state.callback == App)
    decreases |events|
  {
    if events != [] {
      AfterHandover(s, events[1..], wanted);
      AfterHandover(State(s.current, App), events[1..], wanted);
    }
  }

  /** Every run dispatches a prefix to the start handler and the rest to the application.
      The application is reached inside a run only in the wanted state, and that state
      then stays. */
  lemma {:induction false} HandoverSplits(s: State, events: seq<Event>, wanted: int)
    returns (k: nat)
    ensures var r := Run(s, events, wanted);
            && k <= |r.log| && AllBy(Start, r.log[..k]) && AllBy(App, r.log[k..])
            && (k < |r.log| ==> r.state.callback == App)
            && (k < |r.log| && s.callback == Start ==> r.state.current == wanted)
    decreases |events|
  {
    k := 0;
    if events != [] {
      if s.callback == App || s.current == wanted {
        AfterHandover(s, events, wanted);
        AppInLog(s, events, wanted);
      } else {
        match events[0]
        case PollFailed => k := HandoverSplits(s, events[1..], wanted);
        case RecvFailed(rc) => k := HandoverSplits(s, events[1..], wanted);
                               if rc < 0 { k := 0; }
        case Received(m, appResult) =>
          var (t, rc) := Handle(s, m, wanted, appResult);
          k := 1;
          if rc > 0 || rc == -EAGAIN {
            var rest := Run(t, events[1..], wanted);
            var j := HandoverSplits(t, events[1..], wanted);
            k := j + 1;
            var d := Dispatch(Chosen(s, wanted), m);
            assert ([d] + rest.log)[..k] == [d] + rest.log[..j];
            assert ([d] + rest.log)[k..] == rest.log[j..];
          }
      }
    }
  }

  /** A run that has dispatched to the application leaves the callback there. */
  lemma {:induction false} AppInLog(s: State, events: seq<Event>, wanted: int)
    requires s.callback == App || s.current == wanted
    ensures Run(s, events, wanted).log != [] ==> Run(s, events, wanted).state.callback == App
    decreases |events|
  {
    if events != [] {
      AppInLog(s, events[1..], wanted);
      AfterHandover(State(s.current, App), events[1..], wanted);
    }
  }

  function Messages(events: seq<Event>): seq<Message> {
    if events == [] then []
    else (if events[0].Received? then [events[0].message] else []) + Messages(events[1..])
  }

  function Dispatched(log: seq<Dispatch>): (ms: seq<Message>)
    ensures |ms| == |log|
  {
    seq(|log|, i requires 0 <= i < |log| => log[i].message)
  }

  /** No message is skipped, repeated or reordered: what is dispatched is a prefix of what
      is received, and all of it while the loop is running. */
  lemma {:induction false} DispatchesInOrder(s: State, events: seq<Event>, wanted: int)
    ensures var r := Run(s, events, wanted);
            && Dispatched(r.log) <= Messages(events)
            && (r.rc.None? ==> Dispatched(r.log) == Messages(events))
    decreases |events|
  {
    if events != [] {
      match events[0]
      case PollFailed => DispatchesInOrder(s, events[1..], wanted);
      case RecvFailed(rc) => DispatchesInOrder(s, events[1..], wanted);
      case Received(m, appResult) =>
        var (t, rc) := Handle(s, m, wanted, appResult);
        var rest := Run(t, events[1..], wanted);
        DispatchesInOrder(t, events[1..], wanted);
        var d := Dispatch(Chosen(s, wanted), m);
        assert Dispatched([d] + rest.log) == [m] + Dispatched(rest.log);
    }
  }

  /** A run that ends with 0 has reached the wanted state, as success is documented. */
  ghost predicate SuccessIsTrue(s: State, events: seq<Event>, wanted: int) {
    var r := Run(s, events, wanted);
    r.rc == Some(0) ==> r.state.current == wanted
  }

  lemma {:induction false} SimOkIsReached(s: State, events: seq<Event>)
    requires s.callback == Start
    ensures SuccessIsTrue(s, events, MODEM_STATE_SIM_OK)
    decreases |events|
  {
    if s.current == MODEM_STATE_SIM_OK {
      AfterHandover(s, events, MODEM_STATE_SIM_OK);
    } else if events != [] {
      match events[0]
      case PollFailed => SimOkIsReached(s, events[1..]);
      case RecvFailed(rc) => SimOkIsReached(s, events[1..]);
      case Received(m, appResult) =>
        var (t, rc) := Handle(s, m, MODEM_STATE_SIM_OK, appResult);
        SimOkIsReached(t, events[1..]);
    }
  }

  /** Result 0 of the loop means the wanted state, over all runs, exactly if the loop starts
      in it, or starts before the handover and the SIM is what is wanted.  Otherwise a
      missing SIM, or the application itself, ends the loop elsewhere. */
  lemma ReadLoopSucceedsIff(s: State, wanted: int)
    ensures (forall events :: SuccessIsTrue(s, events, wanted))
            <==> s.current == wanted || (s.callback == Start && wanted == MODEM_STATE_SIM_OK)
  {
    if s.current == wanted {
      forall events
        ensures SuccessIsTrue(s, events, wanted)
      {
        AfterHandover(s, events, wanted);
      }
    } else if s.callback == Start && wanted == MODEM_STATE_SIM_OK {
      forall events
        ensures SuccessIsTrue(s, events, wanted)
      {
        SimOkIsReached(s, events);
      }
    } else {
      var noSim := Received(Message(IPC_SEC_PIN_STATUS, PIN_STATUS_CARD_NOT_PRESENT, 0), 0);
      assert Run(s, [noSim], wanted).rc == Some(0);
      assert !SuccessIsTrue(s, [noSim], wanted);
    }
  }

  /** Without the SIM, although it is not what is waited for. */
  predicate NoSim(m: Message, wanted: int) {
    && m.command == IPC_SEC_PIN_STATUS && m.first == PIN_STATUS_CARD_NOT_PRESENT
    && wanted != MODEM_STATE_SIM_OK
  }

  /** The SIM becomes ready in the normal state, but another state is waited for. */
  predicate OnlySimReady(current: int, m: Message, wanted: int) {
    && m.command == IPC_SEC_PIN_STATUS && m.first == PIN_STATUS_INIT_COMPLETE
    && current == MODEM_STATE_NORMAL && wanted != MODEM_STATE_SIM_OK
  }

  /** A turn that ends the loop with 0 elsewhere than in the wanted state. */
  predicate EndsElsewhere(s: State, e: Event, wanted: int) {
    && e.Received? && s.current != wanted
    && if s.callback == App then e.appResult == 0
       else NoSim(e.message, wanted) || OnlySimReady(s.current, e.message, wanted)
  }

  /** The loop is still running before turn `k`, which ends it elsewhere. */
  ghost predicate TurnEndsElsewhere(s: State, events: seq<Event>, wanted: int, k: nat) {
    && k < |events| && Run(s, events[..k], wanted).rc.None?
    && EndsElsewhere(Run(s, events[..k], wanted).state, events[k], wanted)
  }

  /** One turn: the statics behind it, and the result if it ends the loop. */
  function Turn(s: State, e: Event, wanted: int): (State, Option<int>) {
    match e
    case PollFailed => (s, None)
    case RecvFailed(rc) => (s, if rc < 0 then Some(rc) else None)
    case Received(m, appResult) =>
      var (t, rc) := Handle(s, m, wanted, appResult);
      if rc == 0 then (State(t.current, App), Some(0))
      else (t, if rc < 0 && rc != -EAGAIN then Some(rc) else None)
  }

  lemma RunTurn(s: State, events: seq<Event>, wanted: int)
    requires events != []
    ensures var (t, rc) := Turn(s, events[0], wanted);
            var r, rest := Run(s, events, wanted), Run(t, events[1..], wanted);
            && r.state == (if rc.None? then rest.state else t)
            && r.rc == if rc.None? then rest.rc else rc
  {
  }

  lemma TurnEndsIff(s: State, e: Event, wanted: int)
    requires s.current != wanted
    ensures EndsElsewhere(s, e, wanted)
            <==> var (t, rc) := Turn(s, e, wanted); rc == Some(0) && t.current != wanted
  {
  }

  /** A run ends with 0 elsewhere exactly by one of three turns: a missing SIM or a SIM that
      becomes ready, while something else is waited for, or a handler of the application
      that was installed from the start. */
  lemma {:induction false} WrongEndIff(s: State, events: seq<Event>, wanted: int)
    ensures !SuccessIsTrue(s, events, wanted)
            <==> exists k: nat :: TurnEndsElsewhere(s, events, wanted, k)
    decreases |events|
  {
    if s.current == wanted {
      WantedStays(s, events, wanted);
    } else if events != [] {
      var (t, rc) := Turn(s, events[0], wanted);
      RunTurn(s, events, wanted);
      TurnEndsIff(s, events[0], wanted);
      if k: nat :| TurnEndsElsewhere(s, events, wanted, k) {
        if k > 0 {
          LaterTurn(s, events, wanted, k - 1);
          WrongEndIff(t, events[1..], wanted);
        }
      } else if !SuccessIsTrue(s, events, wanted) {
        if rc.None? {
          WrongEndIff(t, events[1..], wanted);
          var k: nat :| TurnEndsElsewhere(t, events[1..], wanted, k);
          LaterTurn(s, events, wanted, k);
        } else {
          assert TurnEndsElsewhere(s, events, wanted, 0);
        }
      }
    }
  }

  lemma WantedStays(s: State, events: seq<Event>, wanted: int)
    requires s.current == wanted
    ensures SuccessIsTrue(s, events, wanted)
    ensures forall k: nat :: !TurnEndsElsewhere(s, events, wanted, k)
  {
    AfterHandover(s, events, wanted);
    forall k: nat | k < |events|
      ensures Run(s, events[..k], wanted).state.current == wanted
    {
      AfterHandover(s, events[..k], wanted);
    }
  }

  /** A turn behind the first ends the loop if the first lets it run on. */
  lemma LaterTurn(s: State, events: seq<Event>, wanted: int, k: nat)
    requires events != []
    ensures var (t, rc) := Turn(s, events[0], wanted);
            TurnEndsElsewhere(s, events, wanted, k + 1)
            <==> rc.None? && TurnEndsElsewhere(t, events[1..], wanted, k)
  {
    if k + 1 < |events| {
      assert events[..k + 1][1..] == events[1..][..k];
      RunTurn(s, events[..k + 1], wanted);
    }
  }

  // ---------------------------------------------------------------- states and results of every run

  /** The loop has not returned before turn `k`. */
  ghost predicate Running(s: State, events: seq<Event>, wanted: int, k: nat) {
    k < |events| && Run(s, events[..k], wanted).rc.None?
  }

  /** The statics before turn `k`. */
  function Before(s: State, events: seq<Event>, wanted: int, k: nat): State
    requires k <= |events|
  {
    Run(s, events[..k], wanted).state
  }

  /** A run is extended turn by turn. */
  lemma {:induction false} RunExtends(s: State, events: seq<Event>, wanted: int, k: nat)
    requires k < |events|
    ensures var r, next := Run(s, events[..k], wanted), Run(s, events[..k + 1], wanted);
            if r.rc.Some? then next.state == r.state && next.rc == r.rc
            else (next.state, next.rc) == Turn(r.state, events[k], wanted)
    decreases k
  {
    RunTurn(s, events[..k + 1], wanted);
    if k > 0 {
      var (t, rc) := Turn(s, events[0], wanted);
      RunTurn(s, events[..k], wanted);
      assert events[..k][1..] == events[1..][..k - 1] && events[..k + 1][1..] == events[1..][..k];
      RunExtends(t, events[1..], wanted, k - 1);
    }
  }

  /** A message that tells the modem state: powered up, the reported phone state, and a SIM
      that has become ready in the normal state. */
  predicate Reports(m: Message, before: int, after: int) {
    || (m.command == 0x0101 && after == 1)
    || (m.command == 0x0107 && after == m.word)
    || (m.command == 0x0501 && m.first == 0x82 && before == 2 && after == 4)
  }

  /** The start handler handles turn `k`. */
  ghost predicate Starting(s: State, events: seq<Event>, wanted: int, k: nat) {
    && Running(s, events, wanted, k)
    && Before(s, events, wanted, k).callback == Start && Before(s, events, wanted, k).current != wanted
  }

  lemma TurnReports(s: State, e: Event, wanted: int)
    ensures var t := Turn(s, e, wanted).0;
            if s.callback == Start && s.current != wanted
               && e.Received? && (exists v :: Reports(e.message, s.current, v))
            then Reports(e.message, s.current, t.current)
            else t.current == s.current
  {
    if e.Received? && s.callback == Start && s.current != wanted {
      var m := e.message;
      if m.command == 0x0101 {
        assert Reports(m, s.current, 1);
      } else if m.command == 0x0107 {
        assert Reports(m, s.current, m.word);
      } else if m.command == 0x0501 && m.first == 0x82 && s.current == 2 {
        assert Reports(m, s.current, 4);
      }
    }
  }

  /** The modem state after any run is what the last of these messages to the start handler
      has told, or the first state if there was none: `k` is the turn behind it. */
  lemma {:induction false} StateIsReported(s: State, events: seq<Event>, wanted: int)
    returns (k: nat)
    ensures k <= |events|
    ensures var current := Run(s, events, wanted).state.current;
            && (k == 0 ==> current == s.current)
            && (k > 0 ==>
                  && Starting(s, events, wanted, k - 1) && events[k - 1].Received?
                  && Reports(events[k - 1].message, Before(s, events, wanted, k - 1).current, current))
            && forall i, v | k <= i < |events| && Starting(s, events, wanted, i) && events[i].Received? ::
                 !Reports(events[i].message, current, v)
    decreases |events|
  {
    if events == [] {
      k := 0;
    } else {
      var n := |events| - 1;
      var before := events[..n];
      k := StateIsReported(s, before, wanted);
      forall i: nat | i <= n
        ensures events[..i] == before[..i]
      {
      }
      assert events[..n + 1] == events && before[..n] == before;
      RunExtends(s, events, wanted, n);
      TurnReports(Before(s, events, wanted, n), events[n], wanted);
      if Starting(s, events, wanted, n) && events[n].Received? {
        if v :| Reports(events[n].message, Before(s, events, wanted, n).current, v) {
          k := n + 1;
        }
      }
    }
  }

  /** Some turn tells the start handler that the modem is in the wanted state. */
  ghost predicate WantedReported(s: State, events: seq<Event>, wanted: int, k: nat) {
    && Starting(s, events, wanted, k) && events[k].Received?
    && Reports(events[k].message, Before(s, events, wanted, k).current, wanted)
  }

  /** A run that starts before the handover ends in the wanted state exactly if a message has
      told the start handler so. */
  lemma {:induction false} WantedIffReported(s: State, events: seq<Event>, wanted: int)
    requires s.callback == Start && s.current != wanted
    ensures var r := Run(s, events, wanted);
            && (r.state.current == wanted <==> exists k: nat :: WantedReported(s, events, wanted, k))
            && (r.state.current != wanted && r.rc.None? ==> r.state.callback == Start)
    decreases |events|
  {
    if events != [] {
      var n := |events| - 1;
      var before := events[..n];
      WantedIffReported(s, before, wanted);
      assert events[..n + 1] == events && before[..n] == before;
      RunExtends(s, events, wanted, n);
      TurnReports(Before(s, events, wanted, n), events[n], wanted);
      forall k: nat | k < n
        ensures WantedReported(s, events, wanted, k) <==> WantedReported(s, before, wanted, k)
      {
        assert events[..k] == before[..k];
      }
      if k: nat :| WantedReported(s, before, wanted, k) {
        assert WantedReported(s, events, wanted, k);
      }
      if Starting(s, events, wanted, n) && events[n].Received?
         && Reports(events[n].message, Before(s, events, wanted, n).current, wanted) {
        assert WantedReported(s, events, wanted, n);
        ReportsOne(events[n].message, Before(s, events, wanted, n).current, wanted,
                   Run(s, events, wanted).state.current);
      }
    }
  }

  lemma ReportsOne(m: Message, before: int, v: int, w: int)
    ensures Reports(m, before, v) && Reports(m, before, w) ==> v == w
  {
  }

  /** A turn that ends the loop with result `x`: a failed receive; a final result of the
      application; for the start handler a SIM that is missing or becomes ready, or, if
      the SIM is waited for, one that is missing (-ENODEV), locked (-EACCES) or unknown. */
  predicate Ends(s: State, e: Event, wanted: int, x: int) {
    match e
    case PollFailed => false
    case RecvFailed(rc) => rc == x && x < 0
    case Received(m, appResult) =>
      if s.callback == App || s.current == wanted then appResult == x && x <= 0 && x != -11
      else
        || (x == 0 && m.command == 0x0501
            && ((m.first == 0x80 && wanted != 4) || (m.first == 0x82 && s.current == 2)))
        || (x == -19 && wanted == 4 && ((m.command == 0x0501 && m.first == 0x80)
                                        || (m.command == 0x0507 && m.first == 0)))
        || (x == -13 && wanted == 4 && m.command == 0x0501 && m.first == 3)
  }

  lemma EndsIff(s: State, e: Event, wanted: int, x: int)
    ensures Ends(s, e, wanted, x) <==> Turn(s, e, wanted).1 == Some(x)
    ensures Turn(s, e, wanted).1 == Some(0) ==> Turn(s, e, wanted).0.callback == App
  {
  }

  ghost predicate EndsAt(s: State, events: seq<Event>, wanted: int, x: int, k: nat) {
    Running(s, events, wanted, k) && Ends(Before(s, events, wanted, k), events[k], wanted, x)
  }

  /** Every result of the loop, 0 and failures alike, comes from exactly such a turn; with 0
      the application has taken over. */
  lemma {:induction false} ResultIff(s: State, events: seq<Event>, wanted: int, x: int)
    ensures Run(s, events, wanted).rc == Some(x) <==> exists k: nat :: EndsAt(s, events, wanted, x, k)
    ensures Run(s, events, wanted).rc == Some(0) ==> Run(s, events, wanted).state.callback == App
    decreases |events|
  {
    if events != [] {
      var n := |events| - 1;
      var before := events[..n];
      ResultIff(s, before, wanted, x);
      assert events[..n + 1] == events && before[..n] == before;
      RunExtends(s, events, wanted, n);
      EndsIff(Before(s, events, wanted, n), events[n], wanted, x);
      EndsIff(Before(s, events, wanted, n), events[n], wanted, 0);
      forall k: nat | k < n
        ensures EndsAt(s, events, wanted, x, k) <==> EndsAt(s, before, wanted, x, k)
      {
        assert events[..k] == before[..k];
      }
      if k: nat :| EndsAt(s, before, wanted, x, k) {
        assert EndsAt(s, events, wanted, x, k);
      }
      if Run(s, before, wanted).rc.None? && Ends(Before(s, events, wanted, n), events[n], wanted, x) {
        assert EndsAt(s, events, wanted, x, n);
      }
    }
  }
}
