/** From control payloads to transmitted frames: the subscriber callback, the bounded
    command queue and the transmit worker as a step machine with histories. */
module Downlink {
  import opened Results
  import opened Codec
  import opened CanHandler
  import opened CommandParser
  import opened RoundTrip

  const CAN_TX_CAPACITY := 100

  /** The DBC store of each bus that has a handler. */
  type Stores = map<string, Option<DbcStore>>

  ghost predicate ValidStores(dbs: Stores) {
    forall bus :: bus in dbs ==> UsableStore(dbs[bus])
  }

  // ---------------------------------------------------------------- one command

  /** The frame the worker puts on the bus for a command, if any. */
  function Routed(dbs: Stores, msg: DecodeMsg, transmitted: bool): Option<Frame>
    requires ValidStores(dbs)
  {
    if msg.busID !in dbs then None
    else match EncodeFrame(dbs[msg.busID], msg)
      case Err(_) => None
      case Ok(frame) => if transmitted then Some(frame) else None
  }

  class TxWorker {
    const canHandlers: map<string, Handler>

    ghost predicate Valid() {
      forall bus :: bus in canHandlers ==> UsableStore(canHandlers[bus].sigDB)
    }

    ghost function HandlerStores(): Stores {
      map bus | bus in canHandlers :: canHandlers[bus].sigDB
    }

    constructor (canHandlers: map<string, Handler>)
      requires forall bus :: bus in canHandlers ==> UsableStore(canHandlers[bus].sigDB)
      ensures Valid() && this.canHandlers == canHandlers
    {
      this.canHandlers := canHandlers;
    }

    /** Routes one command by its bus; unknown buses and failed sends are passed over. */
    method OnCommand(msg: DecodeMsg, transmitted: bool) returns (sent: Option<Frame>)
      requires Valid()
      ensures ValidStores(HandlerStores())
      ensures sent == Routed(HandlerStores(), msg, transmitted)
      ensures sent.Some? <==>
              transmitted && msg.busID in canHandlers && EncodeFrame(canHandlers[msg.busID].sigDB, msg).Ok?
      ensures sent.Some? ==> EncodeFrame(canHandlers[msg.busID].sigDB, msg) == Ok(sent.value)
    {
      if msg.busID !in canHandlers {
        return None;
      }
      var h := canHandlers[msg.busID];
      var result;
      sent, result := h.SendFrame(msg, transmitted);
    }
  }

  // ---------------------------------------------------------------- the machine

  /** An accepted payload and the command made of it. */
  datatype Acceptance = Acceptance(payload: Payload, msg: DecodeMsg)

  /** A queued command with the number of its acceptance. */
  datatype Item = Item(number: nat, msg: DecodeMsg)

  datatype Sent = Sent(number: nat, bus: string, frame: Frame)

  /** `accepted`, `enqueued`, `taken` and `sent` are histories. */
  datatype State = State(
    cancelled: bool,
    accepted: seq<Acceptance>,
    pending: Option<Item>,
    enqueued: seq<Item>,
    canTx: seq<Item>,
    taken: seq<Item>,
    sent: seq<Sent>,
    stopped: bool
  )

  const INITIAL := State(false, [], None, [], [], [], [], false)

  datatype Event =
    | Cancel
    | Command(payload: Payload, msg: DecodeMsg)
    | Refuse(payload: Payload)
    | Enqueue
    | Abandon
    | Take(transmitted: bool)
    | Stop

  /** Callbacks run one at a time: a payload is handled only when the command before it
      has been enqueued or abandoned. */
  ghost predicate Enabled(s: State, e: Event) {
    match e
    case Cancel => true
    case Command(p, msg) => s.pending.None? && CommandOf(p, msg)
    case Refuse(p) => s.pending.None? && !Accepted(p)
    case Enqueue => s.pending.Some? && |s.canTx| < CAN_TX_CAPACITY
    case Abandon => s.pending.Some? && s.cancelled
    case Take(_) => !s.stopped && s.canTx != []
    case Stop => s.cancelled
  }

  /** What taking `item` adds to the transmissions, given the socket's answer. */
  function SentFor(dbs: Stores, item: Item, answer: bool): seq<Sent>
    requires ValidStores(dbs)
  {
    match Routed(dbs, item.msg, answer)
    case None => []
    case Some(frame) => [Sent(item.number, item.msg.busID, frame)]
  }

  function Issued(s: State, p: Payload, msg: DecodeMsg): State {
    s.(accepted := s.accepted + [Acceptance(p, msg)], pending := Some(Item(|s.accepted|, msg)))
  }

  function Next(dbs: Stores, s: State, e: Event): State
    requires ValidStores(dbs)
    requires e.Enqueue? ==> s.pending.Some?
    requires e.Take? ==> s.canTx != []
  {
    match e
    case Cancel => s.(cancelled := true)
    case Command(p, msg) => Issued(s, p, msg)
    case Refuse(_) => s
    case Enqueue =>
      s.(enqueued := s.enqueued + [s.pending.value], canTx := s.canTx + [s.pending.value], pending := None)
    case Abandon => s.(pending := None)
    case Take(transmitted) =>
      var item := s.canTx[0];
      s.(canTx := s.canTx[1..],
         taken := s.taken + [item],
         sent := s.sent + SentFor(dbs, item, transmitted))
    case Stop => s.(stopped := true)
  }

  ghost function Exec(dbs: Stores, es: seq<Event>): Option<State>
    requires ValidStores(dbs)
  {
    if es == [] then Some(INITIAL)
    else
      match Exec(dbs, es[..|es| - 1])
      case None => None
      case Some(s) => if Enabled(s, es[|es| - 1]) then Some(Next(dbs, s, es[|es| - 1])) else None
  }

  // ---------------------------------------------------------------- the invariant

  ghost predicate Numbered(s: State, item: Item) {
    item.number < |s.accepted| && s.accepted[item.number].msg == item.msg
  }

  ghost predicate Increasing(items: seq<Item>) {
    forall i, j :: 0 <= i < j < |items| ==> items[i].number < items[j].number
  }

  function Backlog(s: State): seq<Item> {
    s.enqueued + if s.pending.Some? then [s.pending.value] else []
  }

  /** The queue carries accepted commands, in order of acceptance, none twice. */
  ghost predicate Queued(s: State) {
    && (forall a :: a in s.accepted ==> CommandOf(a.payload, a.msg))
    && |s.canTx| <= CAN_TX_CAPACITY
    && s.enqueued == s.taken + s.canTx
    && (forall item :: item in Backlog(s) ==> Numbered(s, item))
    && Increasing(Backlog(s))
    && (!s.cancelled ==> |Backlog(s)| == |s.accepted|)
  }

  /** The transmitted frame is what its own command encodes to on its own bus. */
  ghost predicate Faithful(dbs: Stores, s: State, x: Sent)
    requires ValidStores(dbs)
  {
    && x.number < |s.accepted|
    && var msg := s.accepted[x.number].msg;
       x.bus == msg.busID && x.bus in dbs && EncodeFrame(dbs[x.bus], msg) == Ok(x.frame)
  }

  ghost predicate SentInOrder(s: State) {
    && (forall i, j :: 0 <= i < j < |s.sent| ==> s.sent[i].number < s.sent[j].number)
    && (forall x :: x in s.sent ==> s.taken != [] && x.number <= s.taken[|s.taken| - 1].number)
  }

  ghost predicate Inv(dbs: Stores, s: State)
    requires ValidStores(dbs)
  {
    Queued(s) && SentInOrder(s) && forall x :: x in s.sent ==> Faithful(dbs, s, x)
  }

  lemma CommandQueued(s: State, p: Payload, msg: DecodeMsg)
    requires Queued(s) && Enabled(s, Command(p, msg))
    ensures Queued(Issued(s, p, msg))
  {
    var t := Issued(s, p, msg);
    var item := Item(|s.accepted|, msg);
    assert Backlog(t) == Backlog(s) + [item];
    forall x | x in Backlog(s)
      ensures Numbered(t, x) && x.number < item.number
    {
      assert Numbered(s, x);
    }
    assert forall i :: 0 <= i < |Backlog(s)| ==> Backlog(s)[i] in Backlog(s);
    assert Numbered(t, item);
  }

  lemma EnqueueQueued(dbs: Stores, s: State)
    requires ValidStores(dbs) && Queued(s) && Enabled(s, Enqueue)
    ensures Queued(Next(dbs, s, Enqueue))
  {
    assert Backlog(Next(dbs, s, Enqueue)) == Backlog(s);
    assert forall x :: x in Backlog(s) && Numbered(s, x) ==> Numbered(Next(dbs, s, Enqueue), x);
  }

  lemma AbandonQueued(dbs: Stores, s: State)
    requires ValidStores(dbs) && Queued(s) && Enabled(s, Abandon)
    ensures Queued(Next(dbs, s, Abandon))
  {
    var t := Next(dbs, s, Abandon);
    assert Backlog(t) == s.enqueued == Backlog(s)[..|s.enqueued|];
    forall x | x in Backlog(t)
      ensures Numbered(t, x)
    {
      assert x in Backlog(s) && Numbered(s, x);
    }
  }

  lemma TakeQueued(dbs: Stores, s: State, transmitted: bool)
    requires ValidStores(dbs) && Queued(s) && Enabled(s, Take(transmitted))
    ensures Queued(Next(dbs, s, Take(transmitted)))
  {
    var t := Next(dbs, s, Take(transmitted));
    assert s.taken + s.canTx == (s.taken + [s.canTx[0]]) + s.canTx[1..];
    assert Backlog(t) == Backlog(s);
    assert forall x :: x in Backlog(s) && Numbered(s, x) ==> Numbered(t, x);
  }

  lemma StepQueued(dbs: Stores, s: State, e: Event)
    requires ValidStores(dbs) && Queued(s) && Enabled(s, e)
    ensures Queued(Next(dbs, s, e))
  {
    match e
    case Command(p, msg) => CommandQueued(s, p, msg);
    case Enqueue => EnqueueQueued(dbs, s);
    case Abandon => AbandonQueued(dbs, s);
    case Take(transmitted) => TakeQueued(dbs, s, transmitted);
    case _ =>
      assert forall x :: x in Backlog(s) && Numbered(s, x) ==> Numbered(Next(dbs, s, e), x);
  }

  /** The head of the queue was accepted after everything transmitted so far. */
  lemma HeadIsLatest(s: State)
    requires Queued(s) && SentInOrder(s) && s.canTx != []
    ensures Numbered(s, s.canTx[0])
    ensures forall x :: x in s.sent ==> x.number < s.canTx[0].number
  {
    assert Backlog(s)[|s.taken|] == s.canTx[0];
    if s.taken != [] {
      assert Backlog(s)[|s.taken| - 1] == s.taken[|s.taken| - 1];
    }
  }

  lemma TakeSentInOrder(dbs: Stores, s: State, transmitted: bool)
    requires ValidStores(dbs) && Queued(s) && SentInOrder(s) && s.canTx != []
    ensures SentInOrder(Next(dbs, s, Take(transmitted)))
  {
    HeadIsLatest(s);
    var t := Next(dbs, s, Take(transmitted));
    assert forall i :: 0 <= i < |s.sent| ==> t.sent[i] == s.sent[i] && s.sent[i] in s.sent;
    assert t.taken[|t.taken| - 1] == s.canTx[0];
  }

  lemma StepFaithful(dbs: Stores, s: State, e: Event, x: Sent)
    requires ValidStores(dbs) && Queued(s) && SentInOrder(s) && Enabled(s, e)
    requires x in s.sent ==> Faithful(dbs, s, x)
    requires x in Next(dbs, s, e).sent
    ensures Faithful(dbs, Next(dbs, s, e), x)
  {
    if e.Take? {
      HeadIsLatest(s);
    }
  }

  lemma StepSentInOrder(dbs: Stores, s: State, e: Event)
    requires ValidStores(dbs) && Queued(s) && SentInOrder(s) && Enabled(s, e)
    ensures SentInOrder(Next(dbs, s, e))
  {
    if e.Take? {
      TakeSentInOrder(dbs, s, e.transmitted);
    } else {
      assert Next(dbs, s, e).sent == s.sent && Next(dbs, s, e).taken == s.taken;
    }
  }

  lemma StepInv(dbs: Stores, s: State, e: Event)
    requires ValidStores(dbs) && Inv(dbs, s) && Enabled(s, e)
    ensures Inv(dbs, Next(dbs, s, e))
  {
    StepQueued(dbs, s, e);
    StepSentInOrder(dbs, s, e);
    forall x | x in Next(dbs, s, e).sent
      ensures Faithful(dbs, Next(dbs, s, e), x)
    {
      StepFaithful(dbs, s, e, x);
    }
  }

  lemma {:induction false} RunKeeps(dbs: Stores, es: seq<Event>)
    requires ValidStores(dbs) && Exec(dbs, es).Some?
    ensures Inv(dbs, Exec(dbs, es).value)
  {
    if es != [] {
      RunKeeps(dbs, es[..|es| - 1]);
      StepInv(dbs, Exec(dbs, es[..|es| - 1]).value, es[|es| - 1]);
    }
  }

  // ---------------------------------------------------------------- theorems about runs

  /** Taken commands are a prefix of the enqueued ones; enqueued ones are accepted ones in
      order of acceptance, and before cancellation all of them but at most one pending. */
  lemma CommandsInOrder(dbs: Stores, es: seq<Event>)
    requires ValidStores(dbs) && Exec(dbs, es).Some?
    ensures var s := Exec(dbs, es).value;
            && |s.canTx| <= 100
            && s.taken <= s.enqueued
            && (forall i :: 0 <= i < |s.enqueued| ==>
                  s.enqueued[i].number < |s.accepted| && s.accepted[s.enqueued[i].number].msg == s.enqueued[i].msg)
            && (forall i, j :: 0 <= i < j < |s.enqueued| ==> s.enqueued[i].number < s.enqueued[j].number)
            && (!s.cancelled ==> |s.accepted| == |s.enqueued| + if s.pending.Some? then 1 else 0)
  {
    RunKeeps(dbs, es);
    var s := Exec(dbs, es).value;
    assert forall i :: 0 <= i < |s.enqueued| ==> Backlog(s)[i] == s.enqueued[i];
    forall i | 0 <= i < |s.enqueued|
      ensures Numbered(s, s.enqueued[i])
    {
      assert Backlog(s)[i] in Backlog(s);
    }
  }

  /** Before cancellation the enqueued commands and the one waiting are the accepted ones,
      one for one. */
  lemma {:induction false} NoneIsMissing(dbs: Stores, es: seq<Event>)
    requires ValidStores(dbs) && Exec(dbs, es).Some? && !Exec(dbs, es).value.cancelled
    ensures var s := Exec(dbs, es).value;
            var items := s.enqueued + if s.pending.Some? then [s.pending.value] else [];
            && |items| == |s.accepted|
            && forall i :: 0 <= i < |items| ==> items[i] == Item(i, s.accepted[i].msg)
  {
    if es != [] {
      NoneIsMissing(dbs, es[..|es| - 1]);
    }
  }

  lemma ExecMore(dbs: Stores, es: seq<Event>, e: Event)
    requires ValidStores(dbs) && Exec(dbs, es).Some?
    ensures Exec(dbs, es + [e]).Some? <==> Enabled(Exec(dbs, es).value, e)
  {
    assert (es + [e])[..|es|] == es;
  }

  /** What holds a run up. With no command waiting, any payload may come next, as the commands
      its table makes in any order; a send waits only while the queue is full; the worker
      takes as long as there is something to take. */
  lemma BlockedExactly(dbs: Stores, es: seq<Event>, p: Payload, msg: DecodeMsg, answer: bool)
    requires ValidStores(dbs) && Exec(dbs, es).Some?
    ensures var s := Exec(dbs, es).value;
            && (Exec(dbs, es + [Command(p, msg)]).Some? <==> s.pending.None? && CommandOf(p, msg))
            && (Exec(dbs, es + [Refuse(p)]).Some? <==> s.pending.None? && !Accepted(p))
            && (Exec(dbs, es + [Enqueue]).Some? <==> s.pending.Some? && |s.canTx| != 100)
            && (Exec(dbs, es + [Take(answer)]).Some? <==> !s.stopped && s.canTx != [])
  {
    RunKeeps(dbs, es);
    ExecMore(dbs, es, Command(p, msg));
    ExecMore(dbs, es, Refuse(p));
    ExecMore(dbs, es, Enqueue);
    ExecMore(dbs, es, Take(answer));
  }

  function StepsLeft(s: State): nat {
    |s.canTx| + if s.pending.Some? then 2 else 0
  }

  lemma MoveOn(dbs: Stores, es: seq<Event>) returns (e: Event)
    requires ValidStores(dbs) && Exec(dbs, es).Some?
    requires var s := Exec(dbs, es).value; !s.stopped && StepsLeft(s) > 0
    ensures e == Enqueue || e == Take(true)
    ensures Exec(dbs, es + [e]).Some?
    ensures var s, t := Exec(dbs, es).value, Exec(dbs, es + [e]).value;
            && StepsLeft(t) < StepsLeft(s)
            && !t.stopped && t.accepted == s.accepted && t.cancelled == s.cancelled
  {
    e := if Exec(dbs, es).value.canTx != [] then Take(true) else Enqueue;
    assert (es + [e])[..|es|] == es;
  }

  lemma {:induction false} RunsDry(dbs: Stores, es: seq<Event>) returns (more: seq<Event>)
    requires ValidStores(dbs) && Exec(dbs, es).Some? && !Exec(dbs, es).value.stopped
    ensures forall e :: e in more ==> e == Enqueue || e == Take(true)
    ensures Exec(dbs, es + more).Some?
    ensures var s, t := Exec(dbs, es).value, Exec(dbs, es + more).value;
            StepsLeft(t) == 0 && t.accepted == s.accepted && t.cancelled == s.cancelled
    decreases StepsLeft(Exec(dbs, es).value)
  {
    if StepsLeft(Exec(dbs, es).value) == 0 {
      more := [];
      assert es + more == es;
    } else {
      var e := MoveOn(dbs, es);
      var rest := RunsDry(dbs, es + [e]);
      more := [e] + rest;
      assert es + more == es + [e] + rest;
    }
  }

  /** From every reachable state before cancellation the worker can catch up: every accepted
      command gets taken, in order, whatever blocked until then. */
  lemma NothingIsStuck(dbs: Stores, es: seq<Event>) returns (more: seq<Event>)
    requires ValidStores(dbs) && Exec(dbs, es).Some?
    requires !Exec(dbs, es).value.stopped && !Exec(dbs, es).value.cancelled
    ensures forall e :: e in more ==> e == Enqueue || e == Take(true)
    ensures Exec(dbs, es + more).Some?
    ensures var a, taken := Exec(dbs, es).value.accepted, Exec(dbs, es + more).value.taken;
            |taken| == |a| && forall i :: 0 <= i < |a| ==> taken[i] == Item(i, a[i].msg)
  {
    more := RunsDry(dbs, es);
    NoneIsMissing(dbs, es + more);
    RunKeeps(dbs, es + more);
  }

  /** Every transmitted frame encodes an accepted payload for the bus that payload names;
      no command is transmitted twice, and frames go out in order of acceptance. */
  lemma DownlinkSafety(dbs: Stores, es: seq<Event>, i: nat)
    requires ValidStores(dbs) && Exec(dbs, es).Some? && i < |Exec(dbs, es).value.sent|
    ensures var s := Exec(dbs, es).value;
            var x := s.sent[i];
            && x.number < |s.accepted|
            && CommandOf(s.accepted[x.number].payload, s.accepted[x.number].msg)
            && x.bus == s.accepted[x.number].payload.busID && x.bus in dbs
            && EncodeFrame(dbs[x.bus], s.accepted[x.number].msg) == Ok(x.frame)
            && forall j :: 0 <= j < i ==> s.sent[j].number < x.number
  {
    RunKeeps(dbs, es);
    var s := Exec(dbs, es).value;
    assert Faithful(dbs, s, s.sent[i]);
    assert s.accepted[s.sent[i].number] in s.accepted;
  }

  /** The socket's answers to the transmissions of a run, in order of the takes. */
  function Answers(es: seq<Event>): seq<bool> {
    if es == [] then []
    else Answers(es[..|es| - 1]) + if es[|es| - 1].Take? then [es[|es| - 1].transmitted] else []
  }

  /** What a worker that takes `items` and gets `answers` must have transmitted. */
  function Transmissions(dbs: Stores, items: seq<Item>, answers: seq<bool>): seq<Sent>
    requires ValidStores(dbs) && |items| == |answers|
  {
    if items == [] then []
    else
      var n := |items| - 1;
      Transmissions(dbs, items[..n], answers[..n]) + SentFor(dbs, items[n], answers[n])
  }

  lemma StepTransmits(dbs: Stores, s: State, e: Event, answers: seq<bool>)
    requires ValidStores(dbs) && Enabled(s, e)
    requires |s.taken| == |answers| && s.sent == Transmissions(dbs, s.taken, answers)
    ensures var more := answers + if e.Take? then [e.transmitted] else [];
            |Next(dbs, s, e).taken| == |more|
            && Next(dbs, s, e).sent == Transmissions(dbs, Next(dbs, s, e).taken, more)
  {
    if e.Take? {
      var item := s.canTx[0];
      assert (s.taken + [item])[..|s.taken|] == s.taken;
      assert (answers + [e.transmitted])[..|answers|] == answers;
    } else {
      assert answers + [] == answers;
    }
  }

  /** The transmitted frames are exactly those of the taken commands that name a bus with a
      handler, encode, and are accepted by the socket. */
  lemma {:induction false} TransmittedExactly(dbs: Stores, es: seq<Event>)
    requires ValidStores(dbs) && Exec(dbs, es).Some?
    ensures |Exec(dbs, es).value.taken| == |Answers(es)|
    ensures Exec(dbs, es).value.sent == Transmissions(dbs, Exec(dbs, es).value.taken, Answers(es))
  {
    if es != [] {
      var init := es[..|es| - 1];
      TransmittedExactly(dbs, init);
      StepTransmits(dbs, Exec(dbs, init).value, es[|es| - 1], Answers(init));
    }
  }

  lemma {:induction false} TransmissionsHave(dbs: Stores, items: seq<Item>, answers: seq<bool>, i: nat)
    requires ValidStores(dbs) && |items| == |answers| && i < |items|
    ensures forall x :: x in SentFor(dbs, items[i], answers[i]) ==> x in Transmissions(dbs, items, answers)
  {
    var n := |items| - 1;
    if i < n {
      TransmissionsHave(dbs, items[..n], answers[..n], i);
    }
  }

  /** A taken command for a bus with a handler, which encodes and which the socket accepts,
      has been transmitted. */
  lemma TakenIsTransmitted(dbs: Stores, es: seq<Event>, i: nat)
    requires ValidStores(dbs) && Exec(dbs, es).Some? && i < |Exec(dbs, es).value.taken|
    ensures |Answers(es)| == |Exec(dbs, es).value.taken|
    ensures var item := Exec(dbs, es).value.taken[i];
            Answers(es)[i] && item.msg.busID in dbs && EncodeFrame(dbs[item.msg.busID], item.msg).Ok? ==>
              Sent(item.number, item.msg.busID, EncodeFrame(dbs[item.msg.busID], item.msg).value)
                in Exec(dbs, es).value.sent
  {
    TransmittedExactly(dbs, es);
    TransmissionsHave(dbs, Exec(dbs, es).value.taken, Answers(es), i);
  }

  /** What a receiver on that bus parses out of the frame is exactly the payload's signal
      table, quantised. */
  lemma TransmittedFrameParses(dbs: Stores, es: seq<Event>, i: nat)
    requires ValidStores(dbs) && Exec(dbs, es).Some? && i < |Exec(dbs, es).value.sent|
    ensures var x := Exec(dbs, es).value.sent[i];
            && x.number < |Exec(dbs, es).value.accepted| && x.bus in dbs && dbs[x.bus].Some?
            && x.frame.id in dbs[x.bus].value.msgs
            && var p := Exec(dbs, es).value.accepted[x.number].payload;
               var defs := dbs[x.bus].value.msgs[x.frame.id].signals;
               AllConvertible(p.signals)
               && (DecodableStore(dbs[x.bus]) && WellFormed(defs) && NamesActiveOnly(defs, Converted(p.signals)) ==>
                     DecodeFrame(dbs[x.bus], x.frame) ==
                     Expected(defs, CommandedSwitch(defs, Converted(p.signals)), Converted(p.signals)))
  {
    DownlinkSafety(dbs, es, i);
    var s := Exec(dbs, es).value;
    var x := s.sent[i];
    var a := s.accepted[x.number];
    EnumerationValues(a.msg.signals, a.payload.signals);
    var defs := dbs[x.bus].value.msgs[x.frame.id].signals;
    if DecodableStore(dbs[x.bus]) && WellFormed(defs) && NamesActiveOnly(defs, Converted(a.payload.signals)) {
      HandlerRoundTrip(dbs[x.bus], a.msg);
    }
  }
}
